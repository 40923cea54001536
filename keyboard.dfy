/**
 The search box's keyboard remapping (ArabicLineEdit): with a Latin layout
 active, a key that the QWERTY-to-Arabic table knows inserts the text printed
 on that key of an Arabic keyboard, so a surah can be searched without
 switching layouts.
 */
module ArabicLineEdit {
  import opened Wrappers

  /**
   EN_TO_AR_MAP. Every key of the table is a one-character string, so it is
   written here as a function of that character; `text in EN_TO_AR_MAP` is
   InTable(text) below.
   */
  function ArabicKey(key: char): Option<string>
  {
    match key
    // top letter row
    case 'q' => Some("ض")
    case 'w' => Some("ص")
    case 'e' => Some("ث")
    case 'r' => Some("ق")
    case 't' => Some("ف")
    case 'y' => Some("غ")
    case 'u' => Some("ع")
    case 'i' => Some("ه")
    case 'o' => Some("خ")
    case 'p' => Some("ح")
    case '[' => Some("ج")
    case ']' => Some("د")
    // home row
    case 'a' => Some("ش")
    case 's' => Some("س")
    case 'd' => Some("ي")
    case 'f' => Some("ب")
    case 'g' => Some("ل")
    case 'h' => Some("ا")
    case 'j' => Some("ت")
    case 'k' => Some("ن")
    case 'l' => Some("م")
    case ';' => Some("ك")
    case '\'' => Some("ط")
    // bottom row
    case 'z' => Some("ئ")
    case 'x' => Some("ء")
    case 'c' => Some("ؤ")
    case 'v' => Some("ر")
    case 'b' => Some("لا")
    case 'n' => Some("ى")
    case 'm' => Some("ة")
    case ',' => Some("و")
    case '.' => Some("ز")
    case '/' => Some("ظ")
    // top letter row with Shift
    case 'Q' => Some("\U{064E}")
    case 'W' => Some("\U{064B}")
    case 'E' => Some("\U{064F}")
    case 'R' => Some("\U{064C}")
    case 'T' => Some("لإ")
    case 'Y' => Some("إ")
    case 'U' => Some("\U{2018}")
    case 'I' => Some("\U{00F7}")
    case 'O' => Some("\U{00D7}")
    case 'P' => Some("\U{061B}")
    case '{' => Some("<")
    case '}' => Some(">")
    // home row with Shift
    case 'A' => Some("\U{0650}")
    case 'S' => Some("\U{064D}")
    case 'D' => Some("]")
    case 'F' => Some("[")
    case 'G' => Some("لأ")
    case 'H' => Some("أ")
    case 'J' => Some("\U{0640}")
    case 'K' => Some("\U{060C}")
    case 'L' => Some("/")
    case ':' => Some(":")
    case '"' => Some("\"")
    // bottom row with Shift
    case 'Z' => Some("~")
    case 'X' => Some("\U{0652}")
    case 'C' => Some("{")
    case 'V' => Some("}")
    case 'B' => Some("لآ")
    case 'N' => Some("آ")
    case 'M' => Some("\U{2019}")
    case '<' => Some(",")
    case '>' => Some(".")
    case '?' => Some("\U{061F}")
    case _ => None
  }

  /** `text in EN_TO_AR_MAP` */
  predicate InTable(text: string) {
    |text| == 1 && ArabicKey(text[0]).Some?
  }

  /** The Ctrl and Alt bits of the event's keyboard modifiers; the other bits play no part. */
  datatype Modifiers = Modifiers(control: bool, alt: bool)

  /** What keyPressEvent does with the event: insert text itself, or hand the event on to QLineEdit. */
  datatype KeyOutcome = Insert(text: string) | PassOn

  /** keyPressEvent, given the event's modifiers and its text. */
  function KeyPress(mods: Modifiers, text: string): KeyOutcome
  {
    if mods.control || mods.alt then PassOn
    else if InTable(text) then Insert(ArabicKey(text[0]).value)
    else PassOn
  }

  /** Every entry inserts one or two characters; 'b', 'T', 'G' and 'B' insert lam-alef ligature pairs. */
  lemma KeyTableShape()
    ensures forall c :: ArabicKey(c).Some? ==> 1 <= |ArabicKey(c).value| <= 2
    ensures ArabicKey('b') == Some("لا") && ArabicKey('T') == Some("لإ")
    ensures ArabicKey('G') == Some("لأ") && ArabicKey('B') == Some("لآ")
  {
  }

  /**
   A held Ctrl or Alt always passes the key on; otherwise exactly the table's keys are
   replaced, each by its entry, which is never empty.
   */
  lemma KeyPressReplacesTableKeys(mods: Modifiers, text: string)
    ensures (mods.control || mods.alt) ==> KeyPress(mods, text) == PassOn
    ensures !mods.control && !mods.alt ==> (KeyPress(mods, text).Insert? <==> InTable(text))
    ensures KeyPress(mods, text).Insert? ==>
      |text| == 1 && Some(KeyPress(mods, text).text) == ArabicKey(text[0])
      && 1 <= |KeyPress(mods, text).text| <= 2
  {
    KeyTableShape();
  }

  /**
   The text one unmodified key press leaves in the search box: a table key
   inserts its entry, and any other printable key is passed on to QLineEdit,
   which inserts the key's own text.
   */
  function KeyText(key: char): (r: string)
    ensures 1 <= |r| <= 2
  {
    match ArabicKey(key)
    case Some(entry) => KeyTableShape(); entry
    case None => [key]
  }

  /**
   KeyText is what keyPressEvent does with an unmodified press: a table key is
   inserted by the box itself, any other key is passed on and inserted as typed.
   */
  lemma KeyTextIsKeyPress(key: char)
    ensures ArabicKey(key).Some? ==> KeyPress(Modifiers(false, false), [key]) == Insert(KeyText(key))
    ensures ArabicKey(key).None? ==> KeyPress(Modifiers(false, false), [key]) == PassOn && KeyText(key) == [key]
  {
  }

  /** What a run of key presses leaves in an empty box when each press inserts `text(key)` at the end. */
  function InsertAll(keys: string, text: char -> string): string
  {
    if keys == [] then [] else InsertAll(keys[..|keys| - 1], text) + text(keys[|keys| - 1])
  }

  lemma InsertAllSnoc(keys: string, key: char, text: char -> string)
    ensures InsertAll(keys + [key], text) == InsertAll(keys, text) + text(key)
  {
    assert (keys + [key])[..|keys|] == keys;
  }

  /** Inserting one run of keys and then another leaves the two texts one after the other. */
  lemma {:induction false} InsertAllAppend(a: string, b: string, text: char -> string)
    ensures InsertAll(a + b, text) == InsertAll(a, text) + InsertAll(b, text)
    decreases |b|
  {
    if b == [] {
      assert a + b == a;
    } else {
      var init := b[..|b| - 1];
      var last := b[|b| - 1];
      assert init + [last] == b;
      assert a + b == (a + init) + [last];
      InsertAllSnoc(a + init, last, text);
      InsertAllAppend(a, init, text);
      InsertAllSnoc(init, last, text);
    }
  }

  /** When every key inserts one or two characters, so does the run, per key. */
  lemma {:induction false} InsertAllLength(keys: string, text: char -> string)
    requires forall c :: 1 <= |text(c)| <= 2
    ensures |keys| <= |InsertAll(keys, text)| <= 2 * |keys|
    decreases |keys|
  {
    if keys != [] {
      InsertAllLength(keys[..|keys| - 1], text);
    }
  }

  /** The text a run of unmodified printable key presses leaves in the search box, typed at its end. */
  function Typed(keys: string): (r: string)
    ensures |keys| <= |r| <= 2 * |keys|
  {
    InsertAllLength(keys, KeyText);
    InsertAll(keys, KeyText)
  }

  /** Each further key appends its own text to the text typed so far. */
  lemma TypedSnoc(keys: string, key: char)
    ensures Typed(keys + [key]) == Typed(keys) + KeyText(key)
  {
    InsertAllSnoc(keys, key, KeyText);
  }

  /** Typing one run of keys and then another leaves the two texts one after the other. */
  lemma TypedAppend(a: string, b: string)
    ensures Typed(a + b) == Typed(a) + Typed(b)
  {
    InsertAllAppend(a, b, KeyText);
  }

  /** Typing "hgthjpm" on the Latin layout spells Al-Fatiha. */
  lemma TypedFatiha()
    ensures Typed("hgthjpm") == "الفاتحة"
  {
    var k0: string := [];
    var k1 := k0 + ['h'];
    var k2 := k1 + ['g'];
    var k3 := k2 + ['t'];
    var k4 := k3 + ['h'];
    var k5 := k4 + ['j'];
    var k6 := k5 + ['p'];
    var k7 := k6 + ['m'];
    TypedSnoc(k0, 'h');
    TypedSnoc(k1, 'g');
    TypedSnoc(k2, 't');
    TypedSnoc(k3, 'h');
    TypedSnoc(k4, 'j');
    TypedSnoc(k5, 'p');
    TypedSnoc(k6, 'm');
    assert k7 == "hgthjpm";
  }

  /** One key and two keys can type the same text: 'b' inserts the lam-alef pair that "gh" spells out. */
  lemma TypedLamAlef()
    ensures Typed("b") == Typed("gh") == "لا"
  {
    TypedSnoc("", 'b');
    TypedSnoc("", 'g');
    TypedSnoc("g", 'h');
  }
}
