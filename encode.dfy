/**
 * Attribute-value escaping: every character that has a named entity is
 * written as that entity; every other character below U+0100 that is not
 * an ASCII letter or digit becomes a numeric reference `&#xHH;`; everything
 * else is written as its own UTF-8 bytes.
 *
 * The named-entity table is a parameter: `table[c]` is the entity for `c`,
 * and `c !in table` means the table has none.
 */
module HtmlEncode {
  import opened Wrappers
  import opened Utf8
  import opened Sink

  /** Character to named entity, e.g. `"` to `&quot;`. */
  type EntityTable = map<char, string>

  const AMP: byte := '&' as int
  const HASH: byte := '#' as int
  const LOWER_X: byte := 'x' as int
  const SEMI: byte := ';' as int

  /** The digit table of the numeric reference; upper case. */
  const HEX_DIGITS: string := "0123456789ABCDEF"

  /** `a`-`z`, `A`-`Z` or `0`-`9`. */
  predicate IsAsciiAlnum(c: char)
    ensures IsAsciiAlnum(c) ==> c as int < 0x80
  {
    ('a' <= c <= 'z') || ('A' <= c <= 'Z') || ('0' <= c <= '9')
  }

  /** An ASCII character that may appear in attribute-safe output. */
  predicate IsAttributeSafeChar(c: char) {
    IsAsciiAlnum(c) || c == '&' || c == '#' || c == ';'
  }

  /**
   * A byte that cannot end or break out of an attribute value: an ASCII
   * letter or digit, one of `&`, `#`, `;`, or a non-ASCII byte.
   */
  predicate IsAttributeSafeByte(b: byte) {
    b >= 0x80 || IsAttributeSafeChar(b as char)
  }

  /** Every entity of the table is non-empty and spelled with attribute-safe ASCII. */
  predicate EntitiesAttributeSafe(table: EntityTable) {
    forall c | c in table ::
      |table[c]| > 0 && forall j | 0 <= j < |table[c]| :: IsAttributeSafeChar(table[c][j])
  }

  /** `0`-`9` and `A`-`F`. */
  predicate IsUpperHexDigit(b: byte) {
    ('0' as int <= b <= '9' as int) || ('A' as int <= b <= 'F' as int)
  }

  /** The value of a hexadecimal digit byte of either case. */
  function HexValue(b: byte): Option<nat> {
    if '0' as int <= b <= '9' as int then Some(b - '0' as int)
    else if 'A' as int <= b <= 'F' as int then Some(b - 'A' as int + 10)
    else if 'a' as int <= b <= 'f' as int then Some(b - 'a' as int + 10)
    else None
  }

  /** `c as u8`: the low eight bits of the code point. */
  function AsU8(c: char): (n: byte)
    ensures (c as int - n) % 0x100 == 0
    ensures c as int < 0x100 ==> n == c as int
  {
    (c as int) % 0x100
  }

  /**
   * The numeric reference `&#xHH;` for byte `n`: the high nibble
   * (`(n & 0xF0) >> 4`) and then the low nibble (`n & 0x0F`), each looked up
   * in the digit table.
   */
  function HexReference(n: byte): (r: seq<byte>)
    ensures |r| == 6
    ensures r[0] == AMP && r[1] == HASH && r[2] == LOWER_X && r[5] == SEMI
    ensures IsUpperHexDigit(r[3]) && IsUpperHexDigit(r[4])
    ensures forall j | 0 <= j < |r| :: r[j] < 0x80
  {
    [AMP, HASH, LOWER_X, HEX_DIGITS[n / 16] as int, HEX_DIGITS[n % 16] as int, SEMI]
  }

  /** Reads one numeric reference `&#xHH;` back, digits of either case. */
  function ParseHexReference(r: seq<byte>): Option<byte> {
    if |r| == 6 && r[0] == AMP && r[1] == HASH && r[2] == LOWER_X && r[5] == SEMI then
      match (HexValue(r[3]), HexValue(r[4]))
      case (Some(hi), Some(lo)) => Some(16 * hi + lo)
      case _ => None
    else
      None
  }

  /** The numeric reference reads back as the byte it was made from. */
  lemma HexReferenceRoundTrip(n: byte)
    ensures ParseHexReference(HexReference(n)) == Some(n)
  {
    var r := HexReference(n);
    assert HexValue(r[3]) == Some(n / 16);
    assert HexValue(r[4]) == Some(n % 16);
  }

  /** The guard of the numeric-reference branch. */
  predicate NeedsHexEscape(c: char)
    ensures NeedsHexEscape(c) <==> c as int < 256 && !IsAsciiAlnum(c)
  {
    var b := c as int;
    b < 256 && (b > 127 || !IsAsciiAlnum(c))
  }

  /** What one character is written as. */
  function CharEscape(table: EntityTable, c: char): (r: seq<byte>)
    ensures c !in table ==> 1 <= |r| <= 6
    ensures c !in table ==> (r[0] == AMP <==> NeedsHexEscape(c))
  {
    if c in table then EncodeString(table[c])
    else if NeedsHexEscape(c) then HexReference(AsU8(c))
    else EncodeScalar(c)
  }

  /** What a string is written as: its characters' escapes, in order. */
  function Escaped(table: EntityTable, s: string): (r: seq<byte>)
    ensures (forall i | 0 <= i < |s| :: s[i] !in table) ==> |s| <= |r| <= 6 * |s|
  {
    if s == [] then [] else CharEscape(table, s[0]) + Escaped(table, s[1..])
  }

  /**
   * The three ways a character can come out, each read back with its
   * partner decoder: a character with an entity is written as exactly that
   * entity, even when it would also qualify for a numeric reference; a
   * character in the numeric-reference branch comes back whole from its
   * reference, so taking only its low eight bits loses nothing; any other
   * character comes back as itself.
   */
  lemma CharEscapeCases(table: EntityTable, c: char)
    ensures c in table ==> DecodeString(CharEscape(table, c)) == Some(table[c])
    ensures c !in table && NeedsHexEscape(c) ==>
      ParseHexReference(CharEscape(table, c)) == Some(c as int) && DecodeString(CharEscape(table, c)).Some?
    ensures c !in table && !NeedsHexEscape(c) ==> DecodeString(CharEscape(table, c)) == Some([c])
  {
    if c in table {
      StringRoundTrip(table[c]);
    } else if NeedsHexEscape(c) {
      HexEscapeDecodes(table, c);
    } else {
      PlainDecodes(table, c);
    }
  }

  /** A character in the numeric-reference branch reads back whole. */
  lemma HexEscapeDecodes(table: EntityTable, c: char)
    requires c !in table && NeedsHexEscape(c)
    ensures ParseHexReference(CharEscape(table, c)) == Some(c as int)
    ensures DecodeString(CharEscape(table, c)).Some?
  {
    assert AsU8(c) == c as int;
    var r := HexReference(c as int);
    assert CharEscape(table, c) == r;
    HexReferenceRoundTrip(c as int);
    AsciiDecodes(r);
  }

  /** A character written as itself decodes back to itself. */
  lemma PlainDecodes(table: EntityTable, c: char)
    requires c !in table && !NeedsHexEscape(c)
    ensures DecodeString(CharEscape(table, c)) == Some([c])
  {
    assert CharEscape(table, c) == EncodeScalar(c);
    ScalarDecodes(c);
  }

  /**
   * With no entity in the way, exactly the characters below U+0100 that are
   * not ASCII letters or digits become numeric references; from U+0100 up
   * nothing does.
   */
  lemma HexEscapeBoundary(table: EntityTable, c: char)
    requires c !in table
    ensures ParseHexReference(CharEscape(table, c)).Some? <==> c as int < 256 && !IsAsciiAlnum(c)
    ensures c as int < 256 && !IsAsciiAlnum(c) ==> ParseHexReference(CharEscape(table, c)) == Some(c as int)
    ensures c as int >= 256 ==> CharEscape(table, c) == EncodeScalar(c)
  {
    if NeedsHexEscape(c) {
      assert AsU8(c) == c as int;
      HexReferenceRoundTrip(AsU8(c));
    }
  }

  /**
   * Below U+0080 and with no entity, a character is written as its own
   * single byte exactly when it is an ASCII letter or digit.
   */
  lemma AsciiAlnumPassThrough(table: EntityTable, c: char)
    requires c !in table && c as int < 0x80
    ensures CharEscape(table, c) == [c as int] <==> IsAsciiAlnum(c)
  {
  }

  /** Escaping is a homomorphism: nothing is dropped, added or reordered at a seam. */
  lemma {:induction false} EscapedAppend(table: EntityTable, s: string, t: string)
    ensures Escaped(table, s + t) == Escaped(table, s) + Escaped(table, t)
  {
    if s == [] {
      assert s + t == t;
    } else {
      assert (s + t)[0] == s[0] && (s + t)[1..] == s[1..] + t;
      EscapedAppend(table, s[1..], t);
    }
  }

  /** Escaping one more character of a prefix appends that character's escape. */
  lemma EscapedExtend(table: EntityTable, s: string, i: nat)
    requires i < |s|
    ensures Escaped(table, s[..i + 1]) == Escaped(table, s[..i]) + CharEscape(table, s[i])
  {
    EscapedAppend(table, s[..i], [s[i]]);
    assert Escaped(table, [s[i]]) == CharEscape(table, s[i]) + Escaped(table, []);
    assert s[..i + 1] == s[..i] + [s[i]];
  }

  /** Text that needs no escaping anywhere comes out as its own UTF-8 bytes. */
  lemma {:induction false} PassThroughIdentity(table: EntityTable, s: string)
    requires forall i | 0 <= i < |s| :: s[i] !in table && !NeedsHexEscape(s[i])
    ensures Escaped(table, s) == EncodeString(s)
  {
    if s != [] {
      PassThroughIdentity(table, s[1..]);
    }
  }

  /** Every byte of `bs` is attribute-safe. */
  predicate AllAttributeSafe(bs: seq<byte>) {
    forall i | 0 <= i < |bs| :: IsAttributeSafeByte(bs[i])
  }

  /** Attribute-safe byte strings stay safe when put together. */
  lemma AllAttributeSafeAppend(x: seq<byte>, y: seq<byte>)
    requires AllAttributeSafe(x) && AllAttributeSafe(y)
    ensures AllAttributeSafe(x + y)
  {
    assert forall i | 0 <= i < |x + y| :: (x + y)[i] == if i < |x| then x[i] else y[i - |x|];
  }

  /** One character's escape consists of attribute-safe bytes only. */
  lemma CharEscapeAttributeSafe(table: EntityTable, c: char)
    requires EntitiesAttributeSafe(table)
    ensures AllAttributeSafe(CharEscape(table, c))
  {
    if c in table {
      AsciiEncodeString(table[c]);
    }
  }

  /**
   * Escaped text holds no byte that could close or break out of an attribute
   * value: no quote, apostrophe, angle bracket, equals sign, space or other
   * ASCII punctuation besides the `&`, `#` and `;` of references.
   */
  lemma EscapedAttributeSafe(table: EntityTable, s: string)
    requires EntitiesAttributeSafe(table)
    ensures AllAttributeSafe(Escaped(table, s))
    ensures '"' as int !in Escaped(table, s) && '\'' as int !in Escaped(table, s)
  {
    EscapedAllAttributeSafe(table, s);
    assert !IsAttributeSafeByte('"' as int) && !IsAttributeSafeByte('\'' as int);
  }

  /** The induction behind `EscapedAttributeSafe`. */
  lemma {:induction false} EscapedAllAttributeSafe(table: EntityTable, s: string)
    requires EntitiesAttributeSafe(table)
    ensures AllAttributeSafe(Escaped(table, s))
  {
    if s != [] {
      CharEscapeAttributeSafe(table, s[0]);
      EscapedAllAttributeSafe(table, s[1..]);
      AllAttributeSafeAppend(CharEscape(table, s[0]), Escaped(table, s[1..]));
    }
  }

  /** Escaped output is always well-formed UTF-8, whatever the entities. */
  lemma {:induction false} EscapedDecodes(table: EntityTable, s: string)
    ensures DecodeString(Escaped(table, s)).Some?
  {
    if s != [] {
      CharEscapeCases(table, s[0]);
      EscapedDecodes(table, s[1..]);
      DecodeStringAppend(CharEscape(table, s[0]), Escaped(table, s[1..]));
    }
  }

  /** Concatenation is associative (spelled out: the solver finds it costly on long terms). */
  lemma ConcatAssoc(a: seq<byte>, b: seq<byte>, c: seq<byte>)
    ensures (a + b) + c == a + (b + c)
  {
  }

  /** Appends the numeric reference for `c`, truncated to a byte as `c as u8` does. */
  method WriteHex(w: ByteWriter, c: char)
    modifies w
    ensures w.bytes == old(w.bytes) + HexReference(AsU8(c))
  {
    w.WriteAll([AMP, HASH, LOWER_X]);
    var n := AsU8(c);
    var digits: seq<byte> := [HEX_DIGITS[n / 16] as int, HEX_DIGITS[n % 16] as int, SEMI];
    w.WriteAll(digits);
  }

  /** Appends the escape of one character. */
  method EncodeChar(w: ByteWriter, table: EntityTable, c: char)
    modifies w
    ensures w.bytes == old(w.bytes) + CharEscape(table, c)
  {
    if c in table {
      w.WriteAll(EncodeString(table[c]));
    } else {
      var b := c as int;
      if b < 256 && (b > 127 || !IsAsciiAlnum(c)) {
        WriteHex(w, c);
      } else {
        WriteChar(w, c);
      }
    }
  }

  /** Appends the escape of every character of `s`, in order. */
  method EncodeAttributeTo(w: ByteWriter, table: EntityTable, s: string)
    modifies w
    ensures w.bytes == old(w.bytes) + Escaped(table, s)
  {
    ghost var start := w.bytes;
    var i := 0;
    while i < |s|
      invariant 0 <= i <= |s|
      invariant w.bytes == start + Escaped(table, s[..i])
    {
      var c := s[i];
      EncodeChar(w, table, c);
      EscapedExtend(table, s, i);
      ConcatAssoc(start, Escaped(table, s[..i]), CharEscape(table, c));
      i := i + 1;
    }
    assert s[..i] == s;
  }

  /**
   * Escapes `s` into a fresh buffer and returns it as text; the buffer is
   * always well-formed UTF-8, so turning it into a string cannot fail.
   */
  method EncodeAttribute(table: EntityTable, s: string) returns (out: string)
    ensures EncodeString(out) == Escaped(table, s)
  {
    var w := new ByteWriter.Empty();
    EncodeAttributeTo(w, table, s);
    assert w.bytes == Escaped(table, s);
    EscapedDecodes(table, s);
    out := "";
    match DecodeString(w.bytes)
    case Some(text) =>
      DecodeStringSound(w.bytes);
      out := text;
    case None =>
      assert false;
  }

  /** Escaping respects a split of the input into two texts whose escapes are known. */
  lemma EscapedJoin(table: EntityTable, s: string, t: string, sText: string, tText: string)
    requires Escaped(table, s) == EncodeString(sText) && Escaped(table, t) == EncodeString(tText)
    ensures Escaped(table, s + t) == EncodeString(sText + tText)
  {
    EscapedAppend(table, s, t);
    EncodeStringAppend(sText, tText);
  }

  /** The bytes `write_hex` produces are the ASCII text `&#xHH;`. */
  lemma HexReferenceText(n: byte, spelling: string)
    requires spelling == ['&', '#', 'x', HEX_DIGITS[n / 16], HEX_DIGITS[n % 16], ';']
    ensures HexReference(n) == EncodeString(spelling)
  {
    AsciiEncodeString(spelling);
    assert forall j | 0 <= j < 6 :: EncodeString(spelling)[j] == HexReference(n)[j];
  }

  /** The three characters of the documentation example that get numeric references. */
  lemma ExampleHexPieces(table: EntityTable)
    requires ',' !in table && ' ' !in table && '.' !in table
    ensures Escaped(table, ",") == HexReference(0x2C)
    ensures Escaped(table, " ") == HexReference(0x20)
    ensures Escaped(table, ".") == HexReference(0x2E)
  {
    assert Escaped(table, ",") == CharEscape(table, ',') + Escaped(table, []);
    assert Escaped(table, " ") == CharEscape(table, ' ') + Escaped(table, []);
    assert Escaped(table, ".") == CharEscape(table, '.') + Escaped(table, []);
  }

  /** How those three references read as text. */
  lemma ExampleHexSpellings()
    ensures HexReference(0x2C) == EncodeString("&#x2C;")
    ensures HexReference(0x20) == EncodeString("&#x20;")
    ensures HexReference(0x2E) == EncodeString("&#x2E;")
  {
    HexReferenceText(0x2C, "&#x2C;");
    HexReferenceText(0x20, "&#x20;");
    HexReferenceText(0x2E, "&#x2E;");
  }

  /** The quote of the documentation example and its words. */
  lemma ExampleOtherPieces(table: EntityTable)
    requires '"' in table && table['"'] == "&quot;"
    requires 'N' !in table && 'o' !in table && 'h' !in table && 'e' !in table
    requires 's' !in table && 'a' !in table && 'i' !in table && 'd' !in table
    ensures Escaped(table, "\"") == EncodeString("&quot;")
    ensures Escaped(table, "No") == EncodeString("No")
    ensures Escaped(table, "he") == EncodeString("he")
    ensures Escaped(table, "said") == EncodeString("said")
  {
    assert Escaped(table, "\"") == CharEscape(table, '"') + Escaped(table, []);
    PassThroughIdentity(table, "No");
    PassThroughIdentity(table, "he");
    PassThroughIdentity(table, "said");
  }

  /**
   * The example of the `encode_attribute` documentation, `"No", he said.`,
   * written piece by piece, for any table that maps `"` to `&quot;` and has
   * no entity for the other characters in it. The returned text is the only
   * string with that encoding.
   */
  lemma DocumentationExample(table: EntityTable)
    requires '"' in table && table['"'] == "&quot;"
    requires 'N' !in table && 'o' !in table && ',' !in table && ' ' !in table && 'h' !in table && 'e' !in table
    requires 's' !in table && 'a' !in table && 'i' !in table && 'd' !in table && '.' !in table
    ensures Escaped(table, "\"" + "No" + "\"" + "," + " " + "he" + " " + "said" + ".")
         == EncodeString("&quot;" + "No" + "&quot;" + "&#x2C;" + "&#x20;" + "he" + "&#x20;" + "said" + "&#x2E;")
    ensures forall out | EncodeString(out) == Escaped(table, "\"" + "No" + "\"" + "," + " " + "he" + " " + "said" + ".")
              :: out == "&quot;" + "No" + "&quot;" + "&#x2C;" + "&#x20;" + "he" + "&#x20;" + "said" + "&#x2E;"
  {
    ExampleOtherPieces(table);
    ExampleHexPieces(table);
    ExampleHexSpellings();
    EscapedJoin(table, "\"", "No", "&quot;", "No");
    EscapedJoin(table, "\"" + "No", "\"", "&quot;" + "No", "&quot;");
    EscapedJoin(table, "\"" + "No" + "\"", ",", "&quot;" + "No" + "&quot;", "&#x2C;");
    EscapedJoin(table, "\"" + "No" + "\"" + ",", " ", "&quot;" + "No" + "&quot;" + "&#x2C;", "&#x20;");
    EscapedJoin(table, "\"" + "No" + "\"" + "," + " ", "he", "&quot;" + "No" + "&quot;" + "&#x2C;" + "&#x20;", "he");
    EscapedJoin(table, "\"" + "No" + "\"" + "," + " " + "he", " ", "&quot;" + "No" + "&quot;" + "&#x2C;" + "&#x20;" + "he", "&#x20;");
    EscapedJoin(table, "\"" + "No" + "\"" + "," + " " + "he" + " ", "said", "&quot;" + "No" + "&quot;" + "&#x2C;" + "&#x20;" + "he" + "&#x20;", "said");
    EscapedJoin(table, "\"" + "No" + "\"" + "," + " " + "he" + " " + "said", ".", "&quot;" + "No" + "&quot;" + "&#x2C;" + "&#x20;" + "he" + "&#x20;" + "said", "&#x2E;");
    forall out | EncodeString(out) == Escaped(table, "\"" + "No" + "\"" + "," + " " + "he" + " " + "said" + ".")
      ensures out == "&quot;" + "No" + "&quot;" + "&#x2C;" + "&#x20;" + "he" + "&#x20;" + "said" + "&#x2E;"
    {
      EncodeStringInjective(out, "&quot;" + "No" + "&quot;" + "&#x2C;" + "&#x20;" + "he" + "&#x20;" + "said" + "&#x2E;");
    }
  }
}
