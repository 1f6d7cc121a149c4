/** The usual optional value. */
module Wrappers {
  datatype Option<+T> = None | Some(value: T)
}

/**
 * UTF-8 as defined in section 3 of RFC 3629: the encoder stands for the
 * `write_char` helper the escaper calls for characters it passes through,
 * the validating decoder for `String::from_utf8`, which `encode_attribute`
 * applies to its buffer.
 */
module Utf8 {
  import opened Wrappers

  /** An octet. */
  type byte = b: int | 0 <= b < 256

  /** A continuation byte has the bit pattern 10xxxxxx. */
  predicate IsContinuation(b: byte) {
    0x80 <= b < 0xC0
  }

  /**
   * The length of the sequence a well-formed lead byte starts, or 0 when
   * `b` cannot start a sequence (a continuation byte, the overlong leads
   * 0xC0 and 0xC1, and 0xF5 to 0xFF).
   */
  function LeadLength(b: byte): (n: nat)
    ensures n <= 4
  {
    if b < 0x80 then 1
    else if 0xC2 <= b <= 0xDF then 2
    else if 0xE0 <= b <= 0xEF then 3
    else if 0xF0 <= b <= 0xF4 then 4
    else 0
  }

  /** The UTF-8 encoding of one Unicode scalar value. */
  function EncodeScalar(c: char): (r: seq<byte>)
    ensures 1 <= |r| <= 4 && LeadLength(r[0]) == |r|
    ensures |r| == 1 <==> c as int < 0x80
    ensures |r| == 1 ==> r[0] == c as int
    ensures |r| > 1 ==> forall i | 0 <= i < |r| :: r[i] >= 0x80
  {
    var cp := c as int;
    if cp < 0x80 then
      [cp]
    else if cp < 0x800 then
      [0xC0 + cp / 0x40, 0x80 + cp % 0x40]
    else if cp < 0x10000 then
      [0xE0 + cp / 0x1000, 0x80 + (cp / 0x40) % 0x40, 0x80 + cp % 0x40]
    else
      [0xF0 + cp / 0x40000, 0x80 + (cp / 0x1000) % 0x40, 0x80 + (cp / 0x40) % 0x40, 0x80 + cp % 0x40]
  }

  /**
   * Decodes `bs` as exactly one well-formed sequence: the right lead byte for
   * the length, continuation bytes after it, no overlong form, no surrogate,
   * nothing above U+10FFFF.
   */
  function DecodeScalar(bs: seq<byte>): (r: Option<char>)
    ensures r.Some? ==> 1 <= |bs| <= 4 && LeadLength(bs[0]) == |bs|
  {
    if |bs| == 1 then
      if bs[0] < 0x80 then Some(bs[0] as char) else None
    else if |bs| == 2 then
      if 0xC2 <= bs[0] <= 0xDF && IsContinuation(bs[1]) then
        var cp := Combine2(bs[0] - 0xC0, bs[1] - 0x80);
        Some(cp as char)
      else None
    else if |bs| == 3 then
      if 0xE0 <= bs[0] <= 0xEF && IsContinuation(bs[1]) && IsContinuation(bs[2]) then
        var cp := Combine3(bs[0] - 0xE0, bs[1] - 0x80, bs[2] - 0x80);
        if 0x800 <= cp && !(0xD800 <= cp < 0xE000) then Some(cp as char) else None
      else None
    else if |bs| == 4 then
      if 0xF0 <= bs[0] <= 0xF4 && IsContinuation(bs[1]) && IsContinuation(bs[2]) && IsContinuation(bs[3]) then
        var cp := Combine4(bs[0] - 0xF0, bs[1] - 0x80, bs[2] - 0x80, bs[3] - 0x80);
        if 0x10000 <= cp < 0x110000 then Some(cp as char) else None
      else None
    else
      None
  }

  /** Two payload fields, 5 and 6 bits wide, put together; each comes back out by division. */
  function Combine2(hi: int, lo: int): (cp: int)
    requires 0 <= hi < 0x20 && 0 <= lo < 0x40
    ensures 0x80 <= cp < 0x800 || hi < 2
    ensures cp / 0x40 == hi && cp % 0x40 == lo
  {
    hi * 0x40 + lo
  }

  /** Three payload fields, 4, 6 and 6 bits wide, put together. */
  function Combine3(hi: int, mid: int, lo: int): (cp: int)
    requires 0 <= hi < 0x10 && 0 <= mid < 0x40 && 0 <= lo < 0x40
    ensures 0 <= cp < 0x10000
    ensures cp / 0x1000 == hi && (cp / 0x40) % 0x40 == mid && cp % 0x40 == lo
  {
    var upper := hi * 0x40 + mid;
    assert upper / 0x40 == hi && upper % 0x40 == mid;
    assert upper * 0x40 + lo == hi * 0x1000 + mid * 0x40 + lo;
    assert (upper * 0x40 + lo) / 0x40 == upper && (upper * 0x40 + lo) % 0x40 == lo;
    hi * 0x1000 + mid * 0x40 + lo
  }

  /** Four payload fields, 3, 6, 6 and 6 bits wide, put together. */
  function Combine4(top: int, hi: int, mid: int, lo: int): (cp: int)
    requires 0 <= top < 0x08 && 0 <= hi < 0x40 && 0 <= mid < 0x40 && 0 <= lo < 0x40
    ensures 0 <= cp < 0x200000
    ensures cp / 0x40000 == top && (cp / 0x1000) % 0x40 == hi
    ensures (cp / 0x40) % 0x40 == mid && cp % 0x40 == lo
  {
    var upper := top * 0x40 + hi;
    assert (upper * 0x40 + mid) / 0x40 == upper && (upper * 0x40 + mid) % 0x40 == mid;
    assert upper / 0x40 == top && upper % 0x40 == hi;
    assert (upper * 0x1000 + mid * 0x40 + lo) / 0x1000 == upper;
    upper * 0x1000 + mid * 0x40 + lo
  }

  /** Whatever the scalar decoder accepts re-encodes to exactly its input. */
  lemma DecodeScalarSound(bs: seq<byte>)
    requires DecodeScalar(bs).Some?
    ensures EncodeScalar(DecodeScalar(bs).value) == bs
  {
  }

  /** Every scalar value decodes back from its encoding. */
  lemma ScalarRoundTrip(c: char)
    ensures DecodeScalar(EncodeScalar(c)) == Some(c)
  {
    var cp, bs := c as int, EncodeScalar(c);
    if cp < 0x80 {
    } else if cp < 0x800 {
      assert Combine2(bs[0] - 0xC0, bs[1] - 0x80) == cp;
    } else if cp < 0x10000 {
      assert cp / 0x1000 == (cp / 0x40) / 0x40;
      assert Combine3(bs[0] - 0xE0, bs[1] - 0x80, bs[2] - 0x80) == cp;
    } else {
      assert cp / 0x1000 == (cp / 0x40) / 0x40;
      assert cp / 0x40000 == (cp / 0x1000) / 0x40;
      assert Combine4(bs[0] - 0xF0, bs[1] - 0x80, bs[2] - 0x80, bs[3] - 0x80) == cp;
    }
  }

  /** One scalar value's encoding is a well-formed string of that one character. */
  lemma ScalarDecodes(c: char)
    ensures DecodeString(EncodeScalar(c)) == Some([c])
  {
    var bs := EncodeScalar(c);
    ScalarRoundTrip(c);
    assert bs[..|bs|] == bs && bs[|bs|..] == [];
    assert DecodeString(bs[|bs|..]) == Some([]);
    assert [c] + [] == [c];
  }

  /** The UTF-8 encoding of a string: its scalar values' encodings in order. */
  function EncodeString(s: string): (r: seq<byte>)
    ensures |r| >= |s|
  {
    if s == [] then [] else EncodeScalar(s[0]) + EncodeString(s[1..])
  }

  /** Decodes a whole byte string, or None when it is not well-formed UTF-8. */
  function DecodeString(bs: seq<byte>): (r: Option<string>)
    ensures r.Some? ==> |r.value| <= |bs|
    decreases |bs|
  {
    if bs == [] then Some([])
    else
      var n := LeadLength(bs[0]);
      if n == 0 || |bs| < n then None
      else
        match DecodeScalar(bs[..n])
        case None => None
        case Some(c) =>
          match DecodeString(bs[n..])
          case None => None
          case Some(t) => Some([c] + t)
  }

  /** Whatever the decoder accepts re-encodes to exactly its input. */
  lemma {:induction false} DecodeStringSound(bs: seq<byte>)
    requires DecodeString(bs).Some?
    ensures EncodeString(DecodeString(bs).value) == bs
    decreases |bs|
  {
    if bs != [] {
      var n := LeadLength(bs[0]);
      var c := DecodeScalar(bs[..n]).value;
      DecodeScalarSound(bs[..n]);
      DecodeStringSound(bs[n..]);
      var t := DecodeString(bs[n..]).value;
      assert DecodeString(bs) == Some([c] + t);
      assert ([c] + t)[0] == c && ([c] + t)[1..] == t;
      assert bs == bs[..n] + bs[n..];
    }
  }

  /** Encoding distributes over concatenation. */
  lemma {:induction false} EncodeStringAppend(a: string, b: string)
    ensures EncodeString(a + b) == EncodeString(a) + EncodeString(b)
  {
    if a == [] {
      assert a + b == b;
    } else {
      assert (a + b)[0] == a[0] && (a + b)[1..] == a[1..] + b;
      EncodeStringAppend(a[1..], b);
    }
  }

  /** A well-formed scalar sequence in front of well-formed bytes decodes to one more character. */
  lemma DecodeStringPrepend(x: seq<byte>, y: seq<byte>)
    requires DecodeScalar(x).Some? && DecodeString(y).Some?
    ensures DecodeString(x + y) == Some([DecodeScalar(x).value] + DecodeString(y).value)
  {
    var n := |x|;
    assert (x + y)[0] == x[0];
    assert (x + y)[..n] == x && (x + y)[n..] == y;
  }

  /** Every string decodes back from its encoding. */
  lemma {:induction false} StringRoundTrip(s: string)
    ensures DecodeString(EncodeString(s)) == Some(s)
  {
    if s != [] {
      ScalarRoundTrip(s[0]);
      StringRoundTrip(s[1..]);
      DecodeStringPrepend(EncodeScalar(s[0]), EncodeString(s[1..]));
      assert [s[0]] + s[1..] == s;
    }
  }

  /** Decoding the concatenation of two well-formed byte strings decodes each part. */
  lemma DecodeStringAppend(a: seq<byte>, b: seq<byte>)
    requires DecodeString(a).Some? && DecodeString(b).Some?
    ensures DecodeString(a + b) == Some(DecodeString(a).value + DecodeString(b).value)
  {
    var t, u := DecodeString(a).value, DecodeString(b).value;
    DecodeStringSound(a);
    DecodeStringSound(b);
    EncodeStringAppend(t, u);
    StringRoundTrip(t + u);
  }

  /** Two strings with the same encoding are the same string. */
  lemma EncodeStringInjective(s: string, t: string)
    requires EncodeString(s) == EncodeString(t)
    ensures s == t
  {
    StringRoundTrip(s);
    StringRoundTrip(t);
  }

  /** ASCII text encodes byte for byte. */
  lemma {:induction false} AsciiEncodeString(s: string)
    requires forall j | 0 <= j < |s| :: s[j] as int < 0x80
    ensures |EncodeString(s)| == |s|
    ensures forall j | 0 <= j < |s| :: EncodeString(s)[j] == s[j] as int
  {
    if s != [] {
      AsciiEncodeString(s[1..]);
    }
  }

  /** A byte string of ASCII bytes is well-formed UTF-8. */
  lemma {:induction false} AsciiDecodes(bs: seq<byte>)
    requires forall j | 0 <= j < |bs| :: bs[j] < 0x80
    ensures DecodeString(bs).Some?
  {
    if bs != [] {
      AsciiDecodes(bs[1..]);
      assert DecodeScalar(bs[..1]) == Some(bs[0] as char);
    }
  }
}
