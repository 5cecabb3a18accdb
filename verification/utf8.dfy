/**
  UTF-8 as defined by RFC 3629: the encoding of one Unicode scalar value
  (section 3), the well-formedness of a byte sequence (section 4), decoding,
  and the validating conversion from bytes to text that finalizing a
  builder relies on.

  Dafny's `char` is exactly a Unicode scalar value, so text is `string`.
*/
module Utf8 {
  import opened Results

  /** An octet. */
  type byte = b: int | 0 <= b < 0x100

  /** The longest UTF-8 encoding of one scalar value, in bytes. */
  const MAX_UNICODE_WIDTH: nat := 4

  /** A Unicode scalar value: a code point that is not a surrogate. */
  predicate IsScalarValue(cp: int) {
    0 <= cp <= 0x10FFFF && !(0xD800 <= cp <= 0xDFFF)
  }

  /** The rule UTF8-tail of section 4 of RFC 3629. */
  predicate IsTail(b: byte) {
    0x80 <= b <= 0xBF
  }

  /** The rule UTF8-char of section 4 of RFC 3629: `c` is exactly one well-formed character. */
  predicate WellFormedChar(c: seq<byte>) {
    if |c| == 1 then
      c[0] <= 0x7F
    else if |c| == 2 then
      0xC2 <= c[0] <= 0xDF && IsTail(c[1])
    else if |c| == 3 then
      && (|| (c[0] == 0xE0 && 0xA0 <= c[1] <= 0xBF)
          || (0xE1 <= c[0] <= 0xEC && IsTail(c[1]))
          || (c[0] == 0xED && 0x80 <= c[1] <= 0x9F)
          || (0xEE <= c[0] <= 0xEF && IsTail(c[1])))
      && IsTail(c[2])
    else if |c| == 4 then
      && (|| (c[0] == 0xF0 && 0x90 <= c[1] <= 0xBF)
          || (0xF1 <= c[0] <= 0xF3 && IsTail(c[1]))
          || (c[0] == 0xF4 && 0x80 <= c[1] <= 0x8F))
      && IsTail(c[2])
      && IsTail(c[3])
    else
      false
  }

  /** The width of the character a lead byte announces; 0 for a byte that cannot begin one. */
  function LeadWidth(b: byte): nat {
    if b <= 0x7F then 1
    else if 0xC2 <= b <= 0xDF then 2
    else if 0xE0 <= b <= 0xEF then 3
    else if 0xF0 <= b <= 0xF4 then 4
    else 0
  }

  /**
    The rule UTF8-octets of section 4 of RFC 3629: `s` is a sequence of
    well-formed characters. The grammar is unambiguous, since the first
    byte of a character fixes its width (`WellFormedWidth`), so the split
    is taken at that width; `ValidUtf8Cons` states that any split into a
    well-formed character and valid text is accepted.
  */
  predicate ValidUtf8(s: seq<byte>)
    decreases |s|
  {
    || |s| == 0
    || (var w := LeadWidth(s[0]); 1 <= w <= |s| && WellFormedChar(s[..w]) && ValidUtf8(s[w..]))
  }

  /** The encoding of one scalar value, following the table of section 3 of RFC 3629. */
  function EncodeScalar(cp: int): (r: seq<byte>)
    requires IsScalarValue(cp)
    ensures 1 <= |r| <= MAX_UNICODE_WIDTH
    ensures cp <= 0x7F ==> |r| == 1
    ensures 0x80 <= cp <= 0x7FF ==> |r| == 2
    ensures 0x800 <= cp <= 0xFFFF ==> |r| == 3
    ensures 0x10000 <= cp ==> |r| == 4
    ensures WellFormedChar(r)
  {
    // Successive six-bit groups of cp, lowest first.
    var d, t := cp % 0x40, cp / 0x40;
    var c, t' := t % 0x40, t / 0x40;
    var b, a := t' % 0x40, t' / 0x40;
    if cp <= 0x7F then
      [cp]
    else if cp <= 0x7FF then
      [0xC0 + t, 0x80 + d]
    else if cp <= 0xFFFF then
      [0xE0 + t', 0x80 + c, 0x80 + d]
    else
      [0xF0 + a, 0x80 + b, 0x80 + c, 0x80 + d]
  }

  /** The scalar value a well-formed character stands for. */
  function DecodeChar(c: seq<byte>): (cp: int)
    requires WellFormedChar(c)
    ensures IsScalarValue(cp)
    ensures |c| == 1 <==> cp <= 0x7F
    ensures |c| == 2 <==> 0x80 <= cp <= 0x7FF
    ensures |c| == 3 <==> 0x800 <= cp <= 0xFFFF
    ensures |c| == 4 <==> 0x10000 <= cp
  {
    var b0 := c[0] as int;
    if |c| == 1 then
      b0
    else if |c| == 2 then
      (b0 - 0xC0) * 0x40 + (c[1] as int - 0x80)
    else if |c| == 3 then
      ((b0 - 0xE0) * 0x40 + (c[1] as int - 0x80)) * 0x40 + (c[2] as int - 0x80)
    else
      (((b0 - 0xF0) * 0x40 + (c[1] as int - 0x80)) * 0x40 + (c[2] as int - 0x80)) * 0x40 + (c[3] as int - 0x80)
  }

  /** Decoding undoes encoding. */
  lemma DecodeEncodeScalar(cp: int)
    requires IsScalarValue(cp)
    ensures DecodeChar(EncodeScalar(cp)) == cp
  {
  }

  /** Encoding undoes decoding: every well-formed character is the encoding of its scalar value. */
  lemma EncodeDecodeChar(c: seq<byte>)
    requires WellFormedChar(c)
    ensures EncodeScalar(DecodeChar(c)) == c
  {
    if |c| == 2 {
      EncodeDecodeTwo(c);
    } else if |c| == 3 {
      EncodeDecodeThree(c);
    } else if |c| == 4 {
      EncodeDecodeFour(c);
    }
  }

  lemma EncodeDecodeTwo(c: seq<byte>)
    requires WellFormedChar(c) && |c| == 2
    ensures EncodeScalar(DecodeChar(c)) == c
  {
    var cp := DecodeChar(c);
    SixBits(c[0] as int - 0xC0, c[1] as int - 0x80);
    var r := EncodeScalar(cp);
    assert r[0] == c[0] && r[1] == c[1];
  }

  lemma EncodeDecodeThree(c: seq<byte>)
    requires WellFormedChar(c) && |c| == 3
    ensures EncodeScalar(DecodeChar(c)) == c
  {
    var cp := DecodeChar(c);
    var t := (c[0] as int - 0xE0) * 0x40 + (c[1] as int - 0x80);
    SixBits(t, c[2] as int - 0x80);
    SixBits(c[0] as int - 0xE0, c[1] as int - 0x80);
    assert cp / 0x40 == t && cp % 0x40 == c[2] as int - 0x80;
    var r := EncodeScalar(cp);
    assert r[0] == c[0] && r[1] == c[1] && r[2] == c[2];
  }

  lemma EncodeDecodeFour(c: seq<byte>)
    requires WellFormedChar(c) && |c| == 4
    ensures EncodeScalar(DecodeChar(c)) == c
  {
    var cp := DecodeChar(c);
    var t' := (c[0] as int - 0xF0) * 0x40 + (c[1] as int - 0x80);
    var t := t' * 0x40 + (c[2] as int - 0x80);
    SixBits(t, c[3] as int - 0x80);
    SixBits(t', c[2] as int - 0x80);
    SixBits(c[0] as int - 0xF0, c[1] as int - 0x80);
    assert cp / 0x40 == t && cp % 0x40 == c[3] as int - 0x80;
    var r := EncodeScalar(cp);
    assert r[0] == c[0] && r[1] == c[1] && r[2] == c[2] && r[3] == c[3];
  }

  /** Splitting off the low six bits of a number that was built from them. */
  lemma SixBits(high: int, low: int)
    requires 0 <= low < 0x40
    ensures (high * 0x40 + low) / 0x40 == high
    ensures (high * 0x40 + low) % 0x40 == low
  {
  }

  /** The first byte of a well-formed character fixes its width, so no character is a prefix of another. */
  lemma WellFormedWidth(c: seq<byte>)
    requires WellFormedChar(c)
    ensures |c| == LeadWidth(c[0])
  {
  }

  /** `s` begins with a well-formed character. */
  predicate StartsWithChar(s: seq<byte>) {
    && |s| > 0
    && 1 <= LeadWidth(s[0]) <= |s|
    && WellFormedChar(s[..LeadWidth(s[0])])
  }

  /** A single well-formed character is valid text. */
  lemma ValidUtf8Char(c: seq<byte>)
    requires WellFormedChar(c)
    ensures ValidUtf8(c)
  {
    WellFormedWidth(c);
    assert c[..|c|] == c && c[|c|..] == [];
  }

  /** A well-formed character followed by valid text is valid text. */
  lemma ValidUtf8Cons(c: seq<byte>, t: seq<byte>)
    requires WellFormedChar(c) && ValidUtf8(t)
    ensures ValidUtf8(c + t)
  {
    WellFormedWidth(c);
    assert (c + t)[0] == c[0];
    assert (c + t)[..|c|] == c;
    assert (c + t)[|c|..] == t;
  }

  /** Valid sequences stay valid under concatenation. */
  lemma {:induction false} ValidConcat(a: seq<byte>, b: seq<byte>)
    requires ValidUtf8(a) && ValidUtf8(b)
    ensures ValidUtf8(a + b)
    decreases |a|
  {
    if |a| == 0 {
      assert a + b == b;
    } else {
      var w := LeadWidth(a[0]);
      ValidConcat(a[w..], b);
      var ab := a + b;
      assert ab[0] == a[0] && ab[..w] == a[..w] && ab[w..] == a[w..] + b;
    }
  }

  /** What follows a valid prefix of a valid sequence is itself valid. */
  lemma {:induction false} ValidSuffix(a: seq<byte>, b: seq<byte>)
    requires ValidUtf8(a) && ValidUtf8(a + b)
    ensures ValidUtf8(b)
    decreases |a|
  {
    if |a| == 0 {
      assert a + b == b;
    } else {
      var w, ab := LeadWidth(a[0]), a + b;
      assert w <= |a| && ab[0] == a[0];
      assert ab[w..] == a[w..] + b;
      ValidSuffix(a[w..], b);
    }
  }

  /** The UTF-8 bytes of a text: the encodings of its characters, in order. */
  function EncodeString(t: string): (r: seq<byte>)
    ensures |t| <= |r| <= MAX_UNICODE_WIDTH * |t|
  {
    if |t| == 0 then [] else EncodeScalar(t[0] as int) + EncodeString(t[1..])
  }

  /** The encoding of any text is well-formed UTF-8. */
  lemma {:induction false} EncodeStringValid(t: string)
    ensures ValidUtf8(EncodeString(t))
    decreases |t|
  {
    if |t| != 0 {
      EncodeStringValid(t[1..]);
      ValidUtf8Cons(EncodeScalar(t[0] as int), EncodeString(t[1..]));
    }
  }

  /** A one-character text encodes to the encoding of that character. */
  lemma EncodeSingleChar(c: char)
    ensures EncodeString([c]) == EncodeScalar(c as int)
  {
    assert [c][1..] == [];
  }

  /** A text encodes as its first character's encoding followed by the rest's. */
  lemma EncodeStringCons(c: char, t: string)
    ensures EncodeString([c] + t) == EncodeScalar(c as int) + EncodeString(t)
  {
    var ct := [c] + t;
    assert ct[0] == c && ct[1..] == t;
  }

  /** Encoding distributes over concatenation of texts. */
  lemma {:induction false} EncodeStringConcat(t: string, u: string)
    ensures EncodeString(t + u) == EncodeString(t) + EncodeString(u)
    decreases |t|
  {
    if |t| == 0 {
      assert t + u == u;
    } else {
      assert (t + u)[0] == t[0];
      assert (t + u)[1..] == t[1..] + u;
      EncodeStringConcat(t[1..], u);
    }
  }

  /** The text a valid byte sequence stands for. */
  function DecodeString(s: seq<byte>): (t: string)
    requires ValidUtf8(s)
    ensures EncodeString(t) == s
    ensures |t| <= |s|
    decreases |s|
  {
    if |s| == 0 then
      []
    else
      var w := LeadWidth(s[0]);
      EncodeDecodeChar(s[..w]);
      var head, tail := DecodeChar(s[..w]) as char, DecodeString(s[w..]);
      EncodeStringCons(head, tail);
      assert s == s[..w] + s[w..];
      [head] + tail
  }

  /** Decoding the encoding of a text gives the text back. */
  lemma {:induction false} DecodeEncodeString(t: string)
    ensures ValidUtf8(EncodeString(t)) && DecodeString(EncodeString(t)) == t
    decreases |t|
  {
    EncodeStringValid(t);
    if |t| != 0 {
      var s := EncodeString(t);
      var head := EncodeScalar(t[0] as int);
      WellFormedWidth(head);
      var w := |head|;
      assert s[0] == head[0];
      assert s[..w] == head;
      assert s[w..] == EncodeString(t[1..]);
      DecodeEncodeScalar(t[0] as int);
      DecodeEncodeString(t[1..]);
      assert t == [t[0]] + t[1..];
    }
  }

  /** Different texts have different encodings. */
  lemma EncodeStringInjective(t: string, u: string)
    requires EncodeString(t) == EncodeString(u)
    ensures t == u
  {
    DecodeEncodeString(t);
    DecodeEncodeString(u);
  }

  /** Extending a valid prefix by the well-formed character that follows it. */
  lemma ValidExtend(s: seq<byte>, i: nat)
    requires i < |s| && ValidUtf8(s[..i]) && StartsWithChar(s[i..])
    ensures i + LeadWidth(s[i]) <= |s|
    ensures ValidUtf8(s[..i + LeadWidth(s[i])])
  {
    var w := LeadWidth(s[i]);
    var c := s[i..i + w];
    assert c == s[i..][..w];
    ValidUtf8Char(c);
    ValidConcat(s[..i], c);
    assert s[..i] + c == s[..i + w];
  }

  /**
    The index at which decoding `s` from position `i` stops: the end of `s`,
    or the first position that does not begin a well-formed character.
  */
  function ScanValid(s: seq<byte>, i: nat): (n: nat)
    requires i <= |s| && ValidUtf8(s[..i])
    ensures i <= n <= |s|
    ensures ValidUtf8(s[..n])
    ensures n < |s| ==> !StartsWithChar(s[n..])
    decreases |s| - i
  {
    if i == |s| || !StartsWithChar(s[i..]) then
      i
    else
      ValidExtend(s, i);
      ScanValid(s, i + LeadWidth(s[i]))
  }

  /** A valid prefix cannot reach past a position that does not begin a character. */
  lemma ValidPrefixContinues(s: seq<byte>, n: nat, j: nat)
    requires n < j <= |s|
    requires ValidUtf8(s[..n]) && ValidUtf8(s[..j])
    ensures StartsWithChar(s[n..])
  {
    var t, rest := s[n..j], s[n..];
    assert s[..j] == s[..n] + t;
    ValidSuffix(s[..n], t);
    var w := LeadWidth(t[0]);
    assert t[0] == rest[0] && w <= |t| <= |rest|;
    assert t[..w] == rest[..w];
  }

  /** Why a byte sequence is not valid UTF-8: its longest valid prefix, as in Rust's `Utf8Error::valid_up_to`. */
  datatype Utf8Error = Utf8Error(validUpTo: nat)

  /**
    Rust's `String::from_utf8`: the text of `s` when `s` is well-formed,
    otherwise an error locating the first byte that is not.
  */
  function FromUtf8(s: seq<byte>): (r: Result<string, Utf8Error>)
    ensures r.Ok? <==> ValidUtf8(s)
    ensures r.Ok? ==> EncodeString(r.value) == s
    ensures r.Err? ==> r.error.validUpTo < |s| && ValidUtf8(s[..r.error.validUpTo])
    ensures r.Err? ==> forall j :: r.error.validUpTo < j <= |s| ==> !ValidUtf8(s[..j])
  {
    assert s[..0] == [];
    assert s[..|s|] == s;
    var n := ScanValid(s, 0);
    if n == |s| then
      Ok(DecodeString(s))
    else
      assert forall j :: n < j <= |s| ==> !ValidUtf8(s[..j]) by {
        forall j | n < j <= |s| ensures !ValidUtf8(s[..j]) {
          if ValidUtf8(s[..j]) {
            ValidPrefixContinues(s, n, j);
          }
        }
      }
      Err(Utf8Error(n))
  }

  /** The encoding of any text converts back to exactly that text. */
  lemma FromUtf8Encoded(t: string)
    ensures FromUtf8(EncodeString(t)) == Ok(t)
  {
    EncodeStringValid(t);
    EncodeStringInjective(FromUtf8(EncodeString(t)).value, t);
  }
}
