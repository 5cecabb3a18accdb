/**
  The growable string builder of `src/lib.rs`: an append-only byte buffer
  fed with text, characters, single bytes and byte slices, and finalized
  by validating its contents as UTF-8.
*/
module StringBuilder {
  import opened Results
  import opened Utf8

  /** The buffer: every byte appended so far, in append order. */
  datatype Builder = Builder(bytes: seq<byte>)

  /**
    The values that implement `ToBytes` in `src/lib.rs`. `ToBytes` is a public
    trait, but an implementation elsewhere can only hand `append` the bytes its
    `to_bytes` returns, and `Bytes(data)` already stands for any such bytes.
  */
  datatype Value =
    | Str(text: string)         // `String` and `&str`
    | Byte(b: byte)             // `u8`
    | Char(c: char)             // `char`
    | Bytes(data: seq<byte>)    // `&[u8]`

  /** `Builder::default`: an empty buffer (the 1024 bytes of capacity it reserves are not modelled). */
  function Default(): (b: Builder)
    ensures Len(b) == 0
  {
    Builder([])
  }

  /**
    `Builder::new(size)`: an empty buffer, for any capacity the allocator can
    reserve. A capacity it cannot reserve panics or aborts in the source.
  */
  function New(size: nat): (b: Builder)
    ensures Len(b) == 0
    ensures b == Default()
  {
    Builder([])
  }

  /** `ToBytes::to_bytes`: the bytes a value contributes to the buffer. */
  function ToBytes(v: Value): (r: seq<byte>)
    ensures v.Str? ==> ValidUtf8(r) && |v.text| <= |r| <= MAX_UNICODE_WIDTH * |v.text|
    ensures v.Byte? ==> r == [v.b]
    ensures v.Char? ==> 1 <= |r| <= MAX_UNICODE_WIDTH && ValidUtf8(r)
    ensures v.Bytes? ==> r == v.data
  {
    match v
    case Str(text) =>
      EncodeStringValid(text);
      EncodeString(text)
    case Byte(b) =>
      [b]
    case Char(c) =>
      EncodeSingleChar(c);
      EncodeStringValid([c]);
      EncodeScalar(c as int)
    case Bytes(data) =>
      data
  }

  /** Strings and characters convert back to exactly themselves; raw bytes convert as they are. */
  lemma ToBytesRoundTrip(v: Value)
    ensures v.Str? ==> FromUtf8(ToBytes(v)) == Ok(v.text)
    ensures v.Char? ==> FromUtf8(ToBytes(v)) == Ok([v.c])
    ensures v.Byte? && v.b <= 0x7F ==> FromUtf8(ToBytes(v)) == Ok([v.b as char])
    ensures v.Byte? && v.b > 0x7F ==> FromUtf8(ToBytes(v)) == Err(Utf8Error(0))
    ensures v.Bytes? ==> FromUtf8(ToBytes(v)) == FromUtf8(v.data)
  {
    match v
    case Str(text) =>
      FromUtf8Encoded(text);
    case Char(c) =>
      EncodeSingleChar(c);
      FromUtf8Encoded([c]);
    case Byte(b) =>
      EncodeSingleChar(b as char);
      if b <= 0x7F {
        FromUtf8Encoded([b as char]);
      }
    case Bytes(_) =>
  }

  /** `Builder::append`: the old bytes followed by exactly the value's bytes. */
  function Append(b: Builder, v: Value): (r: Builder)
    ensures Len(r) == Len(b) + |ToBytes(v)|
    ensures r.bytes[..Len(b)] == b.bytes
    ensures r.bytes[Len(b)..] == ToBytes(v)
  {
    Builder(b.bytes + ToBytes(v))
  }

  /** `Builder::len`: the number of bytes in the buffer, not of characters. */
  function Len(b: Builder): nat {
    |b.bytes|
  }

  /**
    `Builder::string`: the buffered bytes as text when they are well-formed
    UTF-8, with no byte dropped or replaced; otherwise an error locating the
    first byte that is not.
  */
  function Finalize(b: Builder): (r: Result<string, Utf8Error>)
    ensures r.Ok? <==> ValidUtf8(b.bytes)
    ensures r.Ok? ==> EncodeString(r.value) == b.bytes
    ensures r.Err? ==> r.error.validUpTo < Len(b) && ValidUtf8(b.bytes[..r.error.validUpTo])
    ensures r.Err? ==> forall j :: r.error.validUpTo < j <= Len(b) ==> !ValidUtf8(b.bytes[..j])
  {
    FromUtf8(b.bytes)
  }

  /** `make_copyable_buf(len)`: a buffer of `len` zero bytes. */
  method MakeCopyableBuf(len: nat) returns (buf: seq<byte>)
    ensures |buf| == len
    ensures forall i :: 0 <= i < len ==> buf[i] == 0
  {
    buf := [];
    while |buf| < len
      invariant |buf| <= len
      invariant forall i :: 0 <= i < |buf| ==> buf[i] == 0
    {
      buf := buf + [0];
    }
  }

  /** `slice_to_vec(s)`: a zero buffer of the same length, overwritten with `s` byte by byte. */
  method SliceToVec(s: seq<byte>) returns (res: seq<byte>)
    ensures res == s
  {
    res := MakeCopyableBuf(|s|);
    var i := 0;
    while i < |s|
      invariant i <= |s| == |res|
      invariant res[..i] == s[..i]
    {
      res := res[i := s[i]];
      i := i + 1;
    }
    assert res == res[..i];
  }

  /** The `ToBytes` implementations as written: copies through `slice_to_vec`, a `char` encoded into a four-byte scratch buffer first. */
  method ToBytesVec(v: Value) returns (r: seq<byte>)
    ensures r == ToBytes(v)
  {
    match v
    case Str(text) =>
      r := SliceToVec(EncodeString(text));
    case Byte(b) =>
      r := [b];
    case Char(c) =>
      var buf := MakeCopyableBuf(MAX_UNICODE_WIDTH);
      var encoded := EncodeScalar(c as int);
      buf := encoded + buf[|encoded|..];
      r := SliceToVec(buf[..|encoded|]);
    case Bytes(data) =>
      r := SliceToVec(data);
  }

  /** The builder after appending each value of `vs` in turn. */
  function AppendAll(b: Builder, vs: seq<Value>): Builder
    decreases |vs|
  {
    if |vs| == 0 then b else AppendAll(Append(b, vs[0]), vs[1..])
  }

  /** The bytes of each value of `vs`, concatenated in order. */
  function ConcatBytes(vs: seq<Value>): seq<byte>
    decreases |vs|
  {
    if |vs| == 0 then [] else ToBytes(vs[0]) + ConcatBytes(vs[1..])
  }

  /** The sum of the byte lengths of the values of `vs`. */
  function TotalLen(vs: seq<Value>): nat
    decreases |vs|
  {
    if |vs| == 0 then 0 else |ToBytes(vs[0])| + TotalLen(vs[1..])
  }

  /** Appending keeps every earlier byte and adds the values' bytes at the end, in call order. */
  lemma {:induction false} AppendAllBytes(b: Builder, vs: seq<Value>)
    ensures AppendAll(b, vs).bytes == b.bytes + ConcatBytes(vs)
    decreases |vs|
  {
    if |vs| != 0 {
      var head, b' := ToBytes(vs[0]), Append(b, vs[0]);
      assert b'.bytes == b.bytes + head;
      AppendAllBytes(b', vs[1..]);
      assert ConcatBytes(vs) == head + ConcatBytes(vs[1..]);
      assert (b.bytes + head) + ConcatBytes(vs[1..]) == b.bytes + (head + ConcatBytes(vs[1..]));
    } else {
      assert b.bytes + [] == b.bytes;
    }
  }

  /** The byte length of the values' bytes is the sum of their lengths. */
  lemma {:induction false} ConcatBytesLength(vs: seq<Value>)
    ensures |ConcatBytes(vs)| == TotalLen(vs)
    decreases |vs|
  {
    if |vs| != 0 {
      ConcatBytesLength(vs[1..]);
    }
  }

  /** After any appends, the length grew by the sum of the appended values' byte lengths. */
  lemma LenAfterAppends(b: Builder, vs: seq<Value>)
    ensures Len(AppendAll(b, vs)) == Len(b) + TotalLen(vs)
    ensures AppendAll(b, vs).bytes[..Len(b)] == b.bytes
  {
    AppendAllBytes(b, vs);
    ConcatBytesLength(vs);
  }

  /** The construction capacity never shows: same appends, same bytes, same length, same finalized result. */
  lemma CapacityIndependent(size: nat, size': nat, vs: seq<Value>)
    ensures AppendAll(New(size), vs) == AppendAll(New(size'), vs) == AppendAll(Default(), vs)
    ensures Len(AppendAll(New(size), vs)) == TotalLen(vs)
    ensures Finalize(AppendAll(New(size), vs)) == Finalize(AppendAll(New(size'), vs))
  {
    LenAfterAppends(New(size), vs);
  }

  /** A value whose bytes are, on their own, well-formed UTF-8. */
  predicate IsTextual(v: Value) {
    ValidUtf8(ToBytes(v))
  }

  /** The text a value's bytes stand for. */
  function TextOf(v: Value): (t: string)
    requires IsTextual(v)
    ensures EncodeString(t) == ToBytes(v)
    ensures v.Str? ==> t == v.text
    ensures v.Char? ==> t == [v.c]
    ensures v.Byte? ==> v.b <= 0x7F && t == [v.b as char]
  {
    match v
    case Str(text) => text
    case Char(c) => [c]
    case Byte(b) =>
      EncodeSingleChar(b as char);
      [b as char]
    case Bytes(data) => DecodeString(data)
  }

  /** The text a sequence of textual values stands for, in call order. */
  function Text(vs: seq<Value>): string
    requires forall i :: 0 <= i < |vs| ==> IsTextual(vs[i])
    decreases |vs|
  {
    if |vs| == 0 then [] else TextOf(vs[0]) + Text(vs[1..])
  }

  /** The bytes of textual values are the encoding of their text. */
  lemma {:induction false} ConcatBytesOfText(vs: seq<Value>)
    requires forall i :: 0 <= i < |vs| ==> IsTextual(vs[i])
    ensures ConcatBytes(vs) == EncodeString(Text(vs))
    decreases |vs|
  {
    if |vs| != 0 {
      ConcatBytesOfText(vs[1..]);
      EncodeStringConcat(TextOf(vs[0]), Text(vs[1..]));
    }
  }

  /** A builder fed only values whose bytes are valid finalizes, to their texts concatenated in call order. */
  lemma TextualFinalizes(size: nat, vs: seq<Value>)
    requires forall i :: 0 <= i < |vs| ==> IsTextual(vs[i])
    ensures Finalize(AppendAll(New(size), vs)) == Ok(Text(vs))
  {
    AppendAllBytes(New(size), vs);
    ConcatBytesOfText(vs);
    assert AppendAll(New(size), vs).bytes == EncodeString(Text(vs));
    FromUtf8Encoded(Text(vs));
  }

  /** Appending a textual value to a builder holding the encoding of `t` gives the encoding of `t` followed by the value's text. */
  lemma AppendEncoded(b: Builder, v: Value, t: string)
    requires b.bytes == EncodeString(t)
    requires IsTextual(v)
    ensures Append(b, v).bytes == EncodeString(t + TextOf(v))
  {
    EncodeStringConcat(t, TextOf(v));
  }

  /** Appending a textual value to a builder that finalizes to `t` gives one that finalizes to `t` followed by the value's text. */
  lemma FinalizeAppend(b: Builder, v: Value, t: string)
    requires Finalize(b) == Ok(t)
    requires IsTextual(v)
    ensures Finalize(Append(b, v)) == Ok(t + TextOf(v))
  {
    AppendEncoded(b, v, t);
    FromUtf8Encoded(t + TextOf(v));
  }

  /** Strings and characters are always textual: a builder fed only them always finalizes successfully. */
  lemma TextOnlyFinalizes(size: nat, vs: seq<Value>)
    requires forall i :: 0 <= i < |vs| ==> vs[i].Str? || vs[i].Char?
    ensures forall i :: 0 <= i < |vs| ==> IsTextual(vs[i])
    ensures Finalize(AppendAll(New(size), vs)).Ok?
  {
    TextualFinalizes(size, vs);
  }
}
