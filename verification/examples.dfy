/**
  The doc examples and unit tests of `src/lib.rs` as facts about the model,
  and a few further concrete witnesses (the empty builder, the bytes of the
  characters the tests use, a rejected continuation byte).
*/
module BuilderExamples {
  import opened Results
  import opened Utf8
  import opened StringBuilder

  /** Finalizing a builder nothing was appended to gives the empty text. */
  lemma EmptyFinalizes(size: nat)
    ensures Finalize(New(size)) == Ok("")
  {
    FromUtf8Encoded("");
  }

  /** The shape of the `Builder::string` doc example: a string, a character, a string. */
  lemma StrCharStr(a: string, c: char, b: string)
    ensures Finalize(Append(Append(Append(Default(), Str(a)), Char(c)), Str(b))) == Ok(a + [c] + b)
  {
    var b0 := Default();
    EmptyFinalizes(0);
    var b1 := Append(b0, Str(a));
    FinalizeAppend(b0, Str(a), "");
    assert [] + a == a;
    var b2 := Append(b1, Char(c));
    FinalizeAppend(b1, Char(c), a);
    FinalizeAppend(b2, Str(b), a + [c]);
  }

  /** The shape of `test_individual_unicode_characters`: a character, a string, a character. */
  lemma CharStrChar(c: char, a: string, d: char)
    ensures Finalize(Append(Append(Append(Default(), Char(c)), Str(a)), Char(d))) == Ok([c] + a + [d])
  {
    var b0 := Default();
    EmptyFinalizes(0);
    var b1 := Append(b0, Char(c));
    FinalizeAppend(b0, Char(c), "");
    assert [] + [c] == [c];
    var b2 := Append(b1, Str(a));
    FinalizeAppend(b1, Str(a), [c]);
    FinalizeAppend(b2, Char(d), [c] + a);
  }

  /** The shape of `test_tool_album`: a character, then a string. */
  lemma CharStr(c: char, a: string)
    ensures Finalize(Append(Append(Default(), Char(c)), Str(a))) == Ok([c] + a)
  {
    var b0 := Default();
    EmptyFinalizes(0);
    var b1 := Append(b0, Char(c));
    FinalizeAppend(b0, Char(c), "");
    assert [] + [c] == [c];
    FinalizeAppend(b1, Str(a), [c]);
  }

  /** The bytes of the `test_all_supported_types` shape are the encoding of the concatenated text. */
  lemma AllKindsBytes(a: string, c: char, x: byte, b: string, d: string)
    requires x <= 0x7F
    ensures Append(Append(Append(Append(Append(Default(),
              Str(a)), Char(c)), Byte(x)), Str(b)), Bytes(EncodeString(d))).bytes
            == EncodeString(a + [c] + [x as char] + b + d)
  {
    var b0 := Default();
    assert b0.bytes == EncodeString([]);
    var b1 := Append(b0, Str(a));
    AppendEncoded(b0, Str(a), []);
    assert [] + a == a;
    var b2 := Append(b1, Char(c));
    AppendEncoded(b1, Char(c), a);
    var b3 := Append(b2, Byte(x));
    EncodeSingleChar(x as char);
    AppendEncoded(b2, Byte(x), a + [c]);
    var b4 := Append(b3, Str(b));
    AppendEncoded(b3, Str(b), a + [c] + [x as char]);
    DecodeEncodeString(d);
    AppendEncoded(b4, Bytes(EncodeString(d)), a + [c] + [x as char] + b);
  }

  /** The shape of `test_all_supported_types`: `String`, `char`, an ASCII `u8`, `&str`, and the bytes of a text. */
  lemma AllKinds(a: string, c: char, x: byte, b: string, d: string)
    requires x <= 0x7F
    ensures Finalize(Append(Append(Append(Append(Append(Default(),
              Str(a)), Char(c)), Byte(x)), Str(b)), Bytes(EncodeString(d))))
            == Ok(a + [c] + [x as char] + b + d)
  {
    AllKindsBytes(a, c, x, b, d);
    FromUtf8Encoded(a + [c] + [x as char] + b + d);
  }

  /** Appending `"four"` gives a length of 4. */
  lemma LenOfFour()
    ensures Len(Append(Default(), Str("four"))) == 4
  {
  }

  /** `"i am building"`, `' '`, `"a string"` finalize to their concatenation. */
  lemma BuildingAString()
    ensures Finalize(Append(Append(Append(Default(), Str("i am building")), Char(' ')), Str("a string")))
            == Ok("i am building a string")
  {
    assert "i am building" + [' '] + "a string" == "i am building a string";
    StrCharStr("i am building", ' ', "a string");
  }

  /** Every kind of value, in order: `String`, `char`, `u8`, `&str` and `&[u8]`. */
  lemma AllSupportedTypes()
    ensures Finalize(Append(Append(Append(Append(Append(Default(),
              Str("hello")), Char(',')), Byte(0x20)), Str("world")), Bytes(EncodeString(" it works"))))
            == Ok("hello, world it works")
  {
    assert "hello" + [','] + [0x20 as char] + "world" + " it works" == "hello, world it works";
    AllKinds("hello", ',', 0x20, "world", " it works");
  }

  /** Multi-byte characters around a string finalize to the concatenation, in order. */
  lemma IndividualUnicodeCharacters()
    ensures Finalize(Append(Append(Append(Default(),
              Char('\U{2018}')), Str("starts with and ends with")), Char('\U{2017}')))
            == Ok("\U{2018}starts with and ends with\U{2017}")
  {
    assert ['\U{2018}'] + "starts with and ends with" + ['\U{2017}'] == "\U{2018}starts with and ends with\U{2017}";
    CharStrChar('\U{2018}', "starts with and ends with", '\U{2017}');
  }

  /** U+2018 and U+2017 are three bytes each. */
  lemma ThreeByteCharacters()
    ensures ToBytes(Char('\U{2018}')) == [0xE2, 0x80, 0x98]
    ensures ToBytes(Char('\U{2017}')) == [0xE2, 0x80, 0x97]
  {
  }

  /** U+00C6 followed by `"nima"` finalizes to the text "Ænima". */
  lemma ToolAlbum()
    ensures Finalize(Append(Append(Default(), Char('\U{00C6}')), Str("nima"))) == Ok("\U{00C6}nima")
  {
    assert ['\U{00C6}'] + "nima" == "\U{00C6}nima";
    CharStr('\U{00C6}', "nima");
  }

  /** U+00C6 is two bytes. */
  lemma TwoByteCharacter()
    ensures ToBytes(Char('\U{00C6}')) == [0xC3, 0x86]
  {
  }

  /** A lone continuation byte is rejected at position 0, never dropped or replaced. */
  lemma LoneContinuationRejected()
    ensures Finalize(Append(Default(), Bytes([0x80]))) == Err(Utf8Error(0))
  {
    var b := Append(Default(), Bytes([0x80]));
    assert b.bytes == [0x80];
    assert !ValidUtf8(b.bytes);
  }
}
