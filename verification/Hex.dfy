/** Contract bytecode as it stands in a build artefact. */
module Hex {
  import opened Common

  datatype Bytecode = Decoded(bytes: seq<byte>) | Rejected | Panicked

  /** The value of an ASCII hexadecimal digit in either case. */
  function DigitValue(c: byte): Option<nat> {
    if 48 <= c <= 57 then Some(c as nat - 48)
    else if 65 <= c <= 70 then Some(c as nat - 55)
    else if 97 <= c <= 102 then Some(c as nat - 87)
    else None
  }

  function DecodeDigits(body: seq<byte>): Option<seq<byte>>
    requires |body| % 2 == 0
  {
    if body == [] then Some([])
    else
      match (DigitValue(body[0]), DigitValue(body[1]), DecodeDigits(body[2..]))
      case (Some(high), Some(low), Some(rest)) => Some([(16 * high + low) as byte] + rest)
      case _ => None
  }

  /** Drops the first two bytes of the text, whatever they are, and decodes the rest. Cutting panics
      on a shorter text and inside a character that takes several bytes. */
  function DeserializeBytecode(text: seq<byte>): Bytecode {
    if |text| < 2 || (|text| > 2 && 0x80 <= text[2] < 0xC0) then Panicked
    else
      var body := text[2..];
      if |body| % 2 == 1 then Rejected
      else match DecodeDigits(body)
        case Some(bytes) => Decoded(bytes)
        case None => Rejected
  }

  // ----- Base 16, section 8 of RFC 4648 -----

  function Digit(value: nat): byte
    requires value < 16
  {
    if value < 10 then (48 + value) as byte else (55 + value) as byte
  }

  function Encode(bytes: seq<byte>): (text: seq<byte>)
    ensures |text| == 2 * |bytes|
  {
    if bytes == [] then []
    else [Digit(bytes[0] as nat / 16), Digit(bytes[0] as nat % 16)] + Encode(bytes[1..])
  }

  function UpperCase(c: byte): byte { if 97 <= c <= 122 then c - 32 else c }

  /** `text` is `other` with letters in upper case. */
  ghost predicate IsUpperCaseOf(text: seq<byte>, other: seq<byte>) {
    |text| == |other| && forall i :: 0 <= i < |text| ==> text[i] == UpperCase(other[i])
  }

  lemma DigitMeaning(c: byte, value: nat)
    requires value < 16
    ensures DigitValue(c) == Some(value) <==> UpperCase(c) == Digit(value)
    ensures DigitValue(c).Some? ==> DigitValue(c).value < 16
  {
  }

  lemma SplitByte(high: Option<nat>, low: Option<nat>, b: nat)
    ensures high.Some? && low.Some? && high.value < 16 && low.value < 16 ==>
            (16 * high.value + low.value == b <==> high.value == b / 16 && low.value == b % 16)
  {
  }

  lemma {:induction false} DecodeDigitsMeaning(body: seq<byte>, bytes: seq<byte>)
    requires |body| % 2 == 0
    ensures DecodeDigits(body) == Some(bytes) <==> IsUpperCaseOf(Encode(bytes), body)
  {
    if body != [] && bytes != [] {
      var text, high, low := Encode(bytes), bytes[0] as nat / 16, bytes[0] as nat % 16;
      DecodeDigitsMeaning(body[2..], bytes[1..]);
      DigitMeaning(body[0], high);
      DigitMeaning(body[1], low);
      assert text[2..] == Encode(bytes[1..]);
      assert bytes == [bytes[0]] + bytes[1..];
      SplitByte(DigitValue(body[0]), DigitValue(body[1]), bytes[0] as nat);
      assert IsUpperCaseOf(text, body) <==>
             text[0] == UpperCase(body[0]) && text[1] == UpperCase(body[1]) && IsUpperCaseOf(text[2..], body[2..]);
    }
  }

  /** Cutting off the first two bytes panics exactly on a shorter text and inside a character. */
  lemma PanickedMeaning(text: seq<byte>)
    ensures DeserializeBytecode(text) == Panicked <==>
            |text| < 2 || (|text| > 2 && 0x80 <= text[2] < 0xC0)
  {
  }

  /** A test vector of section 10 of RFC 4648: the bytes of "foobar". */
  lemma TestVector()
    ensures Encode([102, 111, 111, 98, 97, 114]) == [54, 54, 54, 70, 54, 70, 54, 50, 54, 49, 55, 50]
  {
    var b: seq<byte> := [102, 111, 111, 98, 97, 114];
    assert b[1..] == [111, 111, 98, 97, 114] && b[1..][1..] == [111, 98, 97, 114];
    assert b[1..][1..][1..] == [98, 97, 114] && b[1..][1..][1..][1..] == [97, 114];
    assert b[1..][1..][1..][1..][1..] == [114];
    assert Encode([97, 114]) == [54, 49, 55, 50];
    assert Encode([111, 98, 97, 114]) == [54, 70, 54, 50, 54, 49, 55, 50];
  }

  lemma {:induction false} DecodesIffDigits(body: seq<byte>)
    requires |body| % 2 == 0
    ensures DecodeDigits(body).Some? <==> forall i :: 0 <= i < |body| ==> DigitValue(body[i]).Some?
  {
    if body == [] {
    } else {
      DecodesIffDigits(body[2..]);
      assert forall i :: 2 <= i < |body| ==> body[i] == body[2..][i - 2];
      assert forall i :: 0 <= i < |body[2..]| ==> body[2..][i] == body[i + 2];
    }
  }

  /** A text that can be cut is rejected exactly when the rest has an odd length or some byte in it is
      not a hexadecimal digit. */
  lemma RejectedMeaning(text: seq<byte>)
    requires DeserializeBytecode(text) != Panicked
    ensures DeserializeBytecode(text) == Rejected <==>
            |text| % 2 == 1 || exists i :: 2 <= i < |text| && DigitValue(text[i]).None?
  {
    var body := text[2..];
    if |body| % 2 == 0 {
      DecodesIffDigits(body);
      assert forall i :: 2 <= i < |text| ==> text[i] == body[i - 2];
      assert forall i :: 0 <= i < |body| ==> body[i] == text[i + 2];
    }
  }

  /** A text decodes to `bytes` exactly when what follows its first two bytes is their base-16 form
      in any mixture of cases. */
  lemma BytecodeMeaning(text: seq<byte>, bytes: seq<byte>)
    ensures DeserializeBytecode(text) == Decoded(bytes) <==>
            |text| >= 2 && IsUpperCaseOf(Encode(bytes), text[2..])
  {
    if |text| >= 2 {
      var body := text[2..];
      if |body| % 2 == 0 {
        DecodeDigitsMeaning(body, bytes);
        if IsUpperCaseOf(Encode(bytes), body) && body != [] {
          DigitMeaning(body[0], bytes[0] as nat / 16);
        }
      }
    }
  }
}
