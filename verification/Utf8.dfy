/** The UTF-8 writer of stdlib/json.ep, against the encoding of section 3 and the byte
    grammar of section 4 of RFC 3629. */
module Utf8 {

  function Byte(b: int): char
    requires 0 <= b < 256
  {
    b as char
  }

  type CodePoint = cp: int | 0 <= cp <= 0x10FFFF

  /** json_append_utf8: the bytes of a code point, by division instead of shifts. */
  function Encode(cp: CodePoint): string {
    if cp < 128 then [Byte(cp)]
    else if cp < 2048 then [Byte(192 + cp / 64), Byte(128 + cp % 64)]
    else if cp < 65536 then
      var r2 := cp % 4096;
      [Byte(224 + cp / 4096), Byte(128 + r2 / 64), Byte(128 + r2 % 64)]
    else
      var r3 := cp % 262144;
      [Byte(240 + cp / 262144), Byte(128 + r3 / 4096), Byte(128 + (r3 % 4096) / 64), Byte(128 + (r3 % 4096) % 64)]
  }

  function EncodeAll(cps: seq<CodePoint>): string {
    if cps == [] then "" else Encode(cps[0]) + EncodeAll(cps[1..])
  }

  predicate Scalar(cp: int) { 0 <= cp < 0xD800 || 0xE000 <= cp <= 0x10FFFF }

  datatype Decoded = Malformed | One(cp: int, size: nat)

  predicate Tail(c: char) { 0x80 <= c as int <= 0xBF }

  /** The first character of t by the grammar of RFC 3629: UTF8-1 to UTF8-4. */
  function DecodeOne(t: string): (d: Decoded)
    ensures d.One? ==> 0 < d.size <= |t|
  {
    if |t| == 0 then Malformed
    else
      var a := t[0] as int;
      if a <= 0x7F then One(a, 1)
      else if 0xC2 <= a <= 0xDF && |t| >= 2 && Tail(t[1]) then One((a - 0xC0) * 64 + (t[1] as int - 0x80), 2)
      else if 0xE0 <= a <= 0xEF && |t| >= 3 && Tail(t[1]) && Tail(t[2])
              && (a == 0xE0 ==> t[1] as int >= 0xA0) && (a == 0xED ==> t[1] as int <= 0x9F) then
        One((a - 0xE0) * 4096 + (t[1] as int - 0x80) * 64 + (t[2] as int - 0x80), 3)
      else if 0xF0 <= a <= 0xF4 && |t| >= 4 && Tail(t[1]) && Tail(t[2]) && Tail(t[3])
              && (a == 0xF0 ==> t[1] as int >= 0x90) && (a == 0xF4 ==> t[1] as int <= 0x8F) then
        One((a - 0xF0) * 262144 + (t[1] as int - 0x80) * 4096 + (t[2] as int - 0x80) * 64 + (t[3] as int - 0x80), 4)
      else Malformed
  }

  datatype DecodedAll = Bad | Good(cps: seq<int>)

  function DecodeAll(t: string): DecodedAll {
    if t == "" then Good([])
    else match DecodeOne(t)
      case Malformed => Bad
      case One(cp, size) =>
        match DecodeAll(t[size..])
        case Bad => Bad
        case Good(cps) => Good([cp] + cps)
  }

  /** What is written for a code point is its well-formed UTF-8 exactly when it is a
      Unicode scalar value; for a surrogate it is malformed. */
  lemma EncodeDecodes(cp: CodePoint, rest: string)
    ensures Scalar(cp) <==> DecodeOne(Encode(cp) + rest) == One(cp, |Encode(cp)|)
    ensures !Scalar(cp) ==> DecodeOne(Encode(cp) + rest) == Malformed
  {
    var t := Encode(cp) + rest;
    assert forall i :: 0 <= i < |Encode(cp)| ==> t[i] == Encode(cp)[i];
  }

  /** A sequence of scalar values is decoded back; one with anything else in it is written
      as malformed bytes. */
  lemma {:induction false} EncodeAllGood(cps: seq<CodePoint>)
    ensures DecodeAll(EncodeAll(cps)).Good? <==> forall i :: 0 <= i < |cps| ==> Scalar(cps[i])
    ensures DecodeAll(EncodeAll(cps)).Good? ==> DecodeAll(EncodeAll(cps)) == Good(cps)
  {
    if cps != [] {
      var rest := EncodeAll(cps[1..]);
      EncodeDecodes(cps[0], rest);
      EncodeAllGood(cps[1..]);
      assert (Encode(cps[0]) + rest)[|Encode(cps[0])|..] == rest;
      assert forall i :: 0 <= i < |cps| - 1 ==> cps[1..][i] == cps[i + 1];
      assert EncodeAll(cps) != "";
    }
  }
}
