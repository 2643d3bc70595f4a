/** UTF-8, as Rust's `str` and `String::from_utf8_lossy` treat it. A Dafny `char` is a
    Unicode scalar value, so a Dafny `string` is exactly the content of a Rust `String`. */
module Utf8 {

  type Byte = b: int | 0 <= b < 256

  const REPLACEMENT: char := '\U{FFFD}'

  /** The bytes of one scalar value. */
  function EncodeChar(c: char): (bs: seq<Byte>)
    ensures 1 <= |bs| <= 4
    ensures (c as int) < 0x80 <==> |bs| == 1
  {
    var n := c as int;
    if n < 0x80 then [n]
    else if n < 0x800 then [0xC0 + n / 64, 0x80 + n % 64]
    else if n < 0x1_0000 then [0xE0 + n / 4096, 0x80 + n / 64 % 64, 0x80 + n % 64]
    else [0xF0 + n / 262144, 0x80 + n / 4096 % 64, 0x80 + n / 64 % 64, 0x80 + n % 64]
  }

  function Encode(s: string): seq<Byte> {
    if s == [] then [] else EncodeChar(s[0]) + Encode(s[1..])
  }

  predicate IsContinuation(b: Byte) {
    0x80 <= b < 0xC0
  }

  /** The byte at `i`, or 0 past the end, which no continuation test accepts. */
  function At(bs: seq<Byte>, i: nat): Byte {
    if i < |bs| then bs[i] else 0
  }

  /** Which second bytes may follow a three- or four-byte lead. */
  predicate SecondByteFits(lead: Byte, second: Byte) {
    IsContinuation(second) &&
    (lead == 0xE0 ==> 0xA0 <= second) &&
    (lead == 0xED ==> second < 0xA0) &&
    (lead == 0xF0 ==> 0x90 <= second) &&
    (lead == 0xF4 ==> second < 0x90)
  }

  /** The scalar value spelled by a lead byte's payload and its continuation bytes. */
  function Payload2(lead: int, b1: int): int {
    lead * 64 + (b1 - 0x80)
  }

  function Payload3(lead: int, b1: int, b2: int): int {
    lead * 4096 + (b1 - 0x80) * 64 + (b2 - 0x80)
  }

  function Payload4(lead: int, b1: int, b2: int, b3: int): int {
    lead * 262144 + (b1 - 0x80) * 4096 + (b2 - 0x80) * 64 + (b3 - 0x80)
  }

  /** What the front of a byte string holds: a scalar value and its width, or an ill-formed
      prefix and how many bytes of it one replacement character stands for. */
  datatype Front = Scalar(c: char, width: nat) | Bad(width: nat)

  function DecodeFront(bs: seq<Byte>): (f: Front)
    requires bs != []
    ensures 1 <= f.width <= |bs|
  {
    var b0 := bs[0];
    var (b1, b2, b3) := (At(bs, 1), At(bs, 2), At(bs, 3));
    if b0 < 0x80 then
      Scalar(b0 as char, 1)
    else if 0xC2 <= b0 < 0xE0 then
      if !IsContinuation(b1) then Bad(1)
      else Scalar(Payload2(b0 - 0xC0, b1) as char, 2)
    else if 0xE0 <= b0 < 0xF0 then
      if !SecondByteFits(b0, b1) then Bad(1)
      else if !IsContinuation(b2) then Bad(2)
      else Scalar(Payload3(b0 - 0xE0, b1, b2) as char, 3)
    else if 0xF0 <= b0 < 0xF5 then
      if !SecondByteFits(b0, b1) then Bad(1)
      else if !IsContinuation(b2) then Bad(2)
      else if !IsContinuation(b3) then Bad(3)
      else Scalar(Payload4(b0 - 0xF0, b1, b2, b3) as char, 4)
    else
      Bad(1)
  }

  /** `String::from_utf8_lossy`. */
  function Lossy(bs: seq<Byte>): string {
    if bs == [] then
      []
    else
      var f := DecodeFront(bs);
      [if f.Scalar? then f.c else REPLACEMENT] + Lossy(bs[f.width..])
  }

  lemma DigitsBase64(n: nat)
    ensures n == n / 64 * 64 + n % 64
    ensures n / 64 == n / 4096 * 64 + n / 64 % 64
    ensures n / 4096 == n / 262144 * 64 + n / 4096 % 64
  {
    assert n / 64 / 64 == n / 4096 && n / 4096 / 64 == n / 262144;
  }

  /** Decoding the bytes of `c`, whatever follows them, yields `c` and its width. */
  lemma DecodeFrontOfEncoding(c: char, rest: seq<Byte>)
    ensures DecodeFront(EncodeChar(c) + rest) == Scalar(c, |EncodeChar(c)|)
  {
    var n := c as int;
    var e := EncodeChar(c);
    DigitsBase64(n);
    assert forall i | 0 <= i < |e| :: At(e + rest, i) == e[i];
    if 0x80 <= n < 0x800 {
      assert Payload2(e[0] - 0xC0, e[1]) == n;
    } else if 0x800 <= n < 0x1_0000 {
      assert Payload3(e[0] - 0xE0, e[1], e[2]) == n;
    } else if 0x1_0000 <= n {
      assert Payload4(e[0] - 0xF0, e[1], e[2], e[3]) == n;
    }
  }

  lemma Payload2Digits(lead: nat, b1: int)
    requires 0x80 <= b1 < 0xC0
    ensures Payload2(lead, b1) / 64 == lead && Payload2(lead, b1) % 64 == b1 - 0x80
  {
  }

  lemma Payload3Digits(lead: nat, b1: int, b2: int)
    requires 0x80 <= b1 < 0xC0 && 0x80 <= b2 < 0xC0
    ensures Payload3(lead, b1, b2) / 64 == Payload2(lead, b1)
    ensures Payload3(lead, b1, b2) / 4096 == lead
    ensures Payload3(lead, b1, b2) % 64 == b2 - 0x80
  {
  }

  lemma Payload4Digits(lead: nat, b1: int, b2: int, b3: int)
    requires 0x80 <= b1 < 0xC0 && 0x80 <= b2 < 0xC0 && 0x80 <= b3 < 0xC0
    ensures Payload4(lead, b1, b2, b3) / 64 == Payload3(lead, b1, b2)
    ensures Payload4(lead, b1, b2, b3) / 4096 == Payload2(lead, b1)
    ensures Payload4(lead, b1, b2, b3) / 262144 == lead
    ensures Payload4(lead, b1, b2, b3) % 64 == b3 - 0x80
  {
  }

  /** A scalar read at the front re-encodes to the bytes it was read from. */
  lemma EncodingOfFront(bs: seq<Byte>)
    requires bs != []
    requires DecodeFront(bs).Scalar?
    ensures EncodeChar(DecodeFront(bs).c) == bs[..DecodeFront(bs).width]
  {
    match DecodeFront(bs).width
    case 2 =>
      Payload2Digits(bs[0] - 0xC0, bs[1]);
    case 3 =>
      Payload2Digits(bs[0] - 0xE0, bs[1]);
      Payload3Digits(bs[0] - 0xE0, bs[1], bs[2]);
    case 4 =>
      Payload2Digits(bs[0] - 0xF0, bs[1]);
      Payload3Digits(bs[0] - 0xF0, bs[1], bs[2]);
      Payload4Digits(bs[0] - 0xF0, bs[1], bs[2], bs[3]);
    case _ =>
  }

  /** The bytes begin the encoding of some scalar value, and are not all of it. */
  ghost predicate Begins(bs: seq<Byte>) {
    exists c: char :: bs < EncodeChar(c)
  }

  lemma CompletedBegins(bs: seq<Byte>, rest: seq<Byte>)
    requires bs != [] && DecodeFront(bs + rest).Scalar? && DecodeFront(bs + rest).width > |bs|
    ensures Begins(bs)
  {
    EncodingOfFront(bs + rest);
    assert bs < EncodeChar(DecodeFront(bs + rest).c);
  }

  /** One replacement character stands for the longest stretch that begins a scalar value, or for one
      byte (section 3.9 of the Unicode Standard, maximal subparts). */
  lemma ReplacedIsMaximal(bs: seq<Byte>)
    requires bs != [] && DecodeFront(bs).Bad?
    ensures var w := DecodeFront(bs).width;
            (w == 1 || Begins(bs[..w])) && (w < |bs| ==> !Begins(bs[..w + 1]))
  {
    var w := DecodeFront(bs).width;
    if w > 1 {
      CompletedBegins(bs[..w], if w == 2 && bs[0] >= 0xF0 then [0x80, 0x80] else [0x80]);
    }
    if w < |bs| && Begins(bs[..w + 1]) {
      var c: char :| bs[..w + 1] < EncodeChar(c);
      DecodeFrontOfEncoding(c, []);
      assert EncodeChar(c) + [] == EncodeChar(c);
      SharedFront(bs, EncodeChar(c));
    }
  }

  /** What makes a front ill-formed is seen in its bytes and the one after them. */
  lemma SharedFront(bs: seq<Byte>, other: seq<Byte>)
    requires bs != [] && DecodeFront(bs).Bad? && DecodeFront(bs).width < |bs|
    requires bs[..DecodeFront(bs).width + 1] <= other
    ensures DecodeFront(other) == DecodeFront(bs)
  {
    var w := DecodeFront(bs).width;
    assert forall i | 0 <= i <= w :: bs[i] == bs[..w + 1][i] == other[i];
  }

  /** Every string survives the trip through its bytes, so encoding is injective. */
  lemma {:induction false} LossyReadsBack(s: string)
    ensures Lossy(Encode(s)) == s
  {
    if s != [] {
      var (first, rest) := (EncodeChar(s[0]), Encode(s[1..]));
      DecodeFrontOfEncoding(s[0], rest);
      assert (first + rest)[|first|..] == rest;
      LossyReadsBack(s[1..]);
    }
  }

  /** The front of a byte string that decodes cleanly, and what is left after it. */
  lemma CleanFront(bs: seq<Byte>) returns (first: char, width: nat)
    requires bs != []
    requires REPLACEMENT !in Lossy(bs)
    ensures 1 <= width <= |bs|
    ensures Lossy(bs) == [first] + Lossy(bs[width..])
    ensures EncodeChar(first) == bs[..width]
  {
    var f := DecodeFront(bs);
    assert Lossy(bs)[0] == if f.Scalar? then f.c else REPLACEMENT;
    EncodingOfFront(bs);
    return f.c, f.width;
  }

  lemma CleanRest(first: char, rest: string)
    requires REPLACEMENT !in [first] + rest
    ensures REPLACEMENT !in rest
    ensures Encode([first] + rest) == EncodeChar(first) + Encode(rest)
  {
  }

  /** Bytes that decode without leaving a replacement character were well formed: nothing
      was altered. Rejecting U+FFFD therefore rejects every ill-formed byte string. */
  lemma {:induction false} NoReplacementMeansUnaltered(bs: seq<Byte>)
    requires REPLACEMENT !in Lossy(bs)
    ensures Encode(Lossy(bs)) == bs
  {
    if bs != [] {
      var first, width := CleanFront(bs);
      CleanRest(first, Lossy(bs[width..]));
      NoReplacementMeansUnaltered(bs[width..]);
      assert bs == bs[..width] + bs[width..];
    }
  }
}
