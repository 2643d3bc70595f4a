/** application/x-www-form-urlencoded, sections 5.1 and 5.2 of the WHATWG URL Standard,
    as the `form_urlencoded` crate implements it for the callback. */
module FormUrlencoded {
  import opened Wrappers
  import opened Utf8
  import Sequences

  const AMPERSAND: Byte := 0x26
  const EQUALS: Byte := 0x3D
  const PLUS: Byte := 0x2B
  const PERCENT: Byte := 0x25
  const SPACE: Byte := 0x20

  type Pair = (string, string)

  // ---- Parsing ---------------------------------------------------------------

  /** The index of the first `b`, or the length when there is none. */
  function IndexOf(bs: seq<Byte>, b: Byte): (i: nat)
    ensures i <= |bs|
  {
    if bs == [] || bs[0] == b then 0 else 1 + IndexOf(bs[1..], b)
  }

  lemma {:induction false} IndexOfIsFirst(bs: seq<Byte>, b: Byte)
    ensures b !in bs[..IndexOf(bs, b)]
    ensures IndexOf(bs, b) < |bs| ==> bs[IndexOf(bs, b)] == b
    ensures b !in bs ==> IndexOf(bs, b) == |bs|
  {
    if bs != [] && bs[0] != b {
      IndexOfIsFirst(bs[1..], b);
      assert bs[..IndexOf(bs, b)] == [bs[0]] + bs[1..][..IndexOf(bs[1..], b)];
    }
  }

  /** What follows a separator at `i`: nothing when `i` is the end. */
  function After(bs: seq<Byte>, i: nat): (rest: seq<Byte>)
    ensures bs != [] ==> |rest| < |bs|
  {
    if i < |bs| then bs[i + 1..] else []
  }

  function HexValue(b: Byte): Option<Byte> {
    if 0x30 <= b <= 0x39 then Some(b - 0x30)
    else if 0x41 <= b <= 0x46 then Some(b - 0x37)
    else if 0x61 <= b <= 0x66 then Some(b - 0x57)
    else None
  }

  function ReplacePlus(bs: seq<Byte>): (r: seq<Byte>)
    ensures |r| == |bs|
    ensures forall i | 0 <= i < |bs| :: r[i] == if bs[i] == PLUS then SPACE else bs[i]
  {
    seq(|bs|, i requires 0 <= i < |bs| => if bs[i] == PLUS then SPACE else bs[i])
  }

  function IsEscape(bs: seq<Byte>): bool {
    |bs| >= 3 && bs[0] == PERCENT && HexValue(bs[1]).Some? && HexValue(bs[2]).Some?
  }

  /** Percent-decoding; a `%` not followed by two hex digits stands for itself. */
  function PercentDecode(bs: seq<Byte>): seq<Byte> {
    if bs == [] then []
    else if IsEscape(bs) then
      [HexValue(bs[1]).value * 16 + HexValue(bs[2]).value] + PercentDecode(bs[3..])
    else
      [bs[0]] + PercentDecode(bs[1..])
  }

  /** The bytes a name or value stands for, before they are read as UTF-8. */
  function RawBytes(bs: seq<Byte>): seq<Byte> {
    PercentDecode(ReplacePlus(bs))
  }

  function DecodeText(bs: seq<Byte>): string {
    Lossy(RawBytes(bs))
  }

  function ParsePair(segment: seq<Byte>): Pair {
    var i := IndexOf(segment, EQUALS);
    (DecodeText(segment[..i]), DecodeText(After(segment, i)))
  }

  /** One `&`-free segment: an empty one is skipped, a missing `=` gives an empty value. */
  function ParseSegment(segment: seq<Byte>): seq<Pair> {
    if segment == [] then [] else [ParsePair(segment)]
  }

  /** `form_urlencoded::parse`. */
  function Parse(bs: seq<Byte>): seq<Pair>
    decreases |bs|
  {
    if bs == [] then
      []
    else
      var i := IndexOf(bs, AMPERSAND);
      ParseSegment(bs[..i]) + Parse(After(bs, i))
  }

  const UPPER_HEX := "0123456789ABCDEF"
  const LOWER_HEX := "0123456789abcdef"

  /** A hex digit of either case has its place's value; nothing else is one. */
  lemma HexValueExactly(b: Byte, n: Byte)
    ensures HexValue(b) == Some(n) <==> n < 16 && (b == UPPER_HEX[n] as int || b == LOWER_HEX[n] as int)
  {
  }

  /** Decoding, from the left: `+` is a space, `%` and two hex digits are one byte, and every other
      byte, a `%` without its digits included, stands for itself. */
  lemma RawBytesStep(b: Byte, rest: seq<Byte>)
    ensures RawBytes([]) == []
    ensures RawBytes([b] + rest) ==
            if b == PLUS then [SPACE] + RawBytes(rest)
            else if b == PERCENT && |rest| >= 2 && HexValue(rest[0]).Some? && HexValue(rest[1]).Some?
            then [16 * HexValue(rest[0]).value + HexValue(rest[1]).value] + RawBytes(rest[2..])
            else [b] + RawBytes(rest)
  {
    var bs := ReplacePlus([b] + rest);
    assert bs[1..] == ReplacePlus(rest);
    if |rest| >= 2 {
      assert bs[3..] == ReplacePlus(rest[2..]);
    }
  }

  /** A query string without `&` is one pair: split at its first `=`, or a name with an empty value
      if it has none. */
  lemma ParseOneSegment(name: seq<Byte>, value: seq<Byte>)
    requires EQUALS !in name && AMPERSAND !in name && AMPERSAND !in value
    ensures Parse([]) == []
    ensures Parse(name + [EQUALS] + value) == [(DecodeText(name), DecodeText(value))]
    ensures name != [] ==> Parse(name) == [(DecodeText(name), "")]
  {
    ParseLastSegment(name + [EQUALS] + value);
    IndexOfConcat(name, EQUALS, value);
    ParseLastSegment(name);
    IndexOfIsFirst(name, EQUALS);
    assert name[..|name|] == name;
  }

  // ---- Serializing -----------------------------------------------------------

  /** Bytes the serializer leaves alone: ASCII alphanumerics and `*-._`. */
  predicate IsPlain(b: Byte) {
    0x30 <= b <= 0x39 || 0x41 <= b <= 0x5A || 0x61 <= b <= 0x7A ||
    b == 0x2A || b == 0x2D || b == 0x2E || b == 0x5F
  }

  function HexDigit(n: nat): Byte
    requires n < 16
  {
    if n < 10 then 0x30 + n else 0x37 + n
  }

  function SerializeByte(b: Byte): (r: seq<Byte>)
    ensures 1 <= |r| <= 3
    ensures IsPlain(b) ==> |r| == 1
    ensures forall x | x in r :: IsPlain(x) || x == PERCENT || x == PLUS
  {
    if IsPlain(b) then [b]
    else if b == SPACE then [PLUS]
    else [PERCENT, HexDigit(b / 16), HexDigit(b % 16)]
  }

  function SerializeBytes(bs: seq<Byte>): seq<Byte> {
    if bs == [] then [] else SerializeByte(bs[0]) + SerializeBytes(bs[1..])
  }

  function SerializePair(p: Pair): seq<Byte> {
    SerializeBytes(Encode(p.0)) + [EQUALS] + SerializeBytes(Encode(p.1))
  }

  function Serialize(pairs: seq<Pair>): seq<Byte> {
    if pairs == [] then []
    else if |pairs| == 1 then SerializePair(pairs[0])
    else Serialize(pairs[..|pairs| - 1]) + [AMPERSAND] + SerializePair(pairs[|pairs| - 1])
  }

  lemma HexDigitIs(n: nat)
    requires n < 16
    ensures HexDigit(n) == UPPER_HEX[n] as int
  {
  }

  predicate LetterOrDigit(b: Byte) {
    '0' as int <= b <= '9' as int || 'A' as int <= b <= 'Z' as int || 'a' as int <= b <= 'z' as int
  }

  /** A space becomes `+`; a letter, a digit or one of `*-._` stays; anything else is a `%` and two
      upper-case hex digits. */
  lemma SerializedByteIs(b: Byte)
    ensures if b == 0x20 then SerializeBytes([b]) == [0x2B]
            else if LetterOrDigit(b) || exists c | c in "*-._" :: b == c as int then SerializeBytes([b]) == [b]
            else SerializeBytes([b]) == [0x25, UPPER_HEX[b / 16] as int, UPPER_HEX[b % 16] as int]
  {
    var others := "*-._";
    assert others == ['*', '-', '.', '_'] && others[0] == '*' && others[1] == '-' && others[2] == '.' &&
           others[3] == '_';
    assert IsPlain(b) && !LetterOrDigit(b) ==> (b as char) in others;
    HexDigitIs(b / 16);
    HexDigitIs(b % 16);
    assert SerializeBytes([b]) == SerializeByte(b) + SerializeBytes([]);
  }

  // ---- What the serializer may emit ------------------------------------------

  predicate SafeOutput(bs: seq<Byte>) {
    forall x | x in bs :: IsPlain(x) || x == PERCENT || x == PLUS
  }

  lemma {:induction false} SerializeBytesIsSafe(bs: seq<Byte>)
    ensures SafeOutput(SerializeBytes(bs))
    ensures |bs| <= |SerializeBytes(bs)| <= 3 * |bs|
  {
    if bs != [] {
      SerializeBytesIsSafe(bs[1..]);
    }
  }

  lemma {:induction false} PlainBytesStay(bs: seq<Byte>)
    requires forall x | x in bs :: IsPlain(x)
    ensures SerializeBytes(bs) == bs
  {
    if bs != [] {
      PlainBytesStay(bs[1..]);
      assert bs == [bs[0]] + bs[1..];
    }
  }

  // ---- Round trip ------------------------------------------------------------

  lemma HexReadsBack(b: Byte)
    ensures HexValue(HexDigit(b / 16)) == Some(b / 16)
    ensures HexValue(HexDigit(b % 16)) == Some(b % 16)
  {
  }

  lemma SerializedByteDecodes(b: Byte, rest: seq<Byte>)
    ensures PercentDecode(ReplacePlus(SerializeByte(b)) + rest) == [b] + PercentDecode(rest)
  {
    var s := ReplacePlus(SerializeByte(b));
    var whole := s + rest;
    HexReadsBack(b);
    assert whole[|s|..] == rest;
    assert !IsPlain(b) && b != SPACE ==> IsEscape(whole);
  }

  lemma {:induction false} SerializedBytesDecode(bs: seq<Byte>)
    ensures RawBytes(SerializeBytes(bs)) == bs
  {
    if bs != [] {
      var (first, rest) := (SerializeByte(bs[0]), SerializeBytes(bs[1..]));
      assert ReplacePlus(first + rest) == ReplacePlus(first) + ReplacePlus(rest);
      SerializedByteDecodes(bs[0], ReplacePlus(rest));
      SerializedBytesDecode(bs[1..]);
    }
  }

  lemma {:induction false} IndexOfConcat(a: seq<Byte>, b: Byte, rest: seq<Byte>)
    requires b !in a
    ensures IndexOf(a + [b] + rest, b) == |a|
    ensures After(a + [b] + rest, |a|) == rest
    ensures (a + [b] + rest)[..|a|] == a
  {
    if a != [] {
      assert (a + [b] + rest)[1..] == a[1..] + [b] + rest;
      IndexOfConcat(a[1..], b, rest);
    }
  }

  lemma ParseFirstSegment(whole: seq<Byte>, segment: seq<Byte>, rest: seq<Byte>)
    requires AMPERSAND !in segment
    requires whole == segment + [AMPERSAND] + rest
    ensures Parse(whole) == ParseSegment(segment) + Parse(rest)
  {
    IndexOfConcat(segment, AMPERSAND, rest);
  }

  lemma ParseLastSegment(segment: seq<Byte>)
    requires AMPERSAND !in segment
    ensures Parse(segment) == ParseSegment(segment)
  {
    IndexOfIsFirst(segment, AMPERSAND);
    assert segment[..|segment|] == segment;
  }

  lemma SerializedTextDecodes(text: string)
    ensures DecodeText(SerializeBytes(Encode(text))) == text
  {
    SerializedBytesDecode(Encode(text));
    LossyReadsBack(text);
  }

  lemma NoAmpersandInPair(name: seq<Byte>, value: seq<Byte>)
    requires SafeOutput(name) && SafeOutput(value)
    ensures AMPERSAND !in name + [EQUALS] + value
    ensures EQUALS !in name
  {
  }

  lemma ParseOne(p: Pair)
    ensures Parse(SerializePair(p)) == [p]
  {
    var (name, value) := (SerializeBytes(Encode(p.0)), SerializeBytes(Encode(p.1)));
    SerializeBytesIsSafe(Encode(p.0));
    SerializeBytesIsSafe(Encode(p.1));
    NoAmpersandInPair(name, value);
    ParseLastSegment(name + [EQUALS] + value);
    IndexOfConcat(name, EQUALS, value);
    SerializedTextDecodes(p.0);
    SerializedTextDecodes(p.1);
  }

  lemma FirstSegment(a: seq<Byte>) returns (segment: seq<Byte>, rest: seq<Byte>)
    requires AMPERSAND in a
    ensures AMPERSAND !in segment
    ensures a == segment + [AMPERSAND] + rest
  {
    var i := IndexOf(a, AMPERSAND);
    IndexOfIsFirst(a, AMPERSAND);
    assert i < |a| by {
      assert a[..|a|] == a;
    }
    return a[..i], a[i + 1..];
  }

  lemma SharedFirstSegment(a: seq<Byte>, ab: seq<Byte>, segment: seq<Byte>, rest: seq<Byte>, restB: seq<Byte>,
                           more: seq<Pair>)
    requires AMPERSAND !in segment
    requires a == segment + [AMPERSAND] + rest && ab == segment + [AMPERSAND] + restB
    requires Parse(restB) == Parse(rest) + more
    ensures Parse(ab) == Parse(a) + more
  {
    ParseFirstSegment(a, segment, rest);
    ParseFirstSegment(ab, segment, restB);
    Sequences.ConcatAssociates(ParseSegment(segment), Parse(rest), more);
  }

  lemma Reassociate(segment: seq<Byte>, rest: seq<Byte>, b: seq<Byte>)
    ensures (segment + [AMPERSAND] + rest) + [AMPERSAND] + b
         == segment + [AMPERSAND] + (rest + [AMPERSAND] + b)
  {
  }

  /** Parsing is a homomorphism: joining two query strings with `&` joins their pairs. */
  lemma {:induction false} ParseConcat(a: seq<Byte>, b: seq<Byte>)
    ensures Parse(a + [AMPERSAND] + b) == Parse(a) + Parse(b)
    decreases |a|
  {
    if AMPERSAND in a {
      var segment, rest := FirstSegment(a);
      Reassociate(segment, rest, b);
      ParseConcat(rest, b);
      SharedFirstSegment(a, a + [AMPERSAND] + b, segment, rest, rest + [AMPERSAND] + b, Parse(b));
    } else {
      ParseFirstSegment(a + [AMPERSAND] + b, a, b);
      ParseLastSegment(a);
    }
  }

  lemma SerializeLast(init: seq<Pair>, last: Pair)
    requires init != []
    ensures Serialize(init + [last]) == Serialize(init) + [AMPERSAND] + SerializePair(last)
  {
  }

  lemma {:induction false} ParseSerializeFrom(pairs: seq<Pair>, bytes: seq<Byte>)
    requires bytes == Serialize(pairs)
    ensures Parse(bytes) == pairs
    decreases |pairs|
  {
    if |pairs| == 1 {
      ParseOne(pairs[0]);
    } else if pairs != [] {
      var (init, last) := (pairs[..|pairs| - 1], pairs[|pairs| - 1]);
      assert pairs == init + [last];
      SerializeLast(init, last);
      ParseSerializeFrom(init, Serialize(init));
      ParseConcat(Serialize(init), SerializePair(last));
      ParseOne(last);
    }
  }

  /** Whatever list of pairs is serialized, parsing gives it back: names and values
      unchanged, in order, duplicates and empty names included. */
  lemma ParseSerialize(pairs: seq<Pair>)
    ensures Parse(Serialize(pairs)) == pairs
  {
    ParseSerializeFrom(pairs, Serialize(pairs));
  }
}
