/** Session entries, the pre-auth slot list and the login-stamp encoding. */
module SessionState {
  import opened Wrappers
  import Clock
  import Utf8

  /** A session entry's key. The ten constants the crate reserves are constructors;
      every other key an application or a persisted claim may use is `Custom`. */
  datatype Field =
    | Sub | Iss | Email | Name
    | AccessToken | RefreshToken | IdToken
    | ClaimKeys | LoginAt | PreAuth
    | Custom(name: string)

  predicate IsReserved(f: Field) {
    !f.Custom?
  }

  /** What a callback removes before writing the new login's values. */
  const SCRUBBED: set<Field> := {Email, Name, AccessToken, RefreshToken, IdToken}

  datatype PreAuthEntry = PreAuthEntry(
    state: string,
    pkceVerifier: string,
    nonce: string,
    returnTo: string,
    startedAt: int,
    maxAgeSecs: Option<int>)

  /** A stored value: the JSON shapes the crate distinguishes, anything else JSON
      can be, and text that is not JSON at all. */
  datatype Json =
    | JInt(n: int)
    | JString(s: string)
    | JFields(fields: seq<Field>)
    | JSlots(slots: seq<PreAuthEntry>)
    | JOther(tag: int)
    | Malformed

  type State = map<Field, Json>

  const PRE_AUTH_MAX_SLOTS := 5
  const LOGIN_AT_FUTURE_SKEW_SECS := 60

  // ---- The login stamp -------------------------------------------------------

  predicate IsDigit(c: char) {
    '0' <= c <= '9'
  }

  function ParseDigits(s: string): (r: Option<nat>)
    requires s != []
  {
    if !IsDigit(s[|s| - 1]) then
      None
    else
      var d := s[|s| - 1] as int - '0' as int;
      if |s| == 1 then
        Some(d)
      else
        match ParseDigits(s[..|s| - 1])
        case None => None
        case Some(n) => Some(10 * n + d)
  }

  /** `str::parse::<i64>`: an optional sign, at least one ASCII digit, and a value in range. */
  function ParseI64(s: string): Option<int> {
    if s == [] then
      None
    else
      var signed := s[0] == '-' || s[0] == '+';
      var digits := if signed then s[1..] else s;
      if digits == [] then
        None
      else
        match ParseDigits(digits)
        case None => None
        case Some(n) =>
          var magnitude: int := n;
          var v := if s[0] == '-' then -magnitude else magnitude;
          if Clock.IsI64(v) then Some(v) else None
  }

  /** `login_at_from_json`: the single definition of the stamp's encoding. */
  function LoginAtFromJson(value: Json): Option<int> {
    match value
    case JInt(n) => if Clock.IsI64(n) then Some(n) else None
    case JString(s) => ParseI64(s)
    case _ => None
  }

  function DecimalNat(n: nat): string
  {
    var last := ['0' + (n % 10) as char];
    if n < 10 then last else DecimalNat(n / 10) + last
  }

  function Decimal(n: int): string {
    if n < 0 then "-" + DecimalNat(-n) else DecimalNat(n)
  }

  lemma {:induction false} DecimalReadsBack(n: nat)
    ensures DecimalNat(n) != [] && ParseDigits(DecimalNat(n)) == Some(n)
    ensures IsDigit(DecimalNat(n)[0])
  {
    if n >= 10 {
      DecimalReadsBack(n / 10);
      var s := DecimalNat(n);
      assert s[..|s| - 1] == DecimalNat(n / 10);
    }
  }

  /** Changing the write site from an `i64` to a `String` would not log anyone out:
      both encodings of every `i64` stamp read back as that stamp. */
  lemma EitherEncodingReadsBack(stamp: int)
    requires Clock.IsI64(stamp)
    ensures LoginAtFromJson(JInt(stamp)) == Some(stamp)
    ensures LoginAtFromJson(JString(Decimal(stamp))) == Some(stamp)
  {
    var magnitude := if stamp < 0 then -stamp else stamp;
    DecimalReadsBack(magnitude);
    if stamp < 0 {
      assert Decimal(stamp)[1..] == DecimalNat(magnitude);
    }
  }

  lemma {:induction false} DigitsExactly(s: string)
    requires s != []
    ensures ParseDigits(s).Some? <==> forall c | c in s :: '0' <= c <= '9'
    ensures ParseDigits(s).Some? ==>
              ParseDigits(s).value == s[|s| - 1] as int - 48 +
                (if |s| == 1 then 0 else 10 * ParseDigits(s[..|s| - 1]).value)
  {
    var (init, last) := (s[..|s| - 1], s[|s| - 1]);
    assert s == init + [last];
    assert forall c | c in s :: c in init || c == last;
    assert last in s && forall c | c in init :: c in s;
    if init != [] {
      DigitsExactly(init);
    }
  }

  function Stamp(n: int): Option<int> {
    if -0x8000_0000_0000_0000 <= n <= 0x7FFF_FFFF_FFFF_FFFF then Some(n) else None
  }

  lemma SignedStamp(sign: string, digits: string)
    requires sign == "" || sign == "+" || sign == "-"
    requires digits != [] && digits[0] != '+' && digits[0] != '-'
    ensures ParseI64(sign + digits) ==
            match ParseDigits(digits)
            case None => None
            case Some(n) => Stamp(if sign == "-" then 0 - n as int else n)
  {
    if sign == "" {
      assert sign + digits == digits;
    } else {
      assert (sign + digits)[1..] == digits;
    }
  }

  /** Of other JSON exactly an integer within an `i64` is a stamp; a lone sign is none. */
  lemma OtherStampsExactly(value: Json)
    requires !value.JString? || value.s in {"", "+", "-"}
    ensures LoginAtFromJson(value) == if value.JInt? then Stamp(value.n) else None
  {
  }

  /** A stored string is a stamp exactly when it is ASCII digits, after one `+` or `-` at most, whose
      value fits an `i64`; it is then that value. */
  lemma StringStampExactly(digits: string)
    requires digits != [] && digits[0] != '+' && digits[0] != '-'
    ensures ParseDigits(digits).Some? <==> forall c | c in digits :: '0' <= c <= '9'
    ensures if ParseDigits(digits).Some? then
              var n: int := ParseDigits(digits).value;
              LoginAtFromJson(JString(digits)) == LoginAtFromJson(JString("+" + digits)) == Stamp(n) &&
              LoginAtFromJson(JString("-" + digits)) == Stamp(-n)
            else
              LoginAtFromJson(JString(digits)) == LoginAtFromJson(JString("+" + digits)) ==
              LoginAtFromJson(JString("-" + digits)) == None
  {
    DigitsExactly(digits);
    SignedStamp("", digits);
    SignedStamp("+", digits);
    SignedStamp("-", digits);
    assert "" + digits == digits;
  }

  // ---- Comparing states ------------------------------------------------------

  /** Bitwise exclusive or, bit by bit from the low end. */
  function Xor(x: nat, y: nat): nat
    decreases x + y
  {
    if x == 0 && y == 0 then 0 else 2 * Xor(x / 2, y / 2) + (x + y) % 2
  }

  /** Bitwise or. */
  function Or(x: nat, y: nat): nat
    decreases x + y
  {
    if x == 0 && y == 0 then 0 else 2 * Or(x / 2, y / 2) + Clock.Max(x % 2, y % 2)
  }

  /** The difference accumulator of `constant_time_eq`, over the zipped bytes. */
  function XorFold(a: seq<Utf8.Byte>, b: seq<Utf8.Byte>, acc: nat): nat
    requires |a| == |b|
  {
    if a == [] then acc else XorFold(a[1..], b[1..], Or(acc, Xor(a[0], b[0])))
  }

  /** `constant_time_eq`. */
  predicate ConstantTimeEq(a: string, b: string) {
    var (x, y) := (Utf8.Encode(a), Utf8.Encode(b));
    |x| == |y| && XorFold(x, y, 0) == 0
  }

  lemma {:induction false} XorIsZero(x: nat, y: nat)
    ensures Xor(x, y) == 0 <==> x == y
    decreases x + y
  {
    if x != 0 || y != 0 {
      XorIsZero(x / 2, y / 2);
    }
  }

  lemma {:induction false} OrIsZero(x: nat, y: nat)
    ensures Or(x, y) == 0 <==> x == 0 && y == 0
    decreases x + y
  {
    if x != 0 || y != 0 {
      OrIsZero(x / 2, y / 2);
    }
  }

  lemma {:induction false} XorFoldIsEquality(a: seq<Utf8.Byte>, b: seq<Utf8.Byte>, acc: nat)
    requires |a| == |b|
    ensures XorFold(a, b, acc) == 0 <==> acc == 0 && a == b
  {
    if a != [] {
      var acc' := Or(acc, Xor(a[0], b[0]));
      XorIsZero(a[0], b[0]);
      OrIsZero(acc, Xor(a[0], b[0]));
      XorFoldIsEquality(a[1..], b[1..], acc');
      assert a == [a[0]] + a[1..] && b == [b[0]] + b[1..];
    }
  }

  /** The XOR fold decides exactly string equality. */
  lemma ConstantTimeEqIsEquality(a: string, b: string)
    ensures ConstantTimeEq(a, b) <==> a == b
  {
    var (x, y) := (Utf8.Encode(a), Utf8.Encode(b));
    if |x| == |y| {
      XorFoldIsEquality(x, y, 0);
    }
    Utf8.LossyReadsBack(a);
    Utf8.LossyReadsBack(b);
  }
}
