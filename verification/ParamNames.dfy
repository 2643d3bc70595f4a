/** Validation of query-parameter names, shared by the authorization request's extra
    parameters and the callback's passthrough allowlist. */
module ParamNames {
  import opened Wrappers
  import FormUrlencoded
  import Utf8

  const MAX_PARAM_NAME_LEN := 64

  const DENIED_AUTH_PARAMS: seq<string> := [
    "client_assertion", "client_assertion_type", "client_id", "client_secret",
    "code_challenge", "code_challenge_method", "code_verifier", "max_age", "nonce",
    "redirect_uri", "request", "request_uri", "response_mode", "response_type", "scope", "state"]

  const DENIED_PASSTHROUGH_PARAMS: seq<string> := [
    "access_token", "client_assertion", "client_assertion_type", "client_secret", "code",
    "code_verifier", "error", "error_description", "error_uri", "id_token", "id_token_hint",
    "iss", "refresh_token", "response", "session_state", "sid", "state", "token"]

  datatype ParamNameError = Empty | TooLong | InvalidCharset | Denied

  /** A C0 control, DEL or a C1 control. */
  predicate HasControlChars(value: string) {
    exists c | c in value :: c as int <= 0x1F || 0x7F <= c as int <= 0x9F
  }

  lemma ControlsExactly(value: string)
    ensures HasControlChars(value) <==>
            exists i | 0 <= i < |value| :: value[i] as int < 0x20 || 0x7F <= value[i] as int < 0xA0
  {
    if i :| 0 <= i < |value| && (value[i] as int < 0x20 || 0x7F <= value[i] as int < 0xA0) {
      assert value[i] in value;
    }
  }

  predicate IsNameChar(c: char) {
    '0' <= c <= '9' || 'A' <= c <= 'Z' || 'a' <= c <= 'z' || c == '_' || c == '.' || c == '-'
  }

  function Lower(c: char): char {
    if 'A' <= c <= 'Z' then (c as int + 32) as char else c
  }

  predicate EqIgnoreCase(a: string, b: string) {
    |a| == |b| && forall i | 0 <= i < |a| :: Lower(a[i]) == Lower(b[i])
  }

  predicate IsDenied(name: string, denied: seq<string>) {
    exists i | 0 <= i < |denied| :: EqIgnoreCase(denied[i], name)
  }

  /** `validate_param_name`: why the name is refused, if it is. */
  function NameProblem(name: string, denied: seq<string>): Option<ParamNameError> {
    if name == [] then Some(Empty)
    else if |Utf8.Encode(name)| > MAX_PARAM_NAME_LEN then Some(TooLong)
    else if exists c | c in name :: !IsNameChar(c) then Some(InvalidCharset)
    else if IsDenied(name, denied) then Some(Denied)
    else None
  }

  /** Unicode White_Space, which `str::trim` strips. */
  predicate IsWhitespace(c: char) {
    var n := c as int;
    0x09 <= n <= 0x0D || n == 0x20 || n == 0x85 || n == 0xA0 || n == 0x1680 ||
    0x2000 <= n <= 0x200A || n == 0x2028 || n == 0x2029 || n == 0x202F || n == 0x205F || n == 0x3000
  }

  function Trim(s: string): string
    decreases |s|
  {
    if s == [] then []
    else if IsWhitespace(s[0]) then Trim(s[1..])
    else if IsWhitespace(s[|s| - 1]) then Trim(s[..|s| - 1])
    else s
  }

  predicate AllWhitespace(s: string) {
    forall c | c in s :: IsWhitespace(c)
  }

  /** Trimming removes whitespace from both ends and nothing else. */
  lemma {:induction false} TrimRemovesOnlyWhitespace(s: string) returns (front: string, back: string)
    ensures s == front + Trim(s) + back && AllWhitespace(front) && AllWhitespace(back)
    ensures Trim(s) != [] ==> !IsWhitespace(Trim(s)[0]) && !IsWhitespace(Trim(s)[|Trim(s)| - 1])
    decreases |s|
  {
    front, back := [], [];
    if s != [] && IsWhitespace(s[0]) {
      front, back := TrimRemovesOnlyWhitespace(s[1..]);
      assert s == [s[0]] + s[1..];
      front := [s[0]] + front;
    } else if s != [] && IsWhitespace(s[|s| - 1]) {
      var last := |s| - 1;
      front, back := TrimRemovesOnlyWhitespace(s[..last]);
      assert s == s[..last] + [s[last]];
      back := back + [s[last]];
    }
  }

  /** Nothing is left exactly when there was nothing but whitespace. */
  lemma BlankExactlyWhen(s: string)
    ensures Trim(s) == [] <==> AllWhitespace(s)
  {
    var front, back := TrimRemovesOnlyWhitespace(s);
    if Trim(s) != [] {
      assert s[|front|] == Trim(s)[0];
    } else {
      assert forall c | c in s :: c in front || c in back;
    }
  }

  lemma {:induction false} NameCharsArePlain(name: string)
    requires forall c | c in name :: IsNameChar(c)
    ensures |Utf8.Encode(name)| == |name|
    ensures forall b | b in Utf8.Encode(name) :: FormUrlencoded.IsPlain(b)
  {
    if name != [] {
      assert name[0] in name && IsNameChar(name[0]);
      assert Utf8.EncodeChar(name[0]) == [name[0] as int];
      assert forall c | c in name[1..] :: c in name;
      NameCharsArePlain(name[1..]);
    }
  }

  lemma {:induction false} ManyBytes(name: string)
    ensures |name| <= |Utf8.Encode(name)|
  {
    if name != [] {
      ManyBytes(name[1..]);
    }
  }

  /** A name is accepted exactly when it is one to 64 ASCII letters, digits, `_`, `.` and `-` that
      are no denied name in any mix of cases. */
  lemma NameAcceptedExactlyWhen(name: string, denied: seq<string>)
    ensures NameProblem(name, denied).None? <==>
            1 <= |name| <= 64 &&
            (forall i | 0 <= i < |name| ::
               var c := name[i];
               'A' <= c <= 'Z' || 'a' <= c <= 'z' || '0' <= c <= '9' || c == '_' || c == '.' || c == '-') &&
            forall d | d in denied :: !EqIgnoreCase(d, name)
    ensures NameProblem(name, denied) == Some(Empty) <==> name == ""
    ensures NameProblem(name, denied) == Some(Denied) ==> exists d | d in denied :: EqIgnoreCase(d, name)
  {
    assert (forall c | c in name :: IsNameChar(c)) <==> forall i | 0 <= i < |name| :: IsNameChar(name[i]);
    assert IsDenied(name, denied) <==> exists d | d in denied :: EqIgnoreCase(d, name);
    ManyBytes(name);
    if forall c | c in name :: IsNameChar(c) {
      NameCharsArePlain(name);
    }
  }

  /** Ignoring case, two names are the same when each pair of characters is equal or the two cases
      of one ASCII letter. */
  lemma SameIgnoringCase(a: string, b: string)
    ensures EqIgnoreCase(a, b) <==>
            |a| == |b| &&
            forall i | 0 <= i < |a| ::
              a[i] == b[i] || ('A' <= a[i] <= 'Z' && b[i] as int == a[i] as int + 32) ||
              ('A' <= b[i] <= 'Z' && a[i] as int == b[i] as int + 32)
  {
    if |a| == |b| {
      assert forall i | 0 <= i < |a| ::
          Lower(a[i]) == Lower(b[i]) <==>
          (a[i] == b[i] || ('A' <= a[i] <= 'Z' && b[i] as int == a[i] as int + 32) ||
          ('A' <= b[i] <= 'Z' && a[i] as int == b[i] as int + 32));
    }
  }

  /** An accepted name never needs escaping: its serialized form is its own bytes, at most
      64 of them, so no name can smuggle a separator into a query string. */
  lemma AcceptedNameNeedsNoEscaping(name: string, denied: seq<string>)
    requires NameProblem(name, denied).None?
    ensures FormUrlencoded.SerializeBytes(Utf8.Encode(name)) == Utf8.Encode(name)
    ensures 1 <= |Utf8.Encode(name)| <= MAX_PARAM_NAME_LEN
  {
    NameCharsArePlain(name);
    FormUrlencoded.PlainBytesStay(Utf8.Encode(name));
  }
}
