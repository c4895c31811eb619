/**
 * Request authentication and the role gates. A request's bearer token is
 * decoded into a claims payload (decoding and signature checking are an
 * external library; the model receives their outcome), its `sub` claim is
 * converted to a user id the way Python's `int()` converts it, and the user
 * with that id is looked up. Every failure along the way is the same 401.
 * The gates then admit or refuse the authenticated user by role.
 */
module Dependencies {
  import opened Wrappers
  import opened Http
  import opened Models

  const CredentialsError := HttpError(Unauthorized, "Could not validate credentials")
  const LibrarianRequired := HttpError(Forbidden, "Not enough permissions. Librarian access required.")
  const MemberRequired := HttpError(Forbidden, "Not enough permissions. Member access required.")
  const AdminRequired := HttpError(Forbidden, "Not enough permissions. Admin access required.")

  /** A decoded JSON claim value. */
  datatype Claim = JNull | JBool(b: bool) | JInt(i: int) | JReal(r: real) | JString(s: string) | JOther

  /** The claims of a token that decoded. */
  type Payload = map<string, Claim>

  // ------------------------------------------------------- int() on strings

  predicate IsSpace(c: char) {
    || c == ' ' || c == '\t' || c == '\n' || c == '\r' || c == '\U{000B}' || c == '\U{000C}'
    || ('\U{001C}' <= c <= '\U{001F}')
  }

  predicate IsDigit(c: char) {
    '0' <= c <= '9'
  }

  function DigitValue(c: char): (d: nat)
    requires IsDigit(c)
    ensures d < 10
  {
    c as int - '0' as int
  }

  function DigitChar(d: nat): (c: char)
    requires d < 10
    ensures IsDigit(c) && DigitValue(c) == d
  {
    ('0' as int + d) as char
  }

  /** The string without its leading whitespace. */
  function TrimStart(s: string): (t: string)
    ensures t == [] || !IsSpace(t[0])
    ensures s == [] || !IsSpace(s[0]) ==> t == s
    decreases |s|
  {
    if s != [] && IsSpace(s[0]) then TrimStart(s[1..]) else s
  }

  /** The string without its trailing whitespace. */
  function TrimEnd(s: string): (t: string)
    ensures t == [] || !IsSpace(t[|t| - 1])
    ensures s == [] || !IsSpace(s[|s| - 1]) ==> t == s
    decreases |s|
  {
    if s != [] && IsSpace(s[|s| - 1]) then TrimEnd(s[..|s| - 1]) else s
  }

  /** The string without surrounding whitespace. */
  function Strip(s: string): string {
    TrimEnd(TrimStart(s))
  }

  predicate DigitsOrUnderscores(s: string) {
    forall i | 0 <= i < |s| :: IsDigit(s[i]) || s[i] == '_'
  }

  /** Decimal digits, possibly grouped by single underscores between digits. */
  predicate WellFormedDigits(s: string) {
    && |s| > 0 && IsDigit(s[0]) && IsDigit(s[|s| - 1])
    && DigitsOrUnderscores(s)
    && forall i | 0 <= i < |s| - 1 :: !(s[i] == '_' && s[i + 1] == '_')
  }

  /** The number the digits spell, underscores ignored. */
  function DigitsValue(s: string): nat
    requires DigitsOrUnderscores(s)
    decreases |s|
  {
    if s == [] then 0
    else
      var init := s[..|s| - 1];
      assert DigitsOrUnderscores(init) by {
        forall i | 0 <= i < |init| ensures IsDigit(init[i]) || init[i] == '_' {
          assert init[i] == s[i];
        }
      }
      if s[|s| - 1] == '_' then DigitsValue(init) else DigitsValue(init) * 10 + DigitValue(s[|s| - 1])
  }

  /** A string converted to an integer: surrounding whitespace, an optional sign, then digits. */
  function ParseInt(s: string): (r: Option<int>)
    ensures r.Some? <==>
      || WellFormedDigits(Strip(s))
      || (|Strip(s)| > 1 && (Strip(s)[0] == '+' || Strip(s)[0] == '-') && WellFormedDigits(Strip(s)[1..]))
    ensures WellFormedDigits(Strip(s)) ==> r == Some(DigitsValue(Strip(s)))
    ensures |Strip(s)| > 1 && Strip(s)[0] == '+' && WellFormedDigits(Strip(s)[1..]) ==>
      r == Some(DigitsValue(Strip(s)[1..]))
    ensures |Strip(s)| > 1 && Strip(s)[0] == '-' && WellFormedDigits(Strip(s)[1..]) ==>
      r == Some(-(DigitsValue(Strip(s)[1..]) as int))
  {
    var t := Strip(s);
    if |t| > 0 && (t[0] == '+' || t[0] == '-') then
      if WellFormedDigits(t[1..]) then
        var v: int := DigitsValue(t[1..]);
        Some(if t[0] == '-' then -v else v)
      else
        None
    else if WellFormedDigits(t) then
      assert t[0..] == t;
      Some(DigitsValue(t))
    else
      None
  }

  /** The decimal digits of a natural number, most significant first. */
  function ShowNat(n: nat): (s: string)
    ensures |s| > 0
    decreases n
  {
    if n < 10 then [DigitChar(n)] else ShowNat(n / 10) + [DigitChar(n % 10)]
  }

  /** The decimal form of an integer, with a minus sign when negative. */
  function ShowInt(n: int): string {
    if n < 0 then "-" + ShowNat(-n) else ShowNat(n)
  }

  /** The digits of `n` are well formed and spell `n`. */
  lemma {:induction false} ShowNatSpells(n: nat)
    ensures WellFormedDigits(ShowNat(n))
    ensures forall i | 0 <= i < |ShowNat(n)| :: IsDigit(ShowNat(n)[i])
    ensures DigitsValue(ShowNat(n)) == n
    decreases n
  {
    if n >= 10 {
      var init := ShowNat(n / 10);
      ShowNatSpells(n / 10);
      var s := ShowNat(n);
      assert s == init + [DigitChar(n % 10)];
      assert s[..|s| - 1] == init;
      forall i | 0 <= i < |s| ensures IsDigit(s[i]) {
        if i < |init| {
          assert s[i] == init[i];
        }
      }
    }
  }

  /** Converting an integer's decimal form back gives the integer. */
  lemma {:induction false} ParseShowInt(n: int)
    ensures ParseInt(ShowInt(n)) == Some(n)
  {
    var s := ShowInt(n);
    var digits := if n < 0 then ShowNat(-n) else ShowNat(n);
    ShowNatSpells(if n < 0 then -n else n);
    assert IsDigit(s[|s| - 1]) by {
      assert s[|s| - 1] == digits[|digits| - 1];
    }
    assert Strip(s) == s;
    if n < 0 {
      assert s[1..] == digits;
    }
  }

  // --------------------------------------------------------- the sub claim

  /** `int()` of a claim value: `None` where it raises. Reals truncate toward zero. */
  function ToInt(c: Claim): (r: Option<int>)
    ensures c.JInt? ==> r == Some(c.i)
    ensures c.JBool? ==> r == Some(if c.b then 1 else 0)
    ensures c.JString? ==> r == ParseInt(c.s)
    ensures c.JNull? || c.JOther? ==> r.None?
    ensures c.JReal? && c.r >= 0.0 ==> r.Some? && 0.0 <= c.r - r.value as real < 1.0
    ensures c.JReal? && c.r < 0.0 ==> r.Some? && -1.0 < c.r - r.value as real <= 0.0
  {
    match c
    case JNull => None
    case JBool(b) => Some(if b then 1 else 0)
    case JInt(i) => Some(i)
    case JReal(x) => Some(if x >= 0.0 then x.Floor else -((-x).Floor))
    case JString(s) => ParseInt(s)
    case JOther => None
  }

  /** The user id a payload names, if its `sub` claim is present, not null and convertible. */
  function SubjectId(payload: Payload): (id: Option<int>)
    ensures id.Some? ==> "sub" in payload && !payload["sub"].JNull?
  {
    if "sub" !in payload || payload["sub"].JNull? then None else ToInt(payload["sub"])
  }

  /**
   * The user a request authenticates as. `payload` is `None` when the token
   * did not decode. Every rejection is the same 401.
   */
  function GetCurrentUser(users: map<int, User>, payload: Option<Payload>): (r: Result<User, HttpError>)
    ensures r.Failure? ==> r.error == CredentialsError
    ensures payload.None? ==> r.Failure?
    ensures payload.Some? && ("sub" !in payload.value || payload.value["sub"].JNull?) ==> r.Failure?
    ensures r.Success? <==>
      payload.Some? && SubjectId(payload.value).Some? && SubjectId(payload.value).value in users
    ensures r.Success? ==> r.value == users[SubjectId(payload.value).value]
  {
    if payload.None? then Failure(CredentialsError)
    else
      var id := SubjectId(payload.value);
      if id.None? then Failure(CredentialsError)
      else if id.value !in users then Failure(CredentialsError)
      else Success(users[id.value])
  }

  /** A token whose subject is a stored user's id, as a number or as its decimal string, authenticates that user. */
  lemma TokenForUser(users: map<int, User>, id: int, payload: Payload)
    requires id in users
    requires "sub" in payload && (payload["sub"] == JInt(id) || payload["sub"] == JString(ShowInt(id)))
    ensures GetCurrentUser(users, Some(payload)) == Success(users[id])
  {
    ParseShowInt(id);
  }

  // --------------------------------------------------------------- gates

  /** Admits librarians and admins. */
  function GetCurrentLibrarian(u: User): (r: Result<User, HttpError>)
    ensures r.Success? <==> u.role == Librarian || u.role == Admin
    ensures r.Success? ==> r.value == u
    ensures r.Failure? ==> r.error == LibrarianRequired
  {
    if u.role != Librarian && u.role != Admin then Failure(LibrarianRequired) else Success(u)
  }

  /** Admits members only. */
  function GetCurrentMember(u: User): (r: Result<User, HttpError>)
    ensures r.Success? <==> u.role == Member
    ensures r.Success? ==> r.value == u
    ensures r.Failure? ==> r.error == MemberRequired
  {
    if u.role != Member then Failure(MemberRequired) else Success(u)
  }

  /** Admits admins only. */
  function GetCurrentAdmin(u: User): (r: Result<User, HttpError>)
    ensures r.Success? <==> u.role == Admin
    ensures r.Success? ==> r.value == u
    ensures r.Failure? ==> r.error == AdminRequired
  {
    if u.role != Admin then Failure(AdminRequired) else Success(u)
  }

  /** The member gate and the staff gate split the users between them: each user passes exactly one. */
  lemma MemberAndStaffGatesPartition(u: User)
    ensures GetCurrentMember(u).Success? <==> GetCurrentLibrarian(u).Failure?
  {
  }

  /** Whoever passes the admin gate passes the staff gate too. */
  lemma AdminIsStaff(u: User)
    ensures GetCurrentAdmin(u).Success? ==> GetCurrentLibrarian(u).Success?
  {
  }
}
