/** The login route and the two gates every protected route passes:
    `authenticate` (a valid bearer token, else 401) and `isAdmin` (the admin
    role, else 403). The JWT library is a pair of parameters: `sign` issues a
    token for a payload, `verify` returns the payload of a token it accepts. */
module Auth {
  import opened Basics
  import opened Tables

  /** The JWT payload: `{ id, username, role, enterprise_name }`. */
  datatype Claims = Claims(id: nat, username: string, role: Role, enterpriseName: string)

  /** The login response: the token and the user it was issued for. */
  datatype Session = Session(token: string, user: Claims)

  function ClaimsOf(u: User): (c: Claims)
    ensures c.id == u.id && c.username == u.username && c.role == u.role && c.enterpriseName == u.enterpriseName
  {
    Claims(u.id, u.username, u.role, u.enterpriseName)
  }

  /** The first position of `c` in `s`. */
  function IndexOf(s: string, c: char): (r: Option<nat>)
    ensures r.None? <==> c !in s
    ensures r.Some? ==> r.value < |s| && s[r.value] == c && c !in s[..r.value]
  {
    if s == [] then None
    else if s[0] == c then Some(0)
    else
      var r := IndexOf(s[1..], c);
      if r.None? then None
      else
        assert s[..r.value + 1] == [s[0]] + s[1..][..r.value];
        Some(r.value + 1)
  }

  /** `req.headers.authorization?.split(' ')[1]`: the second space-separated
      field of the header, absent when the header is absent or has no space. */
  function BearerToken(header: Option<string>): (r: Option<string>)
    ensures header.None? ==> r.None?
    ensures header.Some? ==> (r.None? <==> ' ' !in header.value)
    ensures r.Some? ==> ' ' !in r.value
  {
    if header.None? then None
    else
      var h := header.value;
      match IndexOf(h, ' ')
      case None => None
      case Some(i) =>
        var rest := h[i + 1..];
        match IndexOf(rest, ' ')
        case None => Some(rest)
        case Some(j) => Some(rest[..j])
  }

  /** `Bearer <token>` yields the token, whatever follows a further space. */
  lemma BearerTokenOf(scheme: string, token: string, rest: Option<string>)
    requires ' ' !in scheme && ' ' !in token
    ensures var h := if rest.Some? then scheme + " " + token + " " + rest.value else scheme + " " + token;
            BearerToken(Some(h)) == Some(token)
  {
    var h := if rest.Some? then scheme + " " + token + " " + rest.value else scheme + " " + token;
    assert h[..|scheme|] == scheme && h[|scheme|] == ' ';
    assert IndexOf(h, ' ') == Some(|scheme|);
    var after := h[|scheme| + 1..];
    if rest.Some? {
      assert after == token + " " + rest.value;
      assert after[..|token|] == token && after[|token|] == ' ';
      assert IndexOf(after, ' ') == Some(|token|);
      assert after[..|token|] == token;
    } else {
      assert after == token;
    }
  }

  /** The `authenticate` middleware. */
  function Authenticate(header: Option<string>, verify: string -> Option<Claims>): (r: Result<Claims, Error>)
    ensures r == Err(Unauthorized) <==> !Truthy(BearerToken(header))
    ensures r == Err(InvalidToken) <==> Truthy(BearerToken(header)) && verify(BearerToken(header).value).None?
    ensures r.Ok? ==> Truthy(BearerToken(header)) && verify(BearerToken(header).value) == Some(r.value)
    ensures r.Err? ==> r.error == Unauthorized || r.error == InvalidToken
  {
    var token := BearerToken(header);
    if !Truthy(token) then Err(Unauthorized)
    else
      match verify(token.value)
      case None => Err(InvalidToken)
      case Some(c) => Ok(c)
  }

  /** The `isAdmin` middleware, on the payload `authenticate` stored. */
  function RequireAdmin(c: Claims): (r: Result<Claims, Error>)
    ensures r.Ok? <==> c.role == Admin
    ensures r.Ok? ==> r.value == c
    ensures r.Err? ==> r.error == Forbidden
  {
    if c.role != Admin then Err(Forbidden) else Ok(c)
  }

  /** `authenticate, isAdmin` in front of an admin route: the first failing
      gate decides the response. */
  function AdminGate(header: Option<string>, verify: string -> Option<Claims>): (r: Result<Claims, Error>)
    ensures Authenticate(header, verify).Err? ==> r == Authenticate(header, verify)
    ensures Authenticate(header, verify).Ok? ==> r == RequireAdmin(Authenticate(header, verify).value)
  {
    match Authenticate(header, verify)
    case Err(e) => Err(e)
    case Ok(c) => RequireAdmin(c)
  }

  /** An admin route admits a request exactly when its token verifies to an
      admin payload; a request with no token gets 401 before any role check. */
  lemma AdminGateAdmits(header: Option<string>, verify: string -> Option<Claims>)
    ensures AdminGate(header, verify).Ok? <==>
              Truthy(BearerToken(header)) && verify(BearerToken(header).value).Some?
              && verify(BearerToken(header).value).value.role == Admin
    ensures AdminGate(header, verify).Ok? ==> AdminGate(header, verify).value.role == Admin
    ensures !Truthy(BearerToken(header)) ==> StatusCode(AdminGate(header, verify).error) == 401
  {
  }

  /** `POST /api/login`: the first row with the username, and a password that
      matches its hash; both failures give the same 401. */
  function Login(us: seq<User>, username: string, password: string,
                 compare: (string, string) -> bool, sign: Claims -> string): (r: Result<Session, Error>)
    ensures r.Err? ==> r.error == InvalidCredentials
    ensures (forall u :: u in us ==> u.username != username) ==> r.Err?
    ensures r.Ok? ==> exists u :: u in us && u.username == username && compare(password, u.password)
                                  && r.value == Session(sign(ClaimsOf(u)), ClaimsOf(u))
  {
    match FindByUsername(us, username)
    case None => Err(InvalidCredentials)
    case Some(u) =>
      if !compare(password, u.password) then Err(InvalidCredentials)
      else Ok(Session(sign(ClaimsOf(u)), ClaimsOf(u)))
  }

  /** With unique usernames, logging in as an existing user succeeds exactly
      when the password matches that user's hash, and then yields that user. */
  lemma LoginChecksPassword(us: seq<User>, u: User, password: string,
                            compare: (string, string) -> bool, sign: Claims -> string)
    requires UniqueUsernames(us) && u in us
    ensures Login(us, u.username, password, compare, sign).Ok? <==> compare(password, u.password)
    ensures Login(us, u.username, password, compare, sign).Ok? ==>
              Login(us, u.username, password, compare, sign).value.user == ClaimsOf(u)
  {
    UsernameLookup(us, u);
  }

  /** A newly inserted account can log in with the password whose hash was stored. */
  lemma LoginAfterInsert(us: seq<User>, u: User, password: string, hash: string -> string,
                         compare: (string, string) -> bool, sign: Claims -> string)
    requires FindByUsername(us, u.username).None?
    requires u.password == hash(password) && compare(password, hash(password))
    ensures Login(us + [u], u.username, password, compare, sign) == Ok(Session(sign(ClaimsOf(u)), ClaimsOf(u)))
  {
    FindConcat(us, [u], HasUsername(u.username));
  }

  /** A deleted account can no longer log in, whatever the password. */
  lemma LoginAfterDelete(us: seq<User>, u: User, password: string,
                         compare: (string, string) -> bool, sign: Claims -> string)
    requires UniqueUsernames(us) && u in us
    ensures Login(UsersWithout(us, u.id), u.username, password, compare, sign) == Err(InvalidCredentials)
  {
    var rest := UsersWithout(us, u.id);
    var j :| 0 <= j < |us| && us[j] == u;
    forall w | w in rest ensures w.username != u.username {
      var i :| 0 <= i < |us| && us[i] == w;
      assert us[i] != us[j];
      UsernamesDistinct(us, i, j);
    }
  }

  /** A token from a successful login opens the routes its role allows, given
      that `verify` accepts what `sign` issued and JWTs contain no spaces. */
  lemma SessionAuthenticates(us: seq<User>, username: string, password: string,
                             compare: (string, string) -> bool, sign: Claims -> string,
                             verify: string -> Option<Claims>)
    requires Login(us, username, password, compare, sign).Ok?
    requires forall c :: verify(sign(c)) == Some(c)
    requires forall c :: sign(c) != "" && ' ' !in sign(c)
    ensures var s := Login(us, username, password, compare, sign).value;
            && Authenticate(Some("Bearer " + s.token), verify) == Ok(s.user)
            && (AdminGate(Some("Bearer " + s.token), verify).Ok? <==> s.user.role == Admin)
  {
    var s := Login(us, username, password, compare, sign).value;
    BearerTokenOf("Bearer", s.token, None);
    assert "Bearer" + " " + s.token == "Bearer " + s.token;
    assert verify(sign(s.user)) == Some(s.user);
  }
}
