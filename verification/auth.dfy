/** The login handler: a fixed credential table, the 400 / 401 checks, and the
    identity payload a token would carry. Signing the token is not modelled. */
module Auth {
  import opened Wrappers

  datatype Role = Admin | Normal | Limited

  datatype User = User(id: int, username: string, password: string, role: Role)

  /** The credential table, in lookup order. */
  const Users: seq<User> := [
    User(1, "admin", "password", Admin),
    User(2, "normal", "password", Normal),
    User(3, "limited", "password", Limited)
  ]

  /** A field of the parsed JSON body as JavaScript sees it: absent, a string,
      or some other JSON value, which is truthy or not but never `===` a string. */
  datatype Field = Missing | Str(s: string) | NonString(truthy: bool)

  /** JavaScript truthiness of a body field: `undefined`, `""`, `0`, `false`
      and `null` are falsy. */
  predicate Truthy(f: Field) {
    match f
    case Missing => false
    case Str(s) => s != ""
    case NonString(t) => t
  }

  datatype Body = Body(username: Field, password: Field)

  /** The identity a successful login signs: nothing but these three fields. */
  datatype Payload = Payload(id: int, username: string, role: Role)

  datatype LoginResult = BadRequest | Unauthorized | Authenticated(payload: Payload)

  /** Strict equality on both fields. */
  predicate Matches(u: User, username: Field, password: Field) {
    username == Str(u.username) && password == Str(u.password)
  }

  function PayloadOf(u: User): Payload {
    Payload(u.id, u.username, u.role)
  }

  /** `users.find`: the index of the first user matching both fields. */
  function FindUser(users: seq<User>, username: Field, password: Field): (r: Option<nat>)
    ensures r.Some? ==> r.value < |users| && Matches(users[r.value], username, password)
    ensures r.Some? ==> forall j :: 0 <= j < r.value ==> !Matches(users[j], username, password)
    ensures r.None? ==> forall j :: 0 <= j < |users| ==> !Matches(users[j], username, password)
  {
    if |users| == 0 then None
    else if Matches(users[0], username, password) then Some(0)
    else
      match FindUser(users[1..], username, password)
      case None => None
      case Some(k) => Some(k + 1)
  }

  /** The POST handler. A missing body reads as an empty one. */
  function Login(body: Option<Body>): (r: LoginResult)
    ensures var b := body.GetOr(Body(Missing, Missing));
            r.BadRequest? <==> !Truthy(b.username) || !Truthy(b.password)
    ensures var b := body.GetOr(Body(Missing, Missing));
            r.Unauthorized? <==>
              && Truthy(b.username) && Truthy(b.password)
              && forall i :: 0 <= i < |Users| ==> !Matches(Users[i], b.username, b.password)
    ensures var b := body.GetOr(Body(Missing, Missing));
            r.Authenticated? ==>
              exists i :: && 0 <= i < |Users|
                          && Matches(Users[i], b.username, b.password)
                          && r.payload == PayloadOf(Users[i])
                          && forall j :: 0 <= j < i ==> !Matches(Users[j], b.username, b.password)
  {
    var b := body.GetOr(Body(Missing, Missing));
    if !Truthy(b.username) || !Truthy(b.password) then BadRequest
    else
      match FindUser(Users, b.username, b.password)
      case None => Unauthorized
      case Some(i) => Authenticated(PayloadOf(Users[i]))
  }

  /** The table has three users with ids 1 to 3, one per role, and no two share
      a username. */
  lemma CredentialTable()
    ensures |Users| == 3
    ensures forall i :: 0 <= i < |Users| ==> Users[i].id == i + 1
    ensures forall i, j :: 0 <= i < j < |Users| ==> Users[i].username != Users[j].username
    ensures Users[0].role == Admin && Users[1].role == Normal && Users[2].role == Limited
  {
  }

  /** Because usernames are distinct, at most one user matches any request, so
      the first match is the only one and the lookup does not depend on order. */
  lemma MatchIsUnique(username: Field, password: Field, i: nat, j: nat)
    requires i < |Users| && j < |Users|
    requires Matches(Users[i], username, password)
    requires Matches(Users[j], username, password)
    ensures i == j
  {
    CredentialTable();
  }

  /** A successful login carries the id, name and role of a table entry, so it is
      one of exactly three identities. */
  lemma LoginIdentities(body: Option<Body>)
    ensures Login(body).Authenticated? ==>
      Login(body).payload in {Payload(1, "admin", Admin), Payload(2, "normal", Normal), Payload(3, "limited", Limited)}
  {
  }

  /** Each table entry can log in with its own credentials and gets its own payload. */
  lemma {:induction false} EveryUserCanLogIn(i: nat)
    requires i < |Users|
    ensures Login(Some(Body(Str(Users[i].username), Str(Users[i].password)))) == Authenticated(PayloadOf(Users[i]))
  {
    var b := Body(Str(Users[i].username), Str(Users[i].password));
    var r := Login(Some(b));
    assert Matches(Users[i], b.username, b.password);
    var k :| 0 <= k < |Users| && Matches(Users[k], b.username, b.password) && r.payload == PayloadOf(Users[k]);
    MatchIsUnique(b.username, b.password, i, k);
  }

  /** A right username with a wrong password authenticates nobody, and a right
      password under the wrong username does not authenticate that user. */
  lemma OneFieldIsNotEnough(b: Body, i: nat)
    requires i < |Users|
    requires b.username == Str(Users[i].username) || b.password == Str(Users[i].password)
    requires !Matches(Users[i], b.username, b.password)
    ensures Login(Some(b)) != Authenticated(PayloadOf(Users[i]))
    ensures b.username == Str(Users[i].username) ==> !Login(Some(b)).Authenticated?
  {
    CredentialTable();
    var r := Login(Some(b));
    if r.Authenticated? {
      var k :| 0 <= k < |Users| && Matches(Users[k], b.username, b.password) && r.payload == PayloadOf(Users[k]);
      assert k != i;
      assert r.payload.id != PayloadOf(Users[i]).id;
    }
  }
}
