/** The user service (user/app.py): the user collection and the four routes that
    read or change it. Password hashing and token issuing/decoding are foreign
    libraries; they enter as the function fields of `Crypto`. */
module UserService {
  import opened Common
  import Identity

  datatype User = User(
    id: Id,
    username: Option<string>,
    email: Option<string>,
    password: string,        // the stored hash
    token: Option<string>)   // the server-side mirror of the last issued token

  /** `generate_password_hash`, `check_password_hash`, the `sub` claim of
      `decode_token` (`None` when decoding raises), `create_access_token`. */
  datatype Crypto = Crypto(
    hash: string -> string,
    checkHash: (string, string) -> bool,
    decode: string -> Option<Id>,
    issue: Id -> string)

  /** A JSON body's `username`, `email` and `password` fields, each possibly absent. */
  datatype Credentials = Credentials(username: Option<string>, email: Option<string>, password: Option<string>)

  datatype Body =
    | Message(text: string)
    | Profile(who: Identity.Who)
    | AccessToken(token: string)
    | ServerError   // an exception nothing catches: the framework answers 500

  datatype Response = Response(status: int, body: Body, users: seq<User>)

  function UserKey(u: User): Id { u.id }

  /** `_id` is unique in the collection. */
  predicate Valid(users: seq<User>) {
    DistinctKeys(users, UserKey)
  }

  predicate HasEmail(users: seq<User>, email: Option<string>) {
    exists i :: 0 <= i < |users| && users[i].email == email
  }

  /** `find_one({"username": ...})`: the position of the first user with that name. */
  function FindByUsername(users: seq<User>, name: Option<string>): (r: Option<nat>)
    ensures r.Some? ==> r.value < |users| && users[r.value].username == name
    ensures r.Some? ==> forall j :: 0 <= j < r.value ==> users[j].username != name
    ensures r.None? ==> forall j :: 0 <= j < |users| ==> users[j].username != name
  {
    FirstMatch(users, (u: User) => u.username == name)
  }

  /** `find_one({"_id": id})`: the first user with that id. */
  function FindById(users: seq<User>, id: Id): (r: Option<User>)
    ensures r.Some? <==> exists i :: 0 <= i < |users| && users[i].id == id
    ensures r.Some? ==> r.value in users && r.value.id == id
  {
    match FirstMatch(users, (u: User) => u.id == id)
    case Some(k) => Some(users[k])
    case None => None
  }

  /** `update_one({"_id": id}, {"$set": {"token": token}})`: with `_id` unique,
      the one record with that id gets the token, and an absent id changes nothing. */
  function SetToken(users: seq<User>, id: Id, token: Option<string>): (r: seq<User>)
    ensures |r| == |users|
    ensures forall i :: 0 <= i < |users| && users[i].id == id ==> r[i] == users[i].(token := token)
    ensures forall i :: 0 <= i < |users| && users[i].id != id ==> r[i] == users[i]
  {
    seq(|users|, i requires 0 <= i < |users| => if users[i].id == id then users[i].(token := token) else users[i])
  }

  /** GET /user_id: the identity behind the `auth-token` header. */
  function UserId(users: seq<User>, header: Option<string>, crypto: Crypto): (r: Response)
    ensures r.users == users
    ensures r.status == BadRequest <==> !HeaderPresent(header)
    ensures r.status == Unauthorized <==> HeaderPresent(header) && crypto.decode(header.value).None?
    ensures r.status == OK <==>
      HeaderPresent(header) && crypto.decode(header.value).Some?
      && exists i :: 0 <= i < |users| && users[i].id == crypto.decode(header.value).value
    ensures r.status == NotFound <==>
      HeaderPresent(header) && crypto.decode(header.value).Some?
      && forall i :: 0 <= i < |users| ==> users[i].id != crypto.decode(header.value).value
    ensures r.status == OK ==>
      && r.body.Profile?
      && exists u :: u in users && u.id == crypto.decode(header.value).value
           && r.body.who == Identity.Who(u.id, u.username, u.email)
  {
    if !HeaderPresent(header) then Response(BadRequest, Message("Token is missing"), users)
    else match crypto.decode(header.value)
      case None => Response(Unauthorized, Message("Invalid token"), users)
      case Some(id) =>
        match FindById(users, id)
        case Some(u) => Response(OK, Profile(Identity.Who(u.id, u.username, u.email)), users)
        case None => Response(NotFound, Message("User not found"), users)
  }

  /** POST /signup. */
  function Signup(users: seq<User>, data: Option<Credentials>, crypto: Crypto): (r: Response)
    ensures r.status == InternalError <==>
      data.None? || (!HasEmail(users, data.value.email) && data.value.password.None?)
    ensures r.status == Conflict <==> data.Some? && HasEmail(users, data.value.email)
    ensures r.status == Created <==>
      data.Some? && !HasEmail(users, data.value.email) && data.value.password.Some?
    ensures r.status != Created ==> r.users == users
    ensures r.status == Created ==>
      |r.users| == |users| + 1 && r.users[..|users|] == users
      && var u := r.users[|users|];
         && u.username == data.value.username
         && u.email == data.value.email
         && u.password == crypto.hash(data.value.password.value)
         && u.token == None
         && forall i :: 0 <= i < |users| ==> users[i].id != u.id
  {
    if data.None? then Response(InternalError, ServerError, users)
    else if HasEmail(users, data.value.email) then Response(Conflict, Message("Email already exists"), users)
    else if data.value.password.None? then Response(InternalError, ServerError, users)
    else
      var u := User(NextId(users, UserKey), data.value.username, data.value.email,
                    crypto.hash(data.value.password.value), None);
      assert (users + [u])[..|users|] == users;
      Response(Created, Message("User created successfully"), users + [u])
  }

  /** POST /signin. */
  function Signin(users: seq<User>, data: Option<Credentials>, crypto: Crypto): (r: Response)
    ensures r.status in {OK, Unauthorized, InternalError}
    ensures r.status != OK ==> r.users == users
    ensures r.status == Unauthorized ==> r.body == Message("Invalid username or password")
    ensures r.status == InternalError <==>
      data.None? || (FindByUsername(users, data.value.username).Some? && data.value.password.None?)
    ensures r.status == Unauthorized <==>
      data.Some?
      && var k := FindByUsername(users, data.value.username);
         || k.None?
         || (data.value.password.Some? && !crypto.checkHash(users[k.value].password, data.value.password.value))
    ensures r.status == OK <==>
      data.Some? && data.value.password.Some?
      && var k := FindByUsername(users, data.value.username);
         k.Some? && crypto.checkHash(users[k.value].password, data.value.password.value)
    ensures r.status == OK ==>
      var u := users[FindByUsername(users, data.value.username).value];
      r.body == AccessToken(crypto.issue(u.id))
      && r.users == SetToken(users, u.id, Some(crypto.issue(u.id)))
  {
    if data.None? then Response(InternalError, ServerError, users)
    else match FindByUsername(users, data.value.username)
      case None => Response(Unauthorized, Message("Invalid username or password"), users)
      case Some(k) =>
        if data.value.password.None? then Response(InternalError, ServerError, users)
        else if crypto.checkHash(users[k].password, data.value.password.value) then
          var token := crypto.issue(users[k].id);
          Response(OK, AccessToken(token), SetToken(users, users[k].id, Some(token)))
        else Response(Unauthorized, Message("Invalid username or password"), users)
  }

  /** POST /logout: clears the stored token of the user the header names. */
  function Logout(users: seq<User>, header: Option<string>, crypto: Crypto): (r: Response)
    ensures r.status == BadRequest <==> !HeaderPresent(header)
    ensures r.status == Unauthorized <==> HeaderPresent(header) && crypto.decode(header.value).None?
    ensures r.status == OK <==> HeaderPresent(header) && crypto.decode(header.value).Some?
    ensures r.status != OK ==> r.users == users
    ensures r.status == OK ==> r.users == SetToken(users, crypto.decode(header.value).value, None)
  {
    if !HeaderPresent(header) then Response(BadRequest, Message("Token is missing"), users)
    else match crypto.decode(header.value)
      case None => Response(Unauthorized, Message("Invalid token"), users)
      case Some(id) => Response(OK, Message("Logged out successfully"), SetToken(users, id, None))
  }

  /** Every route keeps `_id` unique. */
  lemma RoutesKeepValid(users: seq<User>, data: Option<Credentials>, header: Option<string>, crypto: Crypto)
    requires Valid(users)
    ensures Valid(Signup(users, data, crypto).users)
    ensures Valid(Signin(users, data, crypto).users)
    ensures Valid(Logout(users, header, crypto).users)
  {
  }

  /** Sign-in changes exactly one record, the signed-in user's, and only its token,
      when `_id` is unique. */
  lemma SigninTouchesOnlySignedInUser(users: seq<User>, data: Option<Credentials>, crypto: Crypto)
    requires Valid(users)
    requires Signin(users, data, crypto).status == OK
    ensures var k := FindByUsername(users, data.value.username).value;
      var r := Signin(users, data, crypto).users;
      && |r| == |users|
      && r[k] == users[k].(token := Some(crypto.issue(users[k].id)))
      && forall j :: 0 <= j < |users| && j != k ==> r[j] == users[j]
  {
  }
}
