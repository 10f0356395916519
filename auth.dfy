/** `loginUser`: the checks a login request goes through, and the token it
    writes into the `users` table when they all pass. */
module Auth {
  import opened JsValues

  /** The payload a token is signed over: `{ id, email }`. */
  datatype Claims = Claims(id: int, email: string)

  /** A row of `users`. `token` is null until the user first logs in. */
  datatype User = User(id: int, email: string, password: string, token: Option<string>)

  /** SQL `email = ?` under the table's collation: a parameter of the model,
      not defined here. */
  type EmailMatch = (string, Value) -> bool

  /** `jwt.sign(claims, SECRET_KEY, { expiresIn: "1h" })`: a parameter of the
      model, not defined here (it also reads the clock). */
  type Signer = Claims -> string

  /** Where the store can fail: the SELECT, or the signing and the UPDATE. */
  datatype Fault = NoFault | LookupFails | UpdateFails

  /** The outcome of the guard chain, before any writing. */
  datatype Decision =
    | MissingCredentials
    | WrongEmail
    | WrongPassword
    | Accept(index: nat)

  datatype LoginReply =
    | Rejected(status: int, message: string)
    | LoggedIn(message: string, token: string, redirect: string)

  const Redirect := "/insights_news"

  /** The first row, in scan order, at or after `from` whose email matches;
      `results[0]` of the SELECT when `from` is 0. */
  function FirstMatch(users: seq<User>, email: Value, same: EmailMatch, from: nat): (r: Option<nat>)
    requires from <= |users|
    ensures r.Some? ==> from <= r.value < |users| && same(users[r.value].email, email)
    ensures r.Some? ==> forall j :: from <= j < r.value ==> !same(users[j].email, email)
    ensures r.None? ==> forall j :: from <= j < |users| ==> !same(users[j].email, email)
    decreases |users| - from
  {
    if from == |users| then None
    else if same(users[from].email, email) then Some(from)
    else FirstMatch(users, email, same, from + 1)
  }

  /** The guard chain of `loginUser`: both fields must be truthy, some row
      must have the email, and the password must be the very string stored
      in the first such row. */
  function Decide(users: seq<User>, email: Value, password: Value, same: EmailMatch): (d: Decision)
    ensures d == MissingCredentials <==> !Truthy(email) || !Truthy(password)
    ensures d == WrongEmail <==>
      Truthy(email) && Truthy(password) && forall j :: 0 <= j < |users| ==> !same(users[j].email, email)
    ensures d.Accept? ==>
      && d.index < |users|
      && same(users[d.index].email, email)
      && (forall j :: 0 <= j < d.index ==> !same(users[j].email, email))
      && password == Str(users[d.index].password)
    ensures d == WrongPassword ==>
      exists i :: 0 <= i < |users| && same(users[i].email, email)
        && (forall j :: 0 <= j < i ==> !same(users[j].email, email))
        && password != Str(users[i].password)
  {
    if !Truthy(email) || !Truthy(password) then MissingCredentials
    else
      match FirstMatch(users, email, same, 0)
      case None => WrongEmail
      case Some(i) => if password == Str(users[i].password) then Accept(i) else WrongPassword
  }

  /** The password check is strict equality: only the stored string itself
      is accepted, never a number or another value that coerces to it. */
  lemma OnlyTheStoredStringIsAccepted(users: seq<User>, email: Value, password: Value, same: EmailMatch)
    requires Decide(users, email, password, same).Accept?
    ensures password.Str?
    ensures password.s == users[Decide(users, email, password, same).index].password
  {
  }

  /** `UPDATE users SET token = ? WHERE id = ?`: every row with that id gets
      the token; every other row, and every other column, is unchanged. */
  function SetToken(users: seq<User>, id: int, token: string): (r: seq<User>)
    ensures |r| == |users|
    ensures forall k :: 0 <= k < |r| ==>
      && r[k].id == users[k].id && r[k].email == users[k].email && r[k].password == users[k].password
      && r[k].token == (if users[k].id == id then Some(token) else users[k].token)
  {
    seq(|users|, k requires 0 <= k < |users| =>
      if users[k].id == id then users[k].(token := Some(token)) else users[k])
  }

  /** Writing a token touches only the rows with that id. */
  lemma SetTokenFrame(users: seq<User>, id: int, token: string, k: int)
    requires 0 <= k < |users| && users[k].id != id
    ensures SetToken(users, id, token)[k] == users[k]
  {
  }

  /** Logging in twice leaves only the second token. */
  lemma SetTokenTwice(users: seq<User>, id: int, t1: string, t2: string)
    ensures SetToken(SetToken(users, id, t1), id, t2) == SetToken(users, id, t2)
  {
    var a, b := SetToken(SetToken(users, id, t1), id, t2), SetToken(users, id, t2);
    assert forall k :: 0 <= k < |a| ==> a[k] == b[k];
  }

  /** The answer to a request the guard chain refuses: 400 for missing
      fields, 401 for a wrong email or password, each with its own message. */
  function Reject(d: Decision): (r: LoginReply)
    requires !d.Accept?
    ensures r.Rejected?
    ensures r.status == 400 <==> d == MissingCredentials
    ensures r.status == 401 <==> d == WrongEmail || d == WrongPassword
    ensures d == WrongEmail <==> r.message == "Wrong email entered"
    ensures d == WrongPassword <==> r.message == "Wrong password entered"
  {
    match d
    case MissingCredentials => Rejected(400, "Email and password are required")
    case WrongEmail => Rejected(401, "Wrong email entered")
    case WrongPassword => Rejected(401, "Wrong password entered")
    case Accept(_) => assert false; ServerError
  }

  const ServerError := Rejected(500, "Server error")

  class UserTable {
    /** `users`, in the order a full scan returns them. */
    var users: seq<User>
    const same: EmailMatch
    const sign: Signer

    constructor(users: seq<User>, same: EmailMatch, sign: Signer)
      ensures this.users == users && this.same == same && this.sign == sign
    {
      this.users := users;
      this.same := same;
      this.sign := sign;
    }

    /** `loginUser`. Missing fields are answered 400, an unknown email and a
        wrong password 401, each without writing anything; a store failure
        is answered 500 and writes nothing. On success the token signed over
        the first matching row's id and email is written into the rows with
        that id, and the same token is returned with the redirect. */
    method Login(email: Value, password: Value, fault: Fault) returns (reply: LoginReply)
      modifies this
      ensures var d := Decide(old(users), email, password, same);
        && (d == MissingCredentials ==> reply == Reject(d) && users == old(users))
        && (d != MissingCredentials && fault == LookupFails ==> reply == ServerError && users == old(users))
        && (d == WrongEmail && fault != LookupFails ==> reply == Reject(d) && users == old(users))
        && (d == WrongPassword && fault != LookupFails ==> reply == Reject(d) && users == old(users))
        && (d.Accept? && fault == UpdateFails ==> reply == ServerError && users == old(users))
        && (d.Accept? && fault == NoFault ==>
              var u := old(users)[d.index];
              var token := sign(Claims(u.id, u.email));
              && reply == LoggedIn("Login successful", token, Redirect)
              && users == SetToken(old(users), u.id, token)
              && users[d.index].token == Some(token))
    {
      if !Truthy(email) || !Truthy(password) {
        return Reject(MissingCredentials);
      }
      if fault == LookupFails {
        return ServerError;
      }
      var found := FirstMatch(users, email, same, 0);
      if found.None? {
        return Reject(WrongEmail);
      }
      var user := users[found.value];
      if password != Str(user.password) {
        return Reject(WrongPassword);
      }
      var token := sign(Claims(user.id, user.email));
      if fault == UpdateFails {
        return ServerError;
      }
      users := SetToken(users, user.id, token);
      reply := LoggedIn("Login successful", token, Redirect);
    }
  }
}
