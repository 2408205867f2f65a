/**
 * The users table: registration (POST `/register`) and authentication (POST `/login`).
 * bcrypt stays outside the model: its hash arrives as a parameter and its comparison
 * routine as the predicate `verify`.
 */
module Accounts {
  import opened Wrappers
  import opened Tables

  /** One entry of `users_table`. */
  datatype User = User(id: string, username: string, hashed_password: string, created_at: string)

  function Usernames(users: seq<User>): seq<string> {
    seq(|users|, i requires 0 <= i < |users| => users[i].username)
  }

  /** The table invariant: no two accounts share a username. */
  predicate UsernamesUnique(users: seq<User>) {
    Distinct(Usernames(users))
  }

  /** `users_table.find(user => user.username === username)`, as the index of the account found. */
  function FindUser(users: seq<User>, username: string): (r: Option<nat>)
    ensures r.Some? ==> r.value < |users| && users[r.value].username == username &&
                        forall j | 0 <= j < r.value :: users[j].username != username
    ensures r.None? <==> forall j | 0 <= j < |users| :: users[j].username != username
  {
    var r := IndexOf(Usernames(users), username);
    assert r.Some? ==> forall j | 0 <= j < r.value :: Usernames(users)[..r.value][j] == users[j].username;
    assert r.None? ==> forall j | 0 <= j < |users| :: Usernames(users)[j] == users[j].username;
    r
  }

  /** The answers of POST `/register`: 400 "User already exists", 500 "Error hashing password", or success. */
  datatype RegisterOutcome = UserExists | HashFailed | Registered

  datatype Registration = Registration(outcome: RegisterOutcome, users: seq<User>)

  /**
   * POST `/register`. `hashed` is what bcrypt.hash delivered (None: it reported an error);
   * `id` and `now` stand for nanoid() and the ISO timestamp.
   */
  function RegisterTable(users: seq<User>, username: string, hashed: Option<string>, id: string, now: string): (r: Registration)
    ensures r.outcome == UserExists <==> username in Usernames(users)
    ensures r.outcome == Registered <==> username !in Usernames(users) && hashed.Some?
    ensures r.outcome != Registered ==> r.users == users
    ensures r.outcome == Registered ==> r.users == users + [User(id, username, hashed.value, now)]
    ensures UsernamesUnique(users) ==> UsernamesUnique(r.users)
  {
    if FindUser(users, username).Some? then Registration(UserExists, users)
    else match hashed
      case None => Registration(HashFailed, users)
      case Some(hash) =>
        var added := users + [User(id, username, hash, now)];
        assert Usernames(added) == Usernames(users) + [username];
        if UsernamesUnique(users) then DistinctAppend(Usernames(users), username); Registration(Registered, added)
        else Registration(Registered, added)
  }

  /** The answers of POST `/login`: 400 "User not found", 400 "Invalid password", or the dashboard. */
  datatype LoginOutcome = UserNotFound | InvalidPassword | LoggedIn

  /**
   * POST `/login`: the first account with the username decides, through bcrypt's comparison
   * `verify(password, hashed_password)`; a comparison error yields a falsy result, as a mismatch does.
   */
  function Authenticate(users: seq<User>, username: string, password: string, verify: (string, string) -> bool): (r: LoginOutcome)
    ensures r == UserNotFound <==> username !in Usernames(users)
    ensures r == LoggedIn <==> exists i | 0 <= i < |users| ::
      users[i].username == username && FindUser(users, username) == Some(i) && verify(password, users[i].hashed_password)
  {
    match FindUser(users, username)
    case None => UserNotFound
    case Some(i) => if verify(password, users[i].hashed_password) then LoggedIn else InvalidPassword
  }

  /** After a successful registration, logging in checks the password against the new account's hash. */
  lemma RegisterThenAuthenticate(users: seq<User>, username: string, hash: string, id: string, now: string,
                                 password: string, verify: (string, string) -> bool)
    requires username !in Usernames(users)
    ensures var r := RegisterTable(users, username, Some(hash), id, now);
      r.outcome == Registered &&
      Authenticate(r.users, username, password, verify) == if verify(password, hash) then LoggedIn else InvalidPassword
  {
    var added := users + [User(id, username, hash, now)];
    assert Usernames(added) == Usernames(users) + [username];
    IndexOfAppend(Usernames(users), username, username);
  }

  /** A username that is taken, or that registered successfully, is refused the next time. */
  lemma RegisterTwiceRejected(users: seq<User>, username: string, hashed: Option<string>, id: string, now: string,
                              hashed': Option<string>, id': string, now': string)
    ensures var r1 := RegisterTable(users, username, hashed, id, now);
      var r2 := RegisterTable(r1.users, username, hashed', id', now');
      r1.outcome != HashFailed ==> r2.outcome == UserExists && r2.users == r1.users
  {
    var r1 := RegisterTable(users, username, hashed, id, now);
    if r1.outcome == Registered {
      assert Usernames(r1.users) == Usernames(users) + [username];
    }
  }
}
