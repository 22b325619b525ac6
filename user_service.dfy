/** The user service: registration of a new account, guarded by the
    uniqueness of the email, with the first session token of the account. */
module UserService {
  import opened Records
  import opened Db

  /** The stored row for a registration: the input fields, the password
      replaced by its hash, and the role of an ordinary user. */
  function NewUser(id: Id, input: UserInput, hash: string -> string): (u: User)
    ensures u.id == id && u.role == "U" && u.password == hash(input.password)
    ensures u.name == input.name && u.userName == input.userName && u.email == input.email
  {
    User(id, input.name, input.userName, input.email, hash(input.password), "U")
  }

  /** Adding a user whose email nobody has keeps emails unique. */
  lemma InsertKeepsUniqueEmails(users: map<Id, User>, u: User)
    requires UniqueEmails(users)
    requires !EmailTaken(users, u.email)
    requires u.id !in users
    ensures UniqueEmails(users[u.id := u])
  {
  }

  /** Register a user. An email already in the table fails with
      UnprocessableEntity and changes nothing. Otherwise one user row with a
      fresh id is inserted, then one token row for it, and the result is the
      access token signed for that token's id. Hashing and signing are the
      parameters `hash` and `accessToken`. */
  method Create(db: Database, input: UserInput, hash: string -> string, accessToken: Id -> string)
    returns (r: Result<string>)
    requires db.Valid()
    modifies db
    ensures db.Valid()
    ensures EmailTaken(old(db.users), input.email) ==>
      r == Err(UnprocessableEntity("email already taken")) && unchanged(db)
    ensures !EmailTaken(old(db.users), input.email) ==>
      var uid := old(db.nextId);
      var tid := uid + 1;
      && uid !in old(db.users) && tid !in old(db.tokens)
      && db.users == old(db.users)[uid := NewUser(uid, input, hash)]
      && db.tokens == old(db.tokens)[tid := Token(tid, uid)]
      && db.nextId == uid + 2
      && r == Ok(accessToken(tid))
    ensures db.posts == old(db.posts) && db.comments == old(db.comments) && db.likes == old(db.likes)
    ensures db.postIds == old(db.postIds) && db.commentIds == old(db.commentIds)
  {
    if EmailTaken(db.users, input.email) {
      return Err(UnprocessableEntity("email already taken"));
    }
    var uid := db.nextId;
    var user := NewUser(uid, input, hash);
    InsertKeepsUniqueEmails(db.users, user);
    db.users := db.users[uid := user];
    var tid := uid + 1;
    db.tokens := db.tokens[tid := Token(tid, uid)];
    db.nextId := uid + 2;
    r := Ok(accessToken(tid));
  }

  /** Two registrations with the same email: the first succeeds, the second
      fails and leaves the single account in place. */
  method RegisterTwice(input: UserInput, other: UserInput, hash: string -> string, accessToken: Id -> string)
    returns (db: Database, first: Result<string>, second: Result<string>)
    requires other.email == input.email
    ensures db.Valid()
    ensures first.Ok? && second == Err(UnprocessableEntity("email already taken"))
    ensures |db.users| == 1 && |db.tokens| == 1
  {
    db := new Database();
    first := Create(db, input, hash, accessToken);
    assert db.users[0].email == other.email;
    second := Create(db, other, hash, accessToken);
  }
}
