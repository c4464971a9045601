/**
 * The registration action: `registerUser` validates the fields, refuses an
 * email that is already registered, hashes the password and inserts the user.
 * The bcrypt hash and zod's email-format test are parameters.
 */
module AuthActions {
  import opened Replies
  import opened VoteLedger
  import opened Db

  const UserExists: string := "User with this email already exists"
  const FailedToCreateUser: string := "Failed to create user"

  /** `registerSchema`: a name of at least 2 characters, a well-formed email, a password of at least 8. */
  predicate RegisterSchemaValid(name: string, email: string, password: string, isEmail: string -> bool)
  {
    2 <= |name| && isEmail(email) && 8 <= |password|
  }

  /** The name bound is inclusive at 2 and the password bound at 8; neither has an upper bound. */
  lemma RegisterSchemaBoundaries(name: string, email: string, password: string, isEmail: string -> bool)
    ensures isEmail(email) && |name| >= 2 && |password| >= 8 ==> RegisterSchemaValid(name, email, password, isEmail)
    ensures |name| == 1 || |password| == 7 || !isEmail(email) ==> !RegisterSchemaValid(name, email, password, isEmail)
  {
  }

  /**
   * `registerUser`. The email lookup sits outside the action's try block, so
   * a store failure there escapes as a rejected promise (`Thrown`); a failure
   * of the insert is caught.
   */
  method RegisterUser(db: Store, name: string, email: string, password: string,
                      isEmail: string -> bool, hash: string -> string,
                      lookupFails: bool, insertFails: bool)
    returns (r: Reply<()>)
    requires db.Valid()
    modifies db
    ensures db.Valid()
    ensures db.posts == old(db.posts) && db.comments == old(db.comments) && db.votes == old(db.votes)
    ensures !RegisterSchemaValid(name, email, password, isEmail) ==> r == Fail(InvalidFields) && unchanged(db)
    ensures RegisterSchemaValid(name, email, password, isEmail) && lookupFails ==> r == Thrown && unchanged(db)
    ensures RegisterSchemaValid(name, email, password, isEmail) && !lookupFails && EmailTaken(old(db.users), email) ==>
              r == Fail(UserExists) && unchanged(db)
    ensures RegisterSchemaValid(name, email, password, isEmail) && !lookupFails && !EmailTaken(old(db.users), email) ==>
              if insertFails then r == Fail(FailedToCreateUser) && unchanged(db)
              else
                && r == Ok(())
                && db.users == old(db.users) + [User(old(db.nextId), name, email, hash(password))]
                && db.nextId == old(db.nextId) + 1
  {
    if !RegisterSchemaValid(name, email, password, isEmail) {
      return Fail(InvalidFields);
    }
    if lookupFails {
      return Thrown;
    }
    var existing := db.FindUserByEmail(email);
    if existing.Some? {
      return Fail(UserExists);
    }
    var hashedPassword := hash(password);
    if insertFails {
      return Fail(FailedToCreateUser);
    }
    db.users := db.users + [User(db.nextId, name, email, hashedPassword)];
    db.nextId := db.nextId + 1;
    r := Ok(());
  }

  /** Two registrations with one email in a row: once the first succeeds, the second is refused and adds no user. */
  method RegisterTwice(db: Store, email: string, isEmail: string -> bool, hash: string -> string,
                       name1: string, password1: string, name2: string, password2: string)
    returns (first: Reply<()>, second: Reply<()>)
    requires db.Valid()
    modifies db
    ensures db.Valid()
    ensures first.Ok? && RegisterSchemaValid(name2, email, password2, isEmail) ==>
              second == Fail(UserExists) && |db.users| == |old(db.users)| + 1
  {
    first := RegisterUser(db, name1, email, password1, isEmail, hash, false, false);
    ghost var afterFirst := db.users;
    second := RegisterUser(db, name2, email, password2, isEmail, hash, false, false);
    if first.Ok? && RegisterSchemaValid(name2, email, password2, isEmail) {
      assert afterFirst[|afterFirst| - 1].email == email;
      assert EmailTaken(afterFirst, email);
    }
  }
}
