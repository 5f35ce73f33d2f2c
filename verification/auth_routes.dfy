/** The decisions of the signup and login routes. Password hashing and
    checking belong to a library outside the model: `hash` stands for
    `generate_password_hash` and `check` for `check_password_hash`, with no
    property assumed of either. */
module AuthRoutes {
  import opened Documents
  import opened Collections
  import opened Store

  /** What a login request answers, and the user a session is opened for. */
  datatype LoginOutcome = LoginOutcome(response: Response, session: Option<Id>)

  /** `signup` on a submitted form: an email already registered sends the
      caller back to the signup page and changes nothing; otherwise exactly
      one authenticated user with the hashed password is inserted and the
      caller is sent to the login page. */
  method Signup(db: Database, name: string, email: string, password: string,
                hash: string -> Digest, now: Time) returns (r: Response)
    requires db.Valid()
    modifies db
    ensures db.Valid()
    ensures FindByEmail(old(db.users), email).Some? ==> r == RedirectTo(SignupPage) && unchanged(db)
    ensures FindByEmail(old(db.users), email).None? ==>
      && r == RedirectTo(LoginPage)
      && db.users == old(db.users) + [User(old(db.nextId), name, email, hash(password), now, true)]
      && db.posts == old(db.posts) && db.order == old(db.order) && db.comments == old(db.comments)
  {
    var hashedPassword := hash(password);
    var newUser := User(db.nextId, name, email, hashedPassword, now, true);
    var emailExists := FindByEmail(db.users, email);
    if emailExists.Some? {
      return RedirectTo(SignupPage);
    }
    AppendFreshEmail(db.users, newUser);
    db.users := db.users + [newUser];
    db.nextId := db.nextId + 1;
    r := RedirectTo(LoginPage);
  }

  /** `login` on a submitted form: a session is opened for the user
      registered with `email` when the password checks against its hash;
      otherwise the caller is sent back to the login page with no session.
      The users collection is only read. */
  function Login(users: seq<User>, email: string, password: string,
                 check: (Digest, string) -> bool): (r: LoginOutcome)
    ensures r.session.None? <==> r.response == RedirectTo(LoginPage)
    ensures r.session.Some? ==> r.response == RedirectTo(ProfilePage)
    ensures r.session.Some? ==>
      exists u :: u in users && u.id == r.session.value && u.email == email && check(u.password, password)
    ensures (forall u :: u in users ==> u.email != email) ==> r.session.None?
  {
    match FindByEmail(users, email)
    case None => LoginOutcome(RedirectTo(LoginPage), None)
    case Some(user) =>
      if !check(user.password, password) then LoginOutcome(RedirectTo(LoginPage), None)
      else LoginOutcome(RedirectTo(ProfilePage), Some(user.id))
  }

  /** With one user per email, the user registered with `email` gets a
      session exactly when the password checks against that user's hash. */
  lemma LoginExactlyForOwner(users: seq<User>, u: User, password: string,
                             check: (Digest, string) -> bool)
    requires UniqueEmails(users) && u in users
    ensures Login(users, u.email, password, check).session == Some(u.id) <==> check(u.password, password)
  {
    FindByEmailUnique(users, u);
  }
}
