/** Account handlers: the check chains of `register` and `login`, the
    "truthy fields overwrite" profile update, and the two borrowed-list
    handlers that work on the user document alone. */
module UserController {
  import opened Common
  import opened UserModel
  import opened Store
  import BorrowController

  /** `User.findOne({ email })`: the first user with that email, if any. */
  function FindByEmail(db: Db, email: string): (r: Option<Id>)
    requires db.Valid()
    ensures r.None? <==> forall u :: u in db.users ==> db.users[u].email != email
    ensures r.Some? ==> r.value in db.users && db.users[r.value].email == email
    ensures r.Some? ==> forall u :: u in db.users && db.users[u].email == email ==> u == r.value
  {
    var ids := Ascending((set u | u in db.users && db.users[u].email == email), db.nextId);
    if ids == [] then
      assert forall u :: u in db.users ==> db.users[u].email != email by {
        forall u | u in db.users && db.users[u].email == email ensures u in ids { }
      }
      None
    else
      assert ids[0] in ids;
      assert forall u :: u in db.users && db.users[u].email == email ==> u == ids[0] by {
        forall u | u in db.users && db.users[u].email == email ensures u == ids[0] {
          assert SameEmail(db.users, u, ids[0]);
        }
      }
      Some(ids[0])
  }

  /** The body of a registration request; a missing field is `None`. */
  datatype Registration = Registration(
    fullname: Option<string>,
    phoneNumber: Option<int>,
    email: Option<string>,
    password: Option<string>,
    role: Option<string>)

  predicate RegistrationComplete(r: Registration) {
    Truthy(r.fullname) && Truthy(r.email) && Truthy(r.password) && Truthy(r.role)
  }

  /** The user `register` creates, with `hashed` the opaque hash of the password. */
  function Registered(r: Registration, hashed: string, now: Time): User
    requires RegistrationComplete(r) && ParseRole(r.role.value).Some?
  {
    NewUser(r.fullname.value, r.phoneNumber, r.email.value, hashed, ParseRole(r.role.value).value, now)
  }

  /** `register` with the missing `return` restored: a taken email ends the
      request with one 400 reply. The failure branch of the save answers 404. */
  function Register(db: Db, r: Registration, hashed: string, now: Time): (h: Handled)
    requires db.Valid()
    ensures h.db.Valid()
    ensures !h.res.success ==> h.db == db
    ensures !RegistrationComplete(r) ==> h.res == Fail(400, FieldsRequired)
    ensures RegistrationComplete(r) && ParseRole(r.role.value).None? ==> h.res == Fail(400, InvalidRole)
    ensures RegistrationComplete(r) && ParseRole(r.role.value).Some? && FindByEmail(db, r.email.value).Some? ==>
      h.res == Fail(400, EmailExists)
    ensures h.res.success <==>
      RegistrationComplete(r) && ParseRole(r.role.value).Some? && FindByEmail(db, r.email.value).None? && hashed != ""
    ensures h.res.success ==>
      h.res == Ok(201, UserRegistered) && db.nextId !in db.users &&
      h.db == db.(users := db.users[db.nextId := Registered(r, hashed, now)], nextId := db.nextId + 1)
  {
    if !RegistrationComplete(r) then Handled(db, Fail(400, FieldsRequired))
    else if ParseRole(r.role.value).None? then Handled(db, Fail(400, InvalidRole))
    else if FindByEmail(db, r.email.value).Some? then Handled(db, Fail(400, EmailExists))
    else if hashed == "" then Handled(db, Fail(404, RegisterFailed))
    else
      InsertUserValid(db, Registered(r, hashed, now));
      var db' := db.(users := db.users[db.nextId := Registered(r, hashed, now)], nextId := db.nextId + 1);
      Handled(db', Ok(201, UserRegistered))
  }

  /** What `register` does as written: the replies it attempts in order, and
      the final store. */
  datatype Attempted = Attempted(db: Db, replies: seq<Response>)

  /** `register` as written: after answering "Email already exists" it goes on
      to hash and save; the unique index refuses the save, and the handler's
      catch tries to answer a second time, on a reply already sent. */
  function RegisterAsWritten(db: Db, r: Registration, hashed: string, now: Time): (a: Attempted)
    requires db.Valid()
    ensures a.db.Valid() && |a.replies| >= 1
    ensures !(RegistrationComplete(r) && ParseRole(r.role.value).Some? && FindByEmail(db, r.email.value).Some?) ==>
      a == Attempted(Register(db, r, hashed, now).db, [Register(db, r, hashed, now).res])
  {
    if RegistrationComplete(r) && ParseRole(r.role.value).Some? && FindByEmail(db, r.email.value).Some? then
      Attempted(db, [Fail(400, EmailExists), Fail(404, RegisterFailed)])
    else
      var h := Register(db, r, hashed, now);
      Attempted(h.db, [h.res])
  }

  /** Registering a taken email makes the handler reply twice; with the return
      restored it replies once, and either way nothing is stored. */
  lemma TakenEmailRepliesTwice(db: Db, r: Registration, hashed: string, now: Time)
    requires db.Valid() && RegistrationComplete(r) && ParseRole(r.role.value).Some?
    requires exists u :: u in db.users && db.users[u].email == r.email.value
    ensures RegisterAsWritten(db, r, hashed, now).replies ==
            [Fail(400, EmailExists), Fail(404, RegisterFailed)]
    ensures RegisterAsWritten(db, r, hashed, now).db == db
    ensures Register(db, r, hashed, now) == Handled(db, Fail(400, EmailExists))
  {
  }

  /** `register` as the handler runs it, with the return restored. */
  method RegisterIn(lib: Library, r: Registration, hashed: string, now: Time) returns (res: Response)
    requires lib.Valid()
    modifies lib
    ensures Handled(lib.Snapshot(), res) == Register(old(lib.Snapshot()), r, hashed, now)
    ensures lib.Valid()
  {
    if !RegistrationComplete(r) {
      return Fail(400, FieldsRequired);
    }
    var role := ParseRole(r.role.value);
    if role.None? {
      return Fail(400, InvalidRole);
    }
    var existing := FindByEmail(lib.Snapshot(), r.email.value);
    if existing.Some? {
      return Fail(400, EmailExists);
    }
    var user := NewUser(r.fullname.value, r.phoneNumber, r.email.value, hashed, role.value, now);
    if !UserValid(user) {
      return Fail(404, RegisterFailed);
    }
    lib.users := lib.users[lib.nextId := user];
    lib.nextId := lib.nextId + 1;
    return Ok(201, UserRegistered);
  }

  /** The claims of the signed session token: the user id, valid one hour. */
  datatype Claims = Claims(id: Id, expiresInSeconds: nat)

  /** The user as `login` returns it: every field but the password. */
  datatype PublicUser = PublicUser(
    id: Id,
    fullname: string,
    email: string,
    role: Role,
    phoneNumber: Option<int>,
    borrowedBooks: seq<Id>,
    profile: Profile)

  datatype LoginReply = LoginReply(res: Response, token: Option<Claims>, user: Option<PublicUser>)

  const TokenLifetimeSeconds: nat := 60 * 60

  /** `login`, with `compare` the opaque password check of a plain password
      against a stored hash. */
  function Login(db: Db, email: Option<string>, password: Option<string>, role: Option<string>,
                 compare: (string, string) -> bool): (l: LoginReply)
    requires db.Valid()
    ensures !Truthy(email) || !Truthy(password) || !Truthy(role) ==>
      l == LoginReply(Fail(400, FieldsRequired), None, None)
    ensures Truthy(email) && Truthy(password) && Truthy(role) ==>
      var found := FindByEmail(db, email.value);
      (found.None? ==> l == LoginReply(Fail(404, UserNotFound), None, None)) &&
      (found.Some? && !compare(password.value, db.users[found.value].password) ==>
         l == LoginReply(Fail(400, BadCredentials), None, None)) &&
      (found.Some? && compare(password.value, db.users[found.value].password) &&
       role.value != RoleName(db.users[found.value].role) ==>
         l == LoginReply(Fail(403, NotAuthorized), None, None))
    ensures l.res.success <==> l.token.Some?
    ensures l.res.success ==>
      l.token.value.expiresInSeconds == TokenLifetimeSeconds && l.token.value.id in db.users &&
      var u := db.users[l.token.value.id];
      Some(u.email) == email &&
      compare(password.value, u.password) && Some(RoleName(u.role)) == role &&
      l.res == Ok(200, WelcomeBack(u.fullname)) &&
      l.user == Some(PublicUser(l.token.value.id, u.fullname, u.email, u.role, u.phoneNumber, u.borrowedBooks, u.profile))
  {
    if !Truthy(email) || !Truthy(password) || !Truthy(role) then
      LoginReply(Fail(400, FieldsRequired), None, None)
    else
      match FindByEmail(db, email.value)
      case None => LoginReply(Fail(404, UserNotFound), None, None)
      case Some(id) =>
        var u := db.users[id];
        if !compare(password.value, u.password) then LoginReply(Fail(400, BadCredentials), None, None)
        else if role.value != RoleName(u.role) then
          LoginReply(Fail(403, NotAuthorized), None, None)
        else
          LoginReply(Ok(200, WelcomeBack(u.fullname)), Some(Claims(id, TokenLifetimeSeconds)),
                     Some(PublicUser(id, u.fullname, u.email, u.role, u.phoneNumber, u.borrowedBooks, u.profile)))
  }

  /** A user who has just registered can log in with the same email, password
      and role, provided the password matches its own hash; the token names
      the new user. */
  lemma RegisterThenLogin(db: Db, r: Registration, hashed: string, now: Time, compare: (string, string) -> bool)
    requires db.Valid()
    requires Register(db, r, hashed, now).res.success
    requires compare(r.password.value, hashed)
    ensures var l := Login(Register(db, r, hashed, now).db, r.email, r.password, r.role, compare);
            l.res.success && l.token == Some(Claims(db.nextId, TokenLifetimeSeconds))
  {
    var db' := Register(db, r, hashed, now).db;
    var found := FindByEmail(db', r.email.value);
    assert db'.users[db.nextId].email == r.email.value;
    assert found == Some(db.nextId);
  }

  /** The fields a profile update may carry. */
  datatype ProfileEdits = ProfileEdits(
    fullname: Option<string>,
    email: Option<string>,
    phoneNumber: Option<int>,
    bio: Option<string>,
    profilePhoto: Option<string>)

  /** The stored user after the handler's conditional assignments. */
  function ProfileEdited(u: User, e: ProfileEdits): (r: User)
    ensures r.fullname == OrElse(e.fullname, u.fullname) && r.email == OrElse(e.email, u.email)
    ensures r.phoneNumber == (if e.phoneNumber.Some? && e.phoneNumber.value != 0 then e.phoneNumber else u.phoneNumber)
    ensures r.profile.bio == (if Truthy(e.bio) then e.bio else u.profile.bio)
    ensures r.profile.profilePhoto == OrElse(e.profilePhoto, u.profile.profilePhoto)
    ensures r.password == u.password && r.role == u.role && r.borrowedBooks == u.borrowedBooks
    ensures r.createdAt == u.createdAt && r.updatedAt == u.updatedAt
  {
    var phone := if e.phoneNumber.Some? && e.phoneNumber.value != 0 then e.phoneNumber else u.phoneNumber;
    var bio := if Truthy(e.bio) then e.bio else u.profile.bio;
    u.(fullname := OrElse(e.fullname, u.fullname), email := OrElse(e.email, u.email), phoneNumber := phone,
       profile := Profile(bio, OrElse(e.profilePhoto, u.profile.profilePhoto)))
  }

  /** The user as `updateProfile` returns it. */
  datatype ProfileView = ProfileView(id: Id, fullname: string, email: string, role: Role, profile: Profile)

  datatype ProfileReply = ProfileReply(db: Db, res: Response, user: Option<ProfileView>)

  /** `updateProfile` for `userId`. When a file comes with the request, the
      handler's reassignment of a `const` binding throws inside the upload
      block, so it answers 500 before the user is even loaded. A new email
      that another user holds makes the save fail. */
  function UpdateProfile(db: Db, userId: Id, e: ProfileEdits, hasFile: bool, now: Time): (p: ProfileReply)
    requires db.Valid()
    ensures p.db.Valid()
    ensures !p.res.success ==> p.db == db && p.user.None?
    ensures hasFile ==> p.res == Fail(500, PhotoUploadFailed)
    ensures !hasFile && userId !in db.users ==> p.res == Fail(404, UserNotFound)
    ensures p.res.success <==>
      !hasFile && userId in db.users &&
      forall u :: u in db.users && u != userId ==> db.users[u].email != ProfileEdited(db.users[userId], e).email
    ensures p.res.success ==>
      var u' := ProfileEdited(db.users[userId], e);
      p.res == Ok(200, ProfileUpdated) &&
      p.db == db.(users := db.users[userId := if u' == db.users[userId] then u' else u'.(updatedAt := now)]) &&
      p.user == Some(ProfileView(userId, u'.fullname, u'.email, u'.role, u'.profile))
  {
    if hasFile then ProfileReply(db, Fail(500, PhotoUploadFailed), None)
    else if userId !in db.users then ProfileReply(db, Fail(404, UserNotFound), None)
    else
      var u := db.users[userId];
      var u' := ProfileEdited(u, e);
      if exists v :: v in db.users && v != userId && db.users[v].email == u'.email then
        ProfileReply(db, Fail(500, UpdateProfileFailed), None)
      else
        var saved := if u' == u then u' else u'.(updatedAt := now);
        PutUserValid(db, userId, saved);
        var db' := db.(users := db.users[userId := saved]);
        ProfileReply(db', Ok(200, ProfileUpdated),
                     Some(ProfileView(userId, u'.fullname, u'.email, u'.role, u'.profile)))
  }

  /** `updateProfile` as the handler runs it: the file check, the lookup, the
      five conditional assignments and the save. */
  method UpdateProfileIn(lib: Library, userId: Id, e: ProfileEdits, hasFile: bool, now: Time)
    returns (res: Response, user: Option<ProfileView>)
    requires lib.Valid()
    modifies lib
    ensures ProfileReply(lib.Snapshot(), res, user) == UpdateProfile(old(lib.Snapshot()), userId, e, hasFile, now)
    ensures lib.Valid()
  {
    if hasFile {
      return Fail(500, PhotoUploadFailed), None;
    }
    if userId !in lib.users {
      return Fail(404, UserNotFound), None;
    }
    var u := lib.users[userId];
    var edited := ProfileEdited(u, e);
    if exists v :: v in lib.users && v != userId && lib.users[v].email == edited.email {
      return Fail(500, UpdateProfileFailed), None;
    }
    var saved := if edited == u then edited else edited.(updatedAt := now);
    lib.users := lib.users[userId := saved];
    return Ok(200, ProfileUpdated),
           Some(ProfileView(userId, edited.fullname, edited.email, edited.role, edited.profile));
  }

  /** An update that carries nothing changes no user. */
  lemma EmptyProfileUpdateChangesNothing(db: Db, userId: Id, now: Time)
    requires db.Valid() && userId in db.users
    ensures UpdateProfile(db, userId, ProfileEdits(None, None, None, None, None), false, now).db == db
  {
    var u := db.users[userId];
    assert ProfileEdited(u, ProfileEdits(None, None, None, None, None)) == u;
    assert db.users[userId := u] == db.users;
  }

  datatype Counted = Counted(res: Response, count: nat)

  /** `numberOfBorrowedBooks`: the length of the user's list. A missing user
      makes the handler read a property of null, answered as 400. */
  function NumberOfBorrowedBooks(db: Db, userId: Id): (c: Counted)
    ensures userId !in db.users ==> c == Counted(Fail(400, CountFailed), 0)
    ensures userId in db.users ==>
      c.res.success && c.res.status == 200 && c.count == |db.users[userId].borrowedBooks| &&
      (c.res.message == NoBorrowedBooks <==> c.count == 0)
  {
    if userId !in db.users then Counted(Fail(400, CountFailed), 0)
    else
      var count := |db.users[userId].borrowedBooks|;
      if count == 0 then Counted(Ok(200, NoBorrowedBooks), 0)
      else Counted(Ok(200, BorrowedCount), count)
  }

  /** A successful borrow adds exactly one to the borrower's count and leaves
      every other user's count alone. */
  lemma BorrowCountsOne(db: Db, userId: Id, bookId: Option<Id>, accessType: string, now: Time, other: Id)
    requires db.Valid()
    requires BorrowController.Borrow(db, userId, bookId, accessType, now).res.success
    ensures var db' := BorrowController.Borrow(db, userId, bookId, accessType, now).db;
            NumberOfBorrowedBooks(db', userId).count == NumberOfBorrowedBooks(db, userId).count + 1 &&
            (other != userId ==> NumberOfBorrowedBooks(db', other) == NumberOfBorrowedBooks(db, other))
  {
    var db' := BorrowController.Borrow(db, userId, bookId, accessType, now).db;
    CountsAfterPush(db, db', userId, other);
  }

  /** The counts after one user's list grows by one and no other user changes. */
  lemma CountsAfterPush(db: Db, db': Db, userId: Id, other: Id)
    requires userId in db.users && db'.users.Keys == db.users.Keys
    requires |db'.users[userId].borrowedBooks| == |db.users[userId].borrowedBooks| + 1
    requires forall u :: u in db.users && u != userId ==> db'.users[u] == db.users[u]
    ensures NumberOfBorrowedBooks(db', userId).count == NumberOfBorrowedBooks(db, userId).count + 1
    ensures other != userId ==> NumberOfBorrowedBooks(db', other) == NumberOfBorrowedBooks(db, other)
  {
    if other != userId && other in db.users {
      assert db'.users[other] == db.users[other];
    }
  }

  /** `addBorrowedBook`: `$push` onto the user's list, with no borrowing record
      and no check that the book exists. A missing user makes the handler read
      a property of null, answered as 500. */
  function AddBorrowedBook(db: Db, userId: Id, bookId: Option<Id>, now: Time): (h: Handled)
    requires db.Valid()
    ensures h.db.Valid()
    ensures !h.res.success ==> h.db == db
    ensures bookId.None? ==> h.res == Fail(400, BookIdRequired)
    ensures bookId.Some? && userId !in db.users ==> h.res == Fail(500, AddToLibraryFailed)
    ensures bookId.Some? && userId in db.users && bookId.value in db.users[userId].borrowedBooks ==>
      h.res == Fail(400, AlreadyInLibrary)
    ensures h.res.success <==> bookId.Some? && userId in db.users && bookId.value !in db.users[userId].borrowedBooks
    ensures h.res.success ==>
      h.res == Ok(200, AddedToLibrary) && userId in h.db.users &&
      h.db.users[userId].borrowedBooks == db.users[userId].borrowedBooks + [bookId.value] &&
      h.db == db.(users := db.users[userId := h.db.users[userId]]) &&
      h.db.users[userId] == db.users[userId].(borrowedBooks := h.db.users[userId].borrowedBooks, updatedAt := now)
  {
    if bookId.None? then Handled(db, Fail(400, BookIdRequired))
    else if userId !in db.users then Handled(db, Fail(500, AddToLibraryFailed))
    else if bookId.value in db.users[userId].borrowedBooks then Handled(db, Fail(400, AlreadyInLibrary))
    else
      var u := db.users[userId];
      RewriteUserValid(db, userId, u.(borrowedBooks := u.borrowedBooks + [bookId.value], updatedAt := now));
      Handled(db.(users := db.users[userId := u.(borrowedBooks := u.borrowedBooks + [bookId.value], updatedAt := now)]),
              Ok(200, AddedToLibrary))
  }

  method AddBorrowedBookTo(lib: Library, userId: Id, bookId: Option<Id>, now: Time) returns (res: Response)
    requires lib.Valid()
    modifies lib
    ensures Handled(lib.Snapshot(), res) == AddBorrowedBook(old(lib.Snapshot()), userId, bookId, now)
    ensures lib.Valid()
  {
    if bookId.None? {
      return Fail(400, BookIdRequired);
    }
    if userId !in lib.users {
      return Fail(500, AddToLibraryFailed);
    }
    var user := lib.users[userId];
    if bookId.value in user.borrowedBooks {
      return Fail(400, AlreadyInLibrary);
    }
    user := user.(borrowedBooks := user.borrowedBooks + [bookId.value], updatedAt := now);
    lib.users := lib.users[userId := user];
    return Ok(200, AddedToLibrary);
  }

  /** Adding to the list only grows it, so every borrowing stays linked. */
  lemma AddBorrowedBookKeepsLinked(db: Db, userId: Id, bookId: Option<Id>, now: Time)
    requires db.Valid() && Linked(db)
    ensures Linked(AddBorrowedBook(db, userId, bookId, now).db)
  {
    var h := AddBorrowedBook(db, userId, bookId, now);
    if h.res.success {
      forall k | k in h.db.borrowings
        ensures h.db.borrowings[k].bookId in h.db.users[h.db.borrowings[k].userId].borrowedBooks
      {
        var r := db.borrowings[k];
        if r.userId == userId {
          var i :| 0 <= i < |db.users[userId].borrowedBooks| && db.users[userId].borrowedBooks[i] == r.bookId;
          assert h.db.users[userId].borrowedBooks[i] == r.bookId;
        }
      }
    }
  }
}
