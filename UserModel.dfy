/** The User schema: required fields, the role enum with its out-of-enum
    default, and the defaults of a freshly created user. */
module UserModel {
  import opened Common

  datatype Role = Admin | Member

  /** The schema's declared default role, which its own enum does not admit. */
  const DefaultRole: string := "user"

  function RoleName(r: Role): string {
    match r
    case Admin => "admin"
    case Member => "member"
  }

  /** Enum validation of a role string: only "admin" and "member" are stored. */
  function ParseRole(s: string): (r: Option<Role>)
    ensures r.Some? <==> s == "admin" || s == "member"
    ensures r.Some? ==> RoleName(r.value) == s
  {
    if s == "admin" then Some(Admin) else if s == "member" then Some(Member) else None
  }

  /** A user saved with the default role fails enum validation. */
  lemma DefaultRoleOutsideEnum()
    ensures ParseRole(DefaultRole).None?
  {
  }

  datatype Profile = Profile(bio: Option<string>, profilePhoto: string)

  datatype User = User(
    fullname: string,
    phoneNumber: Option<int>,
    email: string,
    password: string,
    role: Role,
    borrowedBooks: seq<Id>,
    profile: Profile,
    createdAt: Time,
    updatedAt: Time)

  /** Required strings must be present and non-empty for a save to succeed. */
  predicate UserValid(u: User) {
    u.fullname != "" && u.email != "" && u.password != ""
  }

  /** Users `a` and `b` are both stored and carry the same email. */
  predicate SameEmail(users: map<Id, User>, a: Id, b: Id) {
    a in users && b in users && users[a].email == users[b].email
  }

  /** No two users share an email (the schema's unique index). The index is
      consulted only where a `SameEmail` question is asked. */
  ghost predicate EmailsUnique(users: map<Id, User>) {
    forall a, b {:trigger SameEmail(users, a, b)} :: SameEmail(users, a, b) ==> a == b
  }

  /** Under the index, two different stored users have different emails. */
  lemma EmailsDiffer(users: map<Id, User>, a: Id, b: Id)
    requires EmailsUnique(users) && a in users && b in users && a != b
    ensures users[a].email != users[b].email
  {
    assert !SameEmail(users, a, b);
  }

  /** Rewriting users without touching any email keeps the index. */
  lemma SameEmailsKeepUnique(users: map<Id, User>, users': map<Id, User>)
    requires EmailsUnique(users) && users'.Keys <= users.Keys
    requires forall k :: k in users' ==> users'[k].email == users[k].email
    ensures EmailsUnique(users')
  {
    forall a, b | SameEmail(users', a, b)
      ensures a == b
    {
      assert SameEmail(users, a, b);
    }
  }

  /** A newly created user: no borrowed books, an empty profile photo, no bio,
      both timestamps at creation time. */
  function NewUser(fullname: string, phoneNumber: Option<int>, email: string, password: string,
                   role: Role, now: Time): (u: User)
    ensures u.borrowedBooks == [] && u.profile.profilePhoto == "" && u.profile.bio.None?
    ensures u.fullname == fullname && u.email == email && u.password == password && u.role == role
    ensures u.phoneNumber == phoneNumber && u.createdAt == now && u.updatedAt == now
  {
    User(fullname, phoneNumber, email, password, role, [], Profile(None, ""), now, now)
  }
}
