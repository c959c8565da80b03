/** The sign-up card: two steps of inputs, the checks run before the
    registration request, the body that request carries, and the success
    step that leads to the sign-in page. */
module Signup {
  import opened Common
  import opened UserModel
  import opened Store
  import opened UserController

  /** The text inputs, by their `name` attribute. */
  datatype Input = Fullname | PhoneNumber | Email | Password | ConfirmPassword

  /** The `input` state: five text fields and the selected role. */
  datatype Entries = Entries(
    fullname: string, phoneNumber: string, email: string,
    password: string, confirmPassword: string, role: string)

  const InitialEntries := Entries("", "", "", "", "", "user")

  function Read(e: Entries, i: Input): string {
    match i
    case Fullname => e.fullname
    case PhoneNumber => e.phoneNumber
    case Email => e.email
    case Password => e.password
    case ConfirmPassword => e.confirmPassword
  }

  /** `{ ...input, [name]: value }`: the named field changes and nothing else. */
  function Write(e: Entries, i: Input, value: string): (r: Entries)
    ensures Read(r, i) == value
    ensures forall j :: j != i ==> Read(r, j) == Read(e, j)
    ensures r.role == e.role
  {
    match i
    case Fullname => e.(fullname := value)
    case PhoneNumber => e.(phoneNumber := value)
    case Email => e.(email := value)
    case Password => e.(password := value)
    case ConfirmPassword => e.(confirmPassword := value)
  }

  /** The JSON body of the registration request. */
  datatype Body = Body(fullname: string, phoneNumber: string, email: string, password: string, role: string)

  /** What submitting does: refuse with one of two messages, or send a body. */
  datatype Submission = AllFieldsRequired | PasswordsDiffer | Send(body: Body)

  predicate AnyEmpty(e: Entries) {
    e.fullname == "" || e.phoneNumber == "" || e.email == "" || e.password == "" || e.confirmPassword == ""
  }

  /** The checks `handleSubmit` runs before the request: every field must be
      filled, then the two passwords must agree; the body drops the
      confirmation and carries the other fields as typed. */
  function Submit(e: Entries): (s: Submission)
    ensures s == AllFieldsRequired <==> AnyEmpty(e)
    ensures s == PasswordsDiffer <==> !AnyEmpty(e) && e.password != e.confirmPassword
    ensures s.Send? <==> !AnyEmpty(e) && e.password == e.confirmPassword
    ensures s.Send? ==> s.body.fullname == e.fullname && s.body.phoneNumber == e.phoneNumber &&
                        s.body.email == e.email && s.body.password == e.password && s.body.role == e.role
  {
    if AnyEmpty(e) then AllFieldsRequired
    else if e.password != e.confirmPassword then PasswordsDiffer
    else Send(Body(e.fullname, e.phoneNumber, e.email, e.password, e.role))
  }

  /** The body as the server's `register` reads it; `phone` is the phone
      number after the schema casts the typed text. */
  function AsRegistration(b: Body, phone: Option<int>): (r: Registration)
    ensures r.fullname == Some(b.fullname) && r.email == Some(b.email) &&
            r.password == Some(b.password) && r.role == Some(b.role)
  {
    Registration(Some(b.fullname), phone, Some(b.email), Some(b.password), Some(b.role))
  }

  /** The roles the select offers. */
  predicate Offered(role: string) {
    role == "user" || role == "admin" || role == "member"
  }

  /** A body the card sends always has the fields `register` requires. */
  lemma SentBodiesAreComplete(e: Entries, phone: Option<int>)
    requires Submit(e).Send? && Offered(e.role)
    ensures RegistrationComplete(AsRegistration(Submit(e).body, phone))
  {
  }

  /** Left at its default "user", the role is one the server refuses: the
      request is answered "Invalid role" and nothing is stored, whatever the
      store holds. */
  lemma DefaultRoleRefused(e: Entries, phone: Option<int>, db: Db, hashed: string, now: Time)
    requires db.Valid() && e.role == InitialEntries.role && Submit(e).Send?
    ensures Register(db, AsRegistration(Submit(e).body, phone), hashed, now) == Handled(db, Fail(400, InvalidRole))
  {
    SentBodiesAreComplete(e, phone);
    DefaultRoleOutsideEnum();
  }

  /** Choosing "member" and filling every field gets past the role check. */
  lemma MemberRoleAccepted(e: Entries, phone: Option<int>)
    requires e.role == "member" && Submit(e).Send?
    ensures ParseRole(AsRegistration(Submit(e).body, phone).role.value) == Some(Member)
  {
  }

  class SignupCard {
    var entries: Entries
    var step: int

    predicate Valid()
      reads this
    {
      (step == 1 || step == 2 || step == 3) && Offered(entries.role)
    }

    constructor ()
      ensures Valid() && entries == InitialEntries && step == 1
    {
      entries := InitialEntries;
      step := 1;
    }

    /** "Continue" */
    method NextStep()
      requires Valid()
      modifies this
      ensures Valid() && step == 2 && entries == old(entries)
    {
      step := 2;
    }

    /** "Back" */
    method PreviousStep()
      requires Valid()
      modifies this
      ensures Valid() && step == 1 && entries == old(entries)
    {
      step := 1;
    }

    method HandleChange(i: Input, value: string)
      requires Valid()
      modifies this
      ensures Valid() && entries == Write(old(entries), i, value) && step == old(step)
    {
      entries := Write(entries, i, value);
    }

    method HandleRoleChange(value: string)
      requires Valid() && Offered(value)
      modifies this
      ensures Valid() && entries == old(entries).(role := value) && step == old(step)
    {
      entries := entries.(role := value);
    }

    /** `handleSubmit`, with `succeeded` standing for the server's
        `res.data.success`: the card moves to step 3 exactly when a body
        was sent and the server accepted it. */
    method HandleSubmit(succeeded: bool) returns (sent: Option<Body>)
      requires Valid()
      modifies this
      ensures Valid() && entries == old(entries)
      ensures sent.Some? <==> Submit(entries).Send?
      ensures sent.Some? ==> sent.value == Submit(entries).body
      ensures step == (if sent.Some? && succeeded then 3 else old(step))
    {
      var s := Submit(entries);
      if !s.Send? {
        return None;
      }
      sent := Some(s.body);
      if succeeded {
        step := 3;
      }
    }
  }
}
