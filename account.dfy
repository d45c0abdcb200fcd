/** The Account record shared by admins, teachers and students (models/admin.js). */
module AccountSchema {
  import opened Wrappers
  import opened JsText
  import opened Documents

  datatype Role = Student | Teacher | Admin

  /** The strings the `role` enum admits. */
  function RoleName(r: Role): string {
    match r
    case Student => "student"
    case Teacher => "teacher"
    case Admin => "admin"
  }

  /** The enum validator: a string is a role exactly when it is one of the three names. */
  function ParseRole(s: string): (r: Option<Role>)
    ensures r.Some? ==> RoleName(r.value) == s
    ensures r.None? ==> forall role: Role :: RoleName(role) != s
  {
    if s == "student" then Some(Student)
    else if s == "teacher" then Some(Teacher)
    else if s == "admin" then Some(Admin)
    else None
  }

  lemma ParseRoleName(r: Role)
    ensures ParseRole(RoleName(r)) == Some(r)
  {
  }

  datatype ApprovalStatus = Pending | Approved | Rejected

  datatype AccountStatus = Active | Inactive

  datatype Account = Account(
    role: Role,
    fullName: string,
    email: string,
    password: string,
    schoolId: Option<ObjectId>,
    registrationNumber: Option<string>,
    staffId: Option<string>,
    approvalStatus: ApprovalStatus,
    status: AccountStatus,
    department: Option<string>,
    phoneNumber: Option<string>,
    createdAt: nat,
    approvedAt: Option<nat>,
    approvedBy: Option<ObjectId>)

  /** The values handed to `new admin({...})`; absent optional paths are None, an absent string is "". */
  datatype AccountInput = AccountInput(
    role: Role,
    fullName: string,
    email: string,
    password: string,
    schoolId: Option<ObjectId>,
    registrationNumber: Option<string>,
    department: Option<string>,
    phoneNumber: Option<string>,
    approvalStatus: Option<ApprovalStatus>)

  /**
   * An Account document as the store keeps it: fullName is trimmed and
   * present, email is lower-cased, trimmed and present, a password is
   * present. schoolId, the generated ids and the approval fields are optional.
   */
  predicate ValidAccount(a: Account) {
    && a.fullName != [] && IsTrimmed(a.fullName)
    && a.email != [] && IsLower(a.email) && IsTrimmed(a.email)
    && a.password != []
  }

  /**
   * `new admin({...})` followed by the validation `save()` runs: the
   * setters trim fullName and lower-case and trim email, the defaults fill
   * approvalStatus (pending), status (active) and createdAt, and a missing
   * required path rejects the document (None).
   */
  function NewAccount(input: AccountInput, now: nat): (r: Option<Account>)
    ensures r.Some? <==> Trim(input.fullName) != [] && LowerTrim(input.email) != [] && input.password != []
    ensures r.Some? ==> ValidAccount(r.value)
    ensures r.Some? ==> var a := r.value;
      && a.role == input.role && a.email == LowerTrim(input.email) && a.schoolId == input.schoolId
      && a.registrationNumber == input.registrationNumber && a.staffId.None?
      && a.approvalStatus == (if input.approvalStatus.Some? then input.approvalStatus.value else Pending)
      && a.status == Active && a.createdAt == now && a.approvedAt.None? && a.approvedBy.None?
      && a.fullName == Trim(input.fullName) && a.password == input.password
      && a.department == input.department && a.phoneNumber == input.phoneNumber
  {
    var name, email := Trim(input.fullName), LowerTrim(input.email);
    if name != [] && email != [] && input.password != [] then
      TrimIdempotent(input.fullName);
      LowerTrimIdempotent(input.email);
      Some(Account(
        input.role, name, email, input.password, input.schoolId,
        input.registrationNumber, None,
        if input.approvalStatus.Some? then input.approvalStatus.value else Pending,
        Active, input.department, input.phoneNumber, now, None, None))
    else
      None
  }

  /**
   * The unique index on email, and the sparse unique indexes on
   * registrationNumber and staffId: documents without the field never clash.
   */
  predicate AccountsUnique(docs: map<ObjectId, Account>) {
    forall a, b :: a in docs && b in docs && a != b ==>
      && docs[a].email != docs[b].email
      && (docs[a].registrationNumber.Some? ==> docs[a].registrationNumber != docs[b].registrationNumber)
      && (docs[a].staffId.Some? ==> docs[a].staffId != docs[b].staffId)
  }

  /** Two distinct documents that may not coexist under the unique indexes. */
  predicate Clashes(other: Account, acc: Account) {
    || other.email == acc.email
    || (acc.registrationNumber.Some? && other.registrationNumber == acc.registrationNumber)
    || (acc.staffId.Some? && other.staffId == acc.staffId)
  }

  /** Saving `acc` under `id` would clash with another document on a unique index. */
  predicate AccountSaveConflict(docs: map<ObjectId, Account>, id: ObjectId, acc: Account) {
    exists k :: k in docs && k != id && Clashes(docs[k], acc)
  }

  /** A save (insert or replace) that the indexes let through keeps them satisfied. */
  lemma SaveKeepsAccountsUnique(docs: map<ObjectId, Account>, id: ObjectId, acc: Account)
    requires AccountsUnique(docs) && !AccountSaveConflict(docs, id, acc)
    ensures AccountsUnique(docs[id := acc])
  {
    var d := docs[id := acc];
    forall a, b | a in d && b in d && a != b
      ensures d[a].email != d[b].email
      ensures d[a].registrationNumber.Some? ==> d[a].registrationNumber != d[b].registrationNumber
      ensures d[a].staffId.Some? ==> d[a].staffId != d[b].staffId
    {
      if a == id {
        assert b in docs;
      } else if b == id {
        assert a in docs;
      }
    }
  }
}
