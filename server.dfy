/**
 * The request handlers of server.js over an abstract store of School and
 * Account documents. Handlers that only read the store are functions of
 * its contents; handlers that write it are methods of `Backend`.
 * Password hashing, token signing and mail delivery are inputs: a
 * `passwordMatches` relation, the verified claims of a presented token,
 * and whether the mail was sent.
 */
module Server {
  import opened Wrappers
  import opened JsText
  import opened Documents
  import opened SchoolSchema
  import opened AccountSchema
  import opened IdGenerator
  import opened Store

  /** An HTTP reply: the status code, the JSON `message` ("" when there is none) and the payload. */
  datatype Reply<T> = Reply(status: nat, message: string, body: Option<T>)

  const ServerError := "Server error"
  const Unauthorized := "Unauthorized"
  const InvalidCredentials := "Invalid email or password"

  /** The claims a session token carries: `{id, role, email, schoolId}`. */
  datatype Claims = Claims(id: ObjectId, role: string, email: string, schoolId: Option<ObjectId>)

  /**
   * The bearer token of a request: none in the Authorization header, or
   * one whose `jwt.verify` either throws (None) or yields its claims.
   */
  datatype Bearer = NoToken | Token(verified: Option<Claims>)

  /** The token guard of the admin handlers: role "admin" and the requested school. */
  predicate IsAdminFor(c: Claims, schoolId: Option<ObjectId>) {
    c.role == "admin" && c.schoolId == schoolId
  }

  // ---------------------------------------------------------------------
  // Lookups (findOne filters)

  function HasSchoolEmail(email: string): School -> bool {
    (s: School) => s.schoolEmail == email
  }

  function HasSchoolCode(code: string): School -> bool {
    (s: School) => s.schoolCode == code
  }

  function HasEmail(email: string): Account -> bool {
    (a: Account) => a.email == email
  }

  predicate SchoolEmailTaken(docs: map<ObjectId, School>, email: string) {
    exists k :: k in docs && docs[k].schoolEmail == email
  }

  predicate SchoolCodeTaken(docs: map<ObjectId, School>, code: string) {
    exists k :: k in docs && docs[k].schoolCode == code
  }

  predicate AccountEmailTaken(docs: map<ObjectId, Account>, email: string) {
    exists k :: k in docs && docs[k].email == email
  }

  /** The findOne lookups by email and code find something exactly when the value is taken. */
  lemma SchoolEmailLookup(schools: Collection<School>, email: string)
    requires schools.Valid()
    ensures FindOne(schools, HasSchoolEmail(email)).Some? <==> SchoolEmailTaken(schools.docs, email)
  {
    if FindOne(schools, HasSchoolEmail(email)).None? {
      forall k | k in schools.docs ensures schools.docs[k].schoolEmail != email {
        assert !HasSchoolEmail(email)(schools.docs[k]);
      }
    }
  }

  lemma SchoolCodeLookup(schools: Collection<School>, code: string)
    requires schools.Valid()
    ensures FindOne(schools, HasSchoolCode(code)).Some? <==> SchoolCodeTaken(schools.docs, code)
    ensures FindOne(schools, HasSchoolCode(code)).Some? ==>
      schools.docs[FindOne(schools, HasSchoolCode(code)).value].schoolCode == code
  {
    if FindOne(schools, HasSchoolCode(code)).None? {
      forall k | k in schools.docs ensures schools.docs[k].schoolCode != code {
        assert !HasSchoolCode(code)(schools.docs[k]);
      }
    }
  }

  lemma AccountEmailLookup(accounts: Collection<Account>, email: string)
    requires accounts.Valid()
    ensures FindOne(accounts, HasEmail(email)).Some? <==> AccountEmailTaken(accounts.docs, email)
  {
    if FindOne(accounts, HasEmail(email)).None? {
      forall k | k in accounts.docs ensures accounts.docs[k].email != email {
        assert !HasEmail(email)(accounts.docs[k]);
      }
    }
  }

  /** `role || { $in: ["teacher", "student"] }`: an omitted role admits teachers and students. */
  predicate RoleAdmits(role: string, r: Role) {
    if role == "" then r == Teacher || r == Student else RoleName(r) == role
  }

  /** The filter `{ email, schoolId, role }` of the login handlers. */
  function IsLoginCandidate(email: string, schoolId: ObjectId, role: string): Account -> bool {
    (a: Account) => a.email == LowerTrim(email) && a.schoolId == Some(schoolId) && RoleAdmits(role, a.role)
  }

  /** The filter of /pendingUsers. */
  predicate IsPendingIn(schoolId: ObjectId, a: Account) {
    a.schoolId == Some(schoolId) && a.approvalStatus == Pending && (a.role == Teacher || a.role == Student)
  }

  function PendingFilter(schoolId: ObjectId): Account -> bool {
    (a: Account) => IsPendingIn(schoolId, a)
  }

  // ---------------------------------------------------------------------
  // GET /searchSchools

  /** The fields `.select("_id schoolName schoolCode schoolType state")` keeps. */
  datatype SchoolSummary = SchoolSummary(id: ObjectId, schoolName: string, schoolCode: string, schoolType: string, state: string)

  function Summary(id: ObjectId, s: School): SchoolSummary {
    SchoolSummary(id, s.schoolName, s.schoolCode, s.schoolType, s.state)
  }

  /** The search filter: unverified, and the query occurs in the name or the code, ignoring case. */
  predicate MatchesSearch(query: string, s: School) {
    !s.isVerified && (ContainsIgnoringCase(s.schoolName, query) || ContainsIgnoringCase(s.schoolCode, query))
  }

  function SearchFilter(query: string): School -> bool {
    (s: School) => MatchesSearch(query, s)
  }

  function Summaries(ids: seq<ObjectId>, docs: map<ObjectId, School>): (r: seq<SchoolSummary>)
    requires forall k :: 0 <= k < |ids| ==> ids[k] in docs
    ensures |r| == |ids| && forall k :: 0 <= k < |ids| ==> r[k] == Summary(ids[k], docs[ids[k]])
  {
    if ids == [] then [] else [Summary(ids[0], docs[ids[0]])] + Summaries(ids[1..], docs)
  }

  /**
   * A missing query, or one shorter than 2 UTF-16 code units, is refused
   * with 400. Otherwise the reply lists at most 10 distinct unverified
   * schools whose name or code contains the query case-insensitively, and
   * when fewer than 10 are listed every such school is.
   */
  function SearchSchools(schools: Collection<School>, query: string): (r: Reply<seq<SchoolSummary>>)
    requires schools.Valid()
    ensures Utf16Length(query) < 2 ==> r == Reply(400, "Query must be at least 2 characters long", None)
    ensures Utf16Length(query) >= 2 ==> r.status == 200 && r.body.Some? && |r.body.value| <= 10
    ensures Utf16Length(query) >= 2 ==> forall k :: 0 <= k < |r.body.value| ==>
      var s := r.body.value[k];
      s.id in schools.docs && s == Summary(s.id, schools.docs[s.id]) && MatchesSearch(query, schools.docs[s.id])
    ensures Utf16Length(query) >= 2 ==> forall i, j :: 0 <= i < j < |r.body.value| ==> r.body.value[i].id != r.body.value[j].id
    ensures Utf16Length(query) >= 2 && |r.body.value| < 10 ==>
      forall id :: id in schools.docs && MatchesSearch(query, schools.docs[id]) ==> Summary(id, schools.docs[id]) in r.body.value
  {
    if Utf16Length(query) < 2 then
      Reply(400, "Query must be at least 2 characters long", None)
    else
      var ids := FirstMatches(schools.order, schools.docs, SearchFilter(query), 10);
      var found := Summaries(ids, schools.docs);
      if |found| < 10 then
        assert forall id :: id in schools.docs && MatchesSearch(query, schools.docs[id]) ==> Summary(id, schools.docs[id]) in found by {
          forall id | id in schools.docs && MatchesSearch(query, schools.docs[id])
            ensures Summary(id, schools.docs[id]) in found
          {
            var i :| 0 <= i < |schools.order| && schools.order[i] == id;
            var k :| 0 <= k < |ids| && ids[k] == id;
            assert found[k] == Summary(id, schools.docs[id]);
          }
        }
        Reply(200, "", Some(found))
      else
        Reply(200, "", Some(found))
  }

  // ---------------------------------------------------------------------
  // POST /userLogin and POST /adminLogin

  /** The body of /userLogin; a request without a password has `password == None`. */
  datatype LoginRequest = LoginRequest(email: string, password: Option<string>, role: string, schoolId: ObjectId)

  /** The `user` object of a successful /userLogin reply. */
  datatype UserView = UserView(
    id: ObjectId, fullName: string, email: string, role: Role,
    staffId: Option<string>, registrationNumber: Option<string>, schoolId: ObjectId)

  /** The `admin` object of a successful /adminLogin reply. */
  datatype AdminView = AdminView(id: ObjectId, fullName: string, email: string, schoolId: ObjectId)

  /** A successful login: the claims of the issued token and the profile returned with it. */
  datatype Grant<V> = Grant(token: Claims, profile: V)

  /**
   * /userLogin: the school must exist (else 400), an account must match
   * email, school and role (else 400), it must be approved (else 403,
   * before the password is looked at), and the password must match (else
   * 400). A request without a password makes `bcrypt.compare` throw, which
   * is 500. A grant names the account, which belongs to the requested school.
   */
  function UserLogin(schools: Collection<School>, accounts: Collection<Account>, req: LoginRequest,
                     passwordMatches: (string, string) -> bool): (r: Reply<Grant<UserView>>)
    requires accounts.Valid()
    ensures r.status == 200 || r.status == 400 || r.status == 403 || r.status == 500
    ensures r.status != 200 <==> r.body.None?
    ensures req.schoolId !in schools.docs ==> r == Reply(400, "Invalid school", None)
    ensures r.status == 200 ==>
      var g := r.body.value;
      && req.schoolId in schools.docs && g.token.id in accounts.docs
      && var a := accounts.docs[g.token.id];
      && IsLoginCandidate(req.email, req.schoolId, req.role)(a)
      && a.approvalStatus == Approved && req.password.Some? && passwordMatches(req.password.value, a.password)
      && g.token == Claims(g.token.id, RoleName(a.role), a.email, Some(req.schoolId))
      && g.profile == UserView(g.token.id, a.fullName, a.email, a.role, a.staffId, a.registrationNumber, req.schoolId)
    ensures r.status == 403 ==>
      r.message == "Your account is not yet approved. Please wait for admin approval." &&
      exists k :: k in accounts.docs && IsLoginCandidate(req.email, req.schoolId, req.role)(accounts.docs[k])
        && accounts.docs[k].approvalStatus != Approved
    ensures r.status == 500 ==>
      r == Reply(500, ServerError, None) && req.password.None? &&
      exists k :: k in accounts.docs && IsLoginCandidate(req.email, req.schoolId, req.role)(accounts.docs[k])
        && accounts.docs[k].approvalStatus == Approved
    ensures req.schoolId in schools.docs && FindOne(accounts, IsLoginCandidate(req.email, req.schoolId, req.role)).None? ==>
      r == Reply(400, InvalidCredentials, None)
  {
    if req.schoolId !in schools.docs then
      Reply(400, "Invalid school", None)
    else match FindOne(accounts, IsLoginCandidate(req.email, req.schoolId, req.role))
      case None => Reply(400, InvalidCredentials, None)
      case Some(id) =>
        var a := accounts.docs[id];
        if a.approvalStatus != Approved then
          Reply(403, "Your account is not yet approved. Please wait for admin approval.", None)
        else if req.password.None? then
          Reply(500, ServerError, None)
        else if !passwordMatches(req.password.value, a.password) then
          Reply(400, InvalidCredentials, None)
        else
          Reply(200, "Login successful", Some(Grant(
            Claims(id, RoleName(a.role), a.email, Some(req.schoolId)),
            UserView(id, a.fullName, a.email, a.role, a.staffId, a.registrationNumber, req.schoolId))))
  }

  /** The filter `{ email, schoolId, role: "admin" }` of /adminLogin. */
  function IsAdminCandidate(email: string, schoolId: ObjectId): Account -> bool {
    (a: Account) => a.email == LowerTrim(email) && a.schoolId == Some(schoolId) && a.role == Admin
  }

  /** Exactly one account matches the /adminLogin filter, and the password matches it. */
  predicate SoleAdminCandidate(accounts: Collection<Account>, email: string, schoolId: ObjectId, password: string,
                               passwordMatches: (string, string) -> bool) {
    exists k :: k in accounts.docs && IsAdminCandidate(email, schoolId)(accounts.docs[k])
      && passwordMatches(password, accounts.docs[k].password)
      && (forall j :: j in accounts.docs && IsAdminCandidate(email, schoolId)(accounts.docs[j]) ==> j == k)
  }

  /**
   * /adminLogin: the school must exist, an admin account must match email
   * and school, and the password must match; anything else is 400, except
   * that a missing password makes `bcrypt.compare` throw once an admin is
   * found, which is 500. The approval status is not consulted. The token
   * carries role "admin" and the requested school.
   */
  function AdminLogin(schools: Collection<School>, accounts: Collection<Account>, email: string, password: Option<string>,
                      schoolId: ObjectId, passwordMatches: (string, string) -> bool): (r: Reply<Grant<AdminView>>)
    requires accounts.Valid()
    ensures r.status == 200 || r.status == 400 || r.status == 500
    ensures r.status != 200 <==> r.body.None?
    ensures schoolId !in schools.docs ==> r == Reply(400, "Invalid school", None)
    ensures r.status == 200 ==>
      var g := r.body.value;
      && schoolId in schools.docs && g.token.id in accounts.docs
      && var a := accounts.docs[g.token.id];
      && IsAdminCandidate(email, schoolId)(a) && password.Some? && passwordMatches(password.value, a.password)
      && g.token == Claims(g.token.id, "admin", a.email, Some(schoolId))
      && g.profile == AdminView(g.token.id, a.fullName, a.email, schoolId)
    ensures r.status == 500 ==>
      r == Reply(500, ServerError, None) && password.None? && schoolId in schools.docs &&
      exists k :: k in accounts.docs && IsAdminCandidate(email, schoolId)(accounts.docs[k])
    ensures schoolId in schools.docs && password.Some? &&
            SoleAdminCandidate(accounts, email, schoolId, password.value, passwordMatches) ==>
      r.status == 200
  {
    if schoolId !in schools.docs then
      Reply(400, "Invalid school", None)
    else match FindOne(accounts, IsAdminCandidate(email, schoolId))
      case None => Reply(400, InvalidCredentials, None)
      case Some(id) =>
        var a := accounts.docs[id];
        if password.None? then
          Reply(500, ServerError, None)
        else if !passwordMatches(password.value, a.password) then
          Reply(400, InvalidCredentials, None)
        else
          Reply(200, "Login successful", Some(Grant(
            Claims(id, "admin", a.email, Some(schoolId)),
            AdminView(id, a.fullName, a.email, schoolId))))
  }

  // ---------------------------------------------------------------------
  // GET /pendingUsers/:schoolId

  /**
   * /pendingUsers: no token is 401, a token that fails verification is
   * 500, a token that is not an admin's for this school is 401; otherwise
   * every pending teacher and student of the school is listed exactly
   * once, with its `_id`, and nothing else is.
   */
  function PendingUsers(accounts: Collection<Account>, bearer: Bearer, schoolId: ObjectId): (r: Reply<seq<Stored<Account>>>)
    requires accounts.Valid()
    ensures bearer == NoToken ==> r == Reply(401, Unauthorized, None)
    ensures bearer == Token(None) ==> r == Reply(500, ServerError, None)
    ensures bearer.Token? && bearer.verified.Some? && !IsAdminFor(bearer.verified.value, Some(schoolId)) ==>
      r == Reply(401, Unauthorized, None)
    ensures r.status == 200 <==> bearer.Token? && bearer.verified.Some? && IsAdminFor(bearer.verified.value, Some(schoolId))
    ensures r.status == 200 ==> r.body.Some?
    ensures r.status == 200 ==> forall k :: 0 <= k < |r.body.value| ==>
      var e := r.body.value[k];
      e.id in accounts.docs && e.doc == accounts.docs[e.id] && IsPendingIn(schoolId, e.doc)
    ensures r.status == 200 ==> forall id :: id in accounts.docs && IsPendingIn(schoolId, accounts.docs[id]) ==>
      Stored(id, accounts.docs[id]) in r.body.value
    ensures r.status == 200 ==> forall i, j :: 0 <= i < j < |r.body.value| ==> r.body.value[i].id != r.body.value[j].id
  {
    match bearer
    case NoToken => Reply(401, Unauthorized, None)
    case Token(None) => Reply(500, ServerError, None)
    case Token(Some(claims)) =>
      if !IsAdminFor(claims, Some(schoolId)) then
        Reply(401, Unauthorized, None)
      else
        var ids := AllMatches(accounts.order, accounts.docs, PendingFilter(schoolId));
        var found := StoredAt(ids, accounts.docs);
        assert forall id :: id in accounts.docs && IsPendingIn(schoolId, accounts.docs[id]) ==> Stored(id, accounts.docs[id]) in found by {
          forall id | id in accounts.docs && IsPendingIn(schoolId, accounts.docs[id])
            ensures Stored(id, accounts.docs[id]) in found
          {
            var i :| 0 <= i < |accounts.order| && accounts.order[i] == id;
            var j :| 0 <= j < |ids| && ids[j] == id;
            assert found[j] == Stored(id, accounts.docs[id]);
          }
        }
        Reply(200, "", Some(found))
  }

  // ---------------------------------------------------------------------
  // Properties across the login and admin handlers

  /**
   * Tenant isolation of /userLogin: since emails are unique, an account
   * of one school gets 400 when its email is presented at another school,
   * whatever the password and role.
   */
  lemma UserLoginTenantIsolation(db: Db, req: LoginRequest, passwordMatches: (string, string) -> bool, id: ObjectId)
    requires db.Valid() && id in db.accounts.docs
    requires db.accounts.docs[id].email == LowerTrim(req.email)
    requires db.accounts.docs[id].schoolId != Some(req.schoolId)
    ensures UserLogin(db.schools, db.accounts, req, passwordMatches).status == 400
  {
    var p := IsLoginCandidate(req.email, req.schoolId, req.role);
    forall k | k in db.accounts.docs ensures !p(db.accounts.docs[k]) {
      if k != id {
        assert db.accounts.docs[k].email != db.accounts.docs[id].email;
      }
    }
    assert FindOne(db.accounts, p).None?;
  }

  /**
   * An account that is not approved gets 403 from /userLogin at its own
   * school, whatever password is presented: the approval check comes
   * before the password check.
   */
  lemma UnapprovedAccountIsRefused(db: Db, req: LoginRequest, passwordMatches: (string, string) -> bool, id: ObjectId)
    requires db.Valid() && id in db.accounts.docs
    requires IsLoginCandidate(req.email, req.schoolId, req.role)(db.accounts.docs[id])
    requires db.accounts.docs[id].approvalStatus != Approved
    ensures UserLogin(db.schools, db.accounts, req, passwordMatches) ==
      Reply(403, "Your account is not yet approved. Please wait for admin approval.", None)
  {
    var p := IsLoginCandidate(req.email, req.schoolId, req.role);
    forall k | k in db.accounts.docs && p(db.accounts.docs[k]) ensures k == id {
      assert db.accounts.docs[k].email == db.accounts.docs[id].email;
    }
    FindOneUnique(db.accounts, p, id);
  }

  /**
   * An approved account whose password matches logs in at its own school:
   * the token names it, its role and the requested school.
   */
  lemma ApprovedAccountLogsIn(db: Db, req: LoginRequest, passwordMatches: (string, string) -> bool, id: ObjectId)
    requires db.Valid() && id in db.accounts.docs
    requires IsLoginCandidate(req.email, req.schoolId, req.role)(db.accounts.docs[id])
    requires db.accounts.docs[id].approvalStatus == Approved
    requires req.password.Some? && passwordMatches(req.password.value, db.accounts.docs[id].password)
    ensures var r := UserLogin(db.schools, db.accounts, req, passwordMatches);
      && r.status == 200 && r.body.Some?
      && r.body.value.token == Claims(id, RoleName(db.accounts.docs[id].role), db.accounts.docs[id].email, Some(req.schoolId))
  {
    var p := IsLoginCandidate(req.email, req.schoolId, req.role);
    forall k | k in db.accounts.docs && p(db.accounts.docs[k]) ensures k == id {
      assert db.accounts.docs[k].email == db.accounts.docs[id].email;
    }
    FindOneUnique(db.accounts, p, id);
  }

  /**
   * /adminLogin does not look at the approval status: an admin account
   * of the school whose password matches logs in, pending, approved or
   * rejected alike (nothing is required of its approvalStatus).
   */
  lemma AdminLoginIgnoresApproval(db: Db, email: string, password: string, schoolId: ObjectId,
                                  passwordMatches: (string, string) -> bool, id: ObjectId)
    requires db.Valid() && id in db.accounts.docs && schoolId in db.schools.docs
    requires IsAdminCandidate(email, schoolId)(db.accounts.docs[id])
    requires passwordMatches(password, db.accounts.docs[id].password)
    ensures var r := AdminLogin(db.schools, db.accounts, email, Some(password), schoolId, passwordMatches);
      r.status == 200 && r.body.Some? && r.body.value.token == Claims(id, "admin", db.accounts.docs[id].email, Some(schoolId))
  {
    var p := IsAdminCandidate(email, schoolId);
    forall k | k in db.accounts.docs && p(db.accounts.docs[k]) ensures k == id {
      assert db.accounts.docs[k].email == db.accounts.docs[id].email;
    }
    FindOneUnique(db.accounts, p, id);
  }

  /**
   * Every account /pendingUsers lists for a school gets 403 when it tries
   * /userLogin at that school without naming a role, whatever the
   * password, or none.
   */
  lemma ListedPendingUserCannotLogIn(db: Db, bearer: Bearer, schoolId: ObjectId, e: Stored<Account>,
                                     password: Option<string>, passwordMatches: (string, string) -> bool)
    requires db.Valid()
    requires PendingUsers(db.accounts, bearer, schoolId).status == 200
    requires e in PendingUsers(db.accounts, bearer, schoolId).body.value
    ensures UserLogin(db.schools, db.accounts, LoginRequest(e.doc.email, password, "", schoolId), passwordMatches).status == 403
  {
    PendingAccountIsRefused(db, e.id, password, passwordMatches);
  }

  /** A pending teacher or student gets 403 from /userLogin at its own school when no role is named. */
  lemma PendingAccountIsRefused(db: Db, k: ObjectId, password: Option<string>, passwordMatches: (string, string) -> bool)
    requires db.Valid() && k in db.accounts.docs
    requires db.accounts.docs[k].schoolId.Some? && IsPendingIn(db.accounts.docs[k].schoolId.value, db.accounts.docs[k])
    ensures var a := db.accounts.docs[k];
      UserLogin(db.schools, db.accounts, LoginRequest(a.email, password, "", a.schoolId.value), passwordMatches).status == 403
  {
    var a := db.accounts.docs[k];
    assert ValidAccount(a);
    LowerTrimOfNormalised(a.email);
    UnapprovedAccountIsRefused(db, LoginRequest(a.email, password, "", a.schoolId.value), passwordMatches, k);
  }

  // ---------------------------------------------------------------------
  // The approval step of POST /approveUser

  /**
   * The fields /approveUser assigns before saving: a teacher gets a fresh
   * staffId, a student a fresh registrationNumber, an admin neither; the
   * status becomes approved, with the time and the approving admin.
   */
  function Approve(a: Account, approver: ObjectId, now: nat, staffRand: nat, regRand: nat): Account
    requires staffRand < 100 && regRand < 1000
  {
    var withId :=
      if a.role == Teacher then a.(staffId := Some(StaffId(now, staffRand)))
      else if a.role == Student then a.(registrationNumber := Some(StudentRegNo(now, regRand)))
      else a;
    withId.(approvalStatus := Approved, approvedAt := Some(now), approvedBy := Some(approver))
  }

  /** The `generatedId` of the reply: the staffId of a teacher, the registrationNumber of anyone else. */
  function GeneratedId(a: Account): Option<string> {
    if a.role == Teacher then a.staffId else a.registrationNumber
  }

  /**
   * Approval sets the approval fields, gives teachers and students their
   * role's identifier, keeps every other field, and does not depend on
   * the status the account had before.
   */
  lemma ApproveEffect(a: Account, approver: ObjectId, now: nat, staffRand: nat, regRand: nat, prior: ApprovalStatus)
    requires staffRand < 100 && regRand < 1000
    ensures var b := Approve(a, approver, now, staffRand, regRand);
      && b.approvalStatus == Approved && b.approvedAt == Some(now) && b.approvedBy == Some(approver)
      && (a.role == Teacher ==> b.staffId == Some(StaffId(now, staffRand)) && GeneratedId(b) == b.staffId
                                && b.registrationNumber == a.registrationNumber)
      && (a.role == Student ==> b.registrationNumber == Some(StudentRegNo(now, regRand)) && GeneratedId(b) == b.registrationNumber
                                && b.staffId == a.staffId)
      && (a.role == Admin ==> b.staffId == a.staffId && b.registrationNumber == a.registrationNumber)
      && b.(staffId := a.staffId, registrationNumber := a.registrationNumber, approvalStatus := a.approvalStatus,
            approvedAt := a.approvedAt, approvedBy := a.approvedBy) == a
      && ValidAccount(b) == ValidAccount(a)
      && Approve(a.(approvalStatus := prior), approver, now, staffRand, regRand) == b
  {
  }

  // ---------------------------------------------------------------------
  // Handlers that write the store

  datatype SignupInput = SignupInput(
    fullName: string, email: string, password: string,
    phoneNumber: Option<string>, department: Option<string>, schoolCode: string)

  /**
   * The account /teacherSignup or /studentSignup builds: the given role,
   * the school's id, status pending and a student-style registrationNumber
   * for both roles; department only for teachers.
   */
  function SignupAccount(role: Role, input: SignupInput, passwordHash: string, schoolId: ObjectId, regNo: string, now: nat)
    : (r: Option<Account>)
    ensures r.Some? <==> Trim(input.fullName) != [] && LowerTrim(input.email) != [] && passwordHash != []
    ensures r.Some? ==> var a := r.value;
      && ValidAccount(a) && a.role == role && a.email == LowerTrim(input.email) && a.password == passwordHash
      && a.schoolId == Some(schoolId) && a.approvalStatus == Pending
      && a.registrationNumber == Some(regNo) && a.staffId.None?
      && a.department == (if role == Teacher then input.department else None)
      && a.phoneNumber == input.phoneNumber && a.createdAt == now
  {
    NewAccount(AccountInput(
      role, input.fullName, input.email, passwordHash, Some(schoolId), Some(regNo),
      if role == Teacher then input.department else None,
      input.phoneNumber, Some(Pending)), now)
  }

  /**
   * Both signup handlers give the new account a `STU-` registration
   * number, a teacher included, and no staffId: a teacher's staffId only
   * comes with approval.
   */
  lemma SignupGivesStudentNumber(role: Role, input: SignupInput, passwordHash: string, schoolId: ObjectId,
                                 now: nat, rand: nat)
    requires now >= 100000 && rand < 1000
    ensures var r := SignupAccount(role, input, passwordHash, schoolId, StudentRegNo(now, rand), now);
      r.Some? ==> && r.value.registrationNumber.Some? && r.value.staffId.None?
                  && |r.value.registrationNumber.value| == 13
                  && r.value.registrationNumber.value[..4] == StudentPrefix
  {
    StudentRegNoShape(now, rand);
  }

  function SignupMessage(role: Role): string {
    if role == Teacher then "Teacher registration submitted. Awaiting admin approval."
    else "Student registration submitted. Awaiting admin approval."
  }

  class Backend {
    /** The database all handlers share. */
    var db: Db

    ghost predicate Valid()
      reads this
    {
      db.Valid()
    }

    /** A backend over the documents the database already holds. */
    constructor (db0: Db)
      requires db0.Valid()
      ensures Valid() && db == db0
    {
      db := db0;
    }

    /**
     * `save()` of a new School that passed validation: the unique indexes
     * on schoolEmail and schoolCode reject it (None, nothing written), or
     * it is stored under a fresh id.
     */
    method SaveNewSchool(s: School) returns (id: Option<ObjectId>)
      requires Valid() && ValidSchool(s)
      modifies this
      ensures Valid() && db.accounts == old(db.accounts)
      ensures SchoolSaveConflict(old(db.schools.docs), s) ==> id.None? && db == old(db)
      ensures !SchoolSaveConflict(old(db.schools.docs), s) ==>
        && id == Some(old(db.nextId))
        && db.schools == old(db.schools).Insert(old(db.nextId), s)
        && db.nextId == old(db.nextId) + 1
    {
      if SchoolSaveConflict(db.schools.docs, s) {
        return None;
      }
      var next := db.(schools := db.schools.Insert(db.nextId, s), nextId := db.nextId + 1);
      AddSchoolKeepsInvariant(db, s);
      assert next.Valid();
      id := Some(db.nextId);
      db := next;
    }

    /**
     * `save()` of a new Account that passed validation and names a stored
     * school: the unique indexes reject it (None, nothing written), or it
     * is stored under a fresh id.
     */
    method SaveNewAccount(a: Account) returns (id: Option<ObjectId>)
      requires Valid() && ValidAccount(a) && (a.schoolId.Some? ==> a.schoolId.value in db.schools.docs)
      modifies this
      ensures Valid() && db.schools == old(db.schools)
      ensures AccountSaveConflict(old(db.accounts.docs), old(db.nextId), a) ==> id.None? && db == old(db)
      ensures !AccountSaveConflict(old(db.accounts.docs), old(db.nextId), a) ==>
        && id == Some(old(db.nextId))
        && db.accounts == old(db.accounts).Insert(old(db.nextId), a)
        && db.nextId == old(db.nextId) + 1
    {
      if AccountSaveConflict(db.accounts.docs, db.nextId, a) {
        return None;
      }
      var next := db.(accounts := db.accounts.Insert(db.nextId, a), nextId := db.nextId + 1);
      AddAccountKeepsInvariant(db, a);
      assert next.Valid();
      id := Some(db.nextId);
      db := next;
    }

    /**
     * `save()` of a loaded Account after its fields were changed: the
     * unique indexes reject it (false, nothing written), or it replaces the
     * stored document.
     */
    method SaveAccount(id: ObjectId, a: Account) returns (saved: bool)
      requires Valid() && id in db.accounts.docs
      requires ValidAccount(a) && (a.schoolId.Some? ==> a.schoolId.value in db.schools.docs)
      modifies this
      ensures Valid() && db.schools == old(db.schools) && db.nextId == old(db.nextId)
      ensures AccountSaveConflict(old(db.accounts.docs), id, a) ==> !saved && db == old(db)
      ensures !AccountSaveConflict(old(db.accounts.docs), id, a) ==> saved && db.accounts == old(db.accounts).Replace(id, a)
    {
      if AccountSaveConflict(db.accounts.docs, id, a) {
        return false;
      }
      var next := db.(accounts := db.accounts.Replace(id, a));
      ReplaceAccountKeepsInvariant(db, id, a);
      assert next.Valid();
      db := next;
      saved := true;
    }

    /**
     * POST /register. A school email already registered is 400 and writes
     * nothing. Otherwise the new school is saved unverified unless
     * validation or the unique index on schoolCode rejects it (500,
     * nothing written). A failed mail after the save is 500, and the
     * school stays.
     */
    method Register(input: SchoolInput, mailSent: bool) returns (reply: Reply<()>)
      requires Valid()
      modifies this
      ensures Valid() && db.accounts == old(db.accounts)
      ensures SchoolEmailTaken(old(db.schools.docs), LowerTrim(input.schoolEmail)) ==>
        reply == Reply(400, "School already exists", None) && db == old(db)
      ensures !SchoolEmailTaken(old(db.schools.docs), LowerTrim(input.schoolEmail)) &&
              (NewSchool(input).None? || SchoolCodeTaken(old(db.schools.docs), input.schoolCode)) ==>
        reply == Reply(500, ServerError, None) && db == old(db)
      ensures !SchoolEmailTaken(old(db.schools.docs), LowerTrim(input.schoolEmail)) &&
              NewSchool(input).Some? && !SchoolCodeTaken(old(db.schools.docs), input.schoolCode) ==>
        && db.schools == old(db.schools).Insert(old(db.nextId), NewSchool(input).value)
        && !db.schools.docs[old(db.nextId)].isVerified
        && db.nextId == old(db.nextId) + 1
        && reply == (if mailSent then Reply(201, "School registered! Please check your email to verify.", None)
                     else Reply(500, ServerError, None))
    {
      var email := LowerTrim(input.schoolEmail);
      var existing := FindOne(db.schools, HasSchoolEmail(email));
      SchoolEmailLookup(db.schools, email);
      if existing.Some? {
        reply := Reply(400, "School already exists", None);
        return;
      }
      var created := NewSchool(input);
      if created.None? {
        reply := Reply(500, ServerError, None);
        return;
      }
      var school := created.value;
      SaveConflictIsCodeClash(db.schools.docs, school);
      var saved := SaveNewSchool(school);
      if saved.None? {
        reply := Reply(500, ServerError, None);
        return;
      }
      if !mailSent {
        reply := Reply(500, ServerError, None);
        return;
      }
      reply := Reply(201, "School registered! Please check your email to verify.", None);
    }

    /**
     * POST /teacherSignup (role Teacher) and POST /studentSignup (role
     * Student). An unknown school code, then an email some account already
     * has, is 400. Otherwise the account `SignupAccount` builds for the
     * school with that code is saved; a document that fails validation or
     * a unique index is 500 and writes nothing. A failed mail after the
     * save is 500, and the account stays.
     */
    method Signup(role: Role, input: SignupInput, passwordHash: string, now: nat, rand: nat, mailSent: bool)
      returns (reply: Reply<ObjectId>)
      requires Valid() && role != Admin && rand < 1000
      modifies this
      ensures Valid() && db.schools == old(db.schools)
      ensures !SchoolCodeTaken(old(db.schools.docs), input.schoolCode) ==>
        reply == Reply(400, "Invalid school code", None) && db == old(db)
      ensures SchoolCodeTaken(old(db.schools.docs), input.schoolCode) &&
              AccountEmailTaken(old(db.accounts.docs), LowerTrim(input.email)) ==>
        reply == Reply(400, "Email already registered", None) && db == old(db)
      ensures SchoolCodeTaken(old(db.schools.docs), input.schoolCode) &&
              !AccountEmailTaken(old(db.accounts.docs), LowerTrim(input.email)) ==>
        var sid := FindOne(old(db.schools), HasSchoolCode(input.schoolCode)).value;
        var created := SignupAccount(role, input, passwordHash, sid, StudentRegNo(now, rand), now);
        if created.None? || AccountSaveConflict(old(db.accounts.docs), old(db.nextId), created.value) then
          reply == Reply(500, ServerError, None) && db == old(db)
        else
          && db.accounts == old(db.accounts).Insert(old(db.nextId), created.value)
          && db.nextId == old(db.nextId) + 1
          && reply == (if mailSent then Reply(201, SignupMessage(role), Some(old(db.nextId)))
                       else Reply(500, ServerError, None))
    {
      var school := FindOne(db.schools, HasSchoolCode(input.schoolCode));
      SchoolCodeLookup(db.schools, input.schoolCode);
      if school.None? {
        reply := Reply(400, "Invalid school code", None);
        return;
      }
      var email := LowerTrim(input.email);
      var existing := FindOne(db.accounts, HasEmail(email));
      AccountEmailLookup(db.accounts, email);
      if existing.Some? {
        reply := Reply(400, "Email already registered", None);
        return;
      }
      var created := SignupAccount(role, input, passwordHash, school.value, StudentRegNo(now, rand), now);
      if created.None? {
        reply := Reply(500, ServerError, None);
        return;
      }
      var saved := SaveNewAccount(created.value);
      if saved.None? {
        reply := Reply(500, ServerError, None);
        return;
      }
      if !mailSent {
        reply := Reply(500, ServerError, None);
        return;
      }
      reply := Reply(201, SignupMessage(role), saved);
    }

    /**
     * POST /approveUser. No token is 401, a token failing verification is
     * 500, a token that is not an admin's for the given school is 401; an
     * unknown user or one of another school is 404 (500 when the account
     * has no school). In all these cases nothing changes. Otherwise the
     * account becomes `Approve` of itself whatever its prior status, unless
     * a unique index rejects the save (500, nothing written); a failed mail
     * after the save is 500 and the approval stays.
     */
    method ApproveUser(bearer: Bearer, userId: ObjectId, schoolId: Option<ObjectId>, now: nat,
                       staffRand: nat, regRand: nat, mailSent: bool)
      returns (reply: Reply<Option<string>>)
      requires Valid() && staffRand < 100 && regRand < 1000
      modifies this
      ensures Valid() && db.schools == old(db.schools) && db.nextId == old(db.nextId)
      ensures bearer == NoToken ==> reply == Reply(401, Unauthorized, None) && db == old(db)
      ensures bearer == Token(None) ==> reply == Reply(500, ServerError, None) && db == old(db)
      ensures bearer.Token? && bearer.verified.Some? && !IsAdminFor(bearer.verified.value, schoolId) ==>
        reply == Reply(401, Unauthorized, None) && db == old(db)
      ensures bearer.Token? && bearer.verified.Some? && IsAdminFor(bearer.verified.value, schoolId) &&
              (userId !in old(db.accounts.docs) ||
               (old(db.accounts.docs[userId]).schoolId.Some? && old(db.accounts.docs[userId]).schoolId != schoolId)) ==>
        reply == Reply(404, "User not found", None) && db == old(db)
      ensures bearer.Token? && bearer.verified.Some? && IsAdminFor(bearer.verified.value, schoolId) &&
              userId in old(db.accounts.docs) && old(db.accounts.docs[userId]).schoolId.None? ==>
        reply == Reply(500, ServerError, None) && db == old(db)
      ensures bearer.Token? && bearer.verified.Some? && IsAdminFor(bearer.verified.value, schoolId) &&
              userId in old(db.accounts.docs) && old(db.accounts.docs[userId]).schoolId == schoolId && schoolId.Some? ==>
        var approved := Approve(old(db.accounts.docs[userId]), bearer.verified.value.id, now, staffRand, regRand);
        if AccountSaveConflict(old(db.accounts.docs), userId, approved) then
          reply == Reply(500, ServerError, None) && db == old(db)
        else
          && db.accounts == old(db.accounts).Replace(userId, approved)
          && reply == (if mailSent then Reply(200, "User approved successfully", Some(GeneratedId(approved)))
                       else Reply(500, ServerError, None))
    {
      if bearer.NoToken? {
        reply := Reply(401, Unauthorized, None);
        return;
      }
      if bearer.verified.None? {
        // jwt.verify throws
        reply := Reply(500, ServerError, None);
        return;
      }
      var decoded := bearer.verified.value;
      if decoded.role != "admin" || decoded.schoolId != schoolId {
        reply := Reply(401, Unauthorized, None);
        return;
      }
      if userId !in db.accounts.docs {
        reply := Reply(404, "User not found", None);
        return;
      }
      var user := db.accounts.docs[userId];
      if user.schoolId.None? {
        // `schoolId.toString()` throws on an account without a school
        reply := Reply(500, ServerError, None);
        return;
      }
      if user.schoolId != schoolId {
        reply := Reply(404, "User not found", None);
        return;
      }
      if user.role == Teacher {
        user := user.(staffId := Some(StaffId(now, staffRand)));
      } else if user.role == Student {
        user := user.(registrationNumber := Some(StudentRegNo(now, regRand)));
      }
      user := user.(approvalStatus := Approved);
      user := user.(approvedAt := Some(now));
      user := user.(approvedBy := Some(decoded.id));
      assert user == Approve(db.accounts.docs[userId], decoded.id, now, staffRand, regRand);
      ApproveEffect(db.accounts.docs[userId], decoded.id, now, staffRand, regRand, Pending);
      var saved := SaveAccount(userId, user);
      if !saved {
        reply := Reply(500, ServerError, None);
        return;
      }
      var idValue := if user.role == Teacher then user.staffId else user.registrationNumber;
      if !mailSent {
        reply := Reply(500, ServerError, None);
        return;
      }
      reply := Reply(200, "User approved successfully", Some(idValue));
    }
  }
}
