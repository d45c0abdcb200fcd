/**
 * The database the handlers share: the School and Account collections and
 * the next fresh ObjectId, the invariant it keeps between requests, and
 * the saves that preserve it.
 */
module Store {
  import opened Documents
  import opened SchoolSchema
  import opened AccountSchema

  datatype Db = Db(schools: Collection<School>, accounts: Collection<Account>, nextId: ObjectId) {
    /**
     * Both collections are well formed, every document passed validation,
     * ids are below the next fresh id, the unique indexes hold, and every
     * account's schoolId names a stored school.
     */
    predicate Valid() {
      && schools.Valid() && accounts.Valid()
      && IdsBelow(schools.docs, nextId) && IdsBelow(accounts.docs, nextId)
      && AllSchoolsValid(schools.docs) && AllAccountsValid(accounts.docs)
      && SchoolsUnique(schools.docs) && AccountsUnique(accounts.docs)
      && SchoolsResolve(schools.docs, accounts.docs)
    }
  }

  predicate IdsBelow<T>(docs: map<ObjectId, T>, nextId: ObjectId) {
    forall id :: id in docs ==> id < nextId
  }

  predicate AllSchoolsValid(docs: map<ObjectId, School>) {
    forall id {:trigger docs[id]} :: id in docs ==> ValidSchool(docs[id])
  }

  predicate AllAccountsValid(docs: map<ObjectId, Account>) {
    forall id {:trigger docs[id]} :: id in docs ==> ValidAccount(docs[id])
  }

  /** Every account's schoolId names a stored school. */
  predicate SchoolsResolve(schools: map<ObjectId, School>, accounts: map<ObjectId, Account>) {
    forall id :: id in accounts && accounts[id].schoolId.Some? ==> accounts[id].schoolId.value in schools
  }

  /** Saving a valid account that names a stored school keeps every account valid and resolvable. */
  lemma SaveKeepsAccountFields(schools: map<ObjectId, School>, accounts: map<ObjectId, Account>, id: ObjectId, a: Account)
    requires AllAccountsValid(accounts) && SchoolsResolve(schools, accounts)
    requires ValidAccount(a) && (a.schoolId.Some? ==> a.schoolId.value in schools)
    ensures AllAccountsValid(accounts[id := a]) && SchoolsResolve(schools, accounts[id := a])
  {
    var d := accounts[id := a];
    forall k | k in d ensures ValidAccount(d[k]) && (d[k].schoolId.Some? ==> d[k].schoolId.value in schools) {
      if k != id { assert d[k] == accounts[k]; }
    }
  }

  /** An id bound holds for every larger bound. */
  lemma IdsBelowGrows<T>(docs: map<ObjectId, T>, n: ObjectId, m: ObjectId)
    requires IdsBelow(docs, n) && n <= m
    ensures IdsBelow(docs, m)
  {
  }

  /** The school-side conjuncts of the invariant survive saving a new school under the next fresh id. */
  lemma AddSchoolKeepsSchoolSide(schools: map<ObjectId, School>, accounts: map<ObjectId, Account>, n: ObjectId, s: School)
    requires IdsBelow(schools, n) && AllSchoolsValid(schools) && SchoolsUnique(schools)
    requires SchoolsResolve(schools, accounts)
    requires ValidSchool(s) && !SchoolSaveConflict(schools, s)
    ensures IdsBelow(schools[n := s], n + 1) && AllSchoolsValid(schools[n := s])
    ensures SchoolsUnique(schools[n := s]) && SchoolsResolve(schools[n := s], accounts)
  {
    var d := schools[n := s];
    forall id | id in d ensures id < n + 1 && ValidSchool(d[id]) {
      if id != n { assert id in schools && d[id] == schools[id]; }
    }
    InsertKeepsSchoolsUnique(schools, n, s);
  }

  /** Saving a new school that passed validation and the unique indexes keeps the invariant. */
  lemma AddSchoolKeepsInvariant(db: Db, s: School)
    requires db.Valid() && ValidSchool(s) && !SchoolSaveConflict(db.schools.docs, s)
    ensures db.nextId !in db.schools.docs
    ensures db.(schools := db.schools.Insert(db.nextId, s), nextId := db.nextId + 1).Valid()
  {
    var n := db.nextId;
    assert n !in db.schools.docs;
    assert db.schools.Insert(n, s).docs == db.schools.docs[n := s];
    AddSchoolKeepsSchoolSide(db.schools.docs, db.accounts.docs, n, s);
    IdsBelowGrows(db.accounts.docs, n, n + 1);
  }

  /** The account-side conjuncts of the invariant survive saving a new account under the next fresh id. */
  lemma AddAccountKeepsAccountSide(schools: map<ObjectId, School>, accounts: map<ObjectId, Account>, n: ObjectId, a: Account)
    requires IdsBelow(accounts, n) && AllAccountsValid(accounts) && AccountsUnique(accounts)
    requires SchoolsResolve(schools, accounts)
    requires ValidAccount(a) && !AccountSaveConflict(accounts, n, a)
    requires a.schoolId.Some? ==> a.schoolId.value in schools
    ensures IdsBelow(accounts[n := a], n + 1) && AllAccountsValid(accounts[n := a])
    ensures AccountsUnique(accounts[n := a]) && SchoolsResolve(schools, accounts[n := a])
  {
    var d := accounts[n := a];
    forall id | id in d ensures id < n + 1 {
      if id != n { assert id in accounts; }
    }
    SaveKeepsAccountsUnique(accounts, n, a);
    SaveKeepsAccountFields(schools, accounts, n, a);
  }

  /**
   * Saving a new account under the next fresh id that passed validation
   * and the unique indexes, and whose school is stored, keeps the invariant.
   */
  lemma AddAccountKeepsInvariant(db: Db, a: Account)
    requires db.Valid() && ValidAccount(a) && !AccountSaveConflict(db.accounts.docs, db.nextId, a)
    requires a.schoolId.Some? ==> a.schoolId.value in db.schools.docs
    ensures db.nextId !in db.accounts.docs
    ensures db.(accounts := db.accounts.Insert(db.nextId, a), nextId := db.nextId + 1).Valid()
  {
    var n := db.nextId;
    assert n !in db.accounts.docs;
    assert db.accounts.Insert(n, a).docs == db.accounts.docs[n := a];
    AddAccountKeepsAccountSide(db.schools.docs, db.accounts.docs, n, a);
    IdsBelowGrows(db.schools.docs, n, n + 1);
  }

  /** Replacing an account by one that passes validation and the unique indexes, and names a stored school, keeps the invariant. */
  lemma ReplaceAccountKeepsInvariant(db: Db, id: ObjectId, a: Account)
    requires db.Valid() && id in db.accounts.docs
    requires ValidAccount(a) && !AccountSaveConflict(db.accounts.docs, id, a)
    requires a.schoolId.Some? ==> a.schoolId.value in db.schools.docs
    ensures db.(accounts := db.accounts.Replace(id, a)).Valid()
  {
    var d := db.accounts.Replace(id, a).docs;
    assert d == db.accounts.docs[id := a];
    SaveKeepsAccountsUnique(db.accounts.docs, id, a);
    SaveKeepsAccountFields(db.schools.docs, db.accounts.docs, id, a);
  }
}
