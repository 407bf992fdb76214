/** The database as five tables of rows in insertion order, the lookups the
    services issue against them, and the constraints the database keeps:
    unique ids and unique keys, and references that resolve. */
module Database {
  import opened Outcomes
  import opened Records
  import opened Seqs

  datatype Tables = Tables(
    admins: seq<Admin>,
    cohorts: seq<Cohort>,
    users: seq<User>,
    checkpoints: seq<Checkpoint>,
    submissions: seq<Submission>)

  /** No two rows of `s` share a `key`. */
  predicate UniqueBy<T, K(==)>(s: seq<T>, key: T -> K) {
    forall i, j :: 0 <= i < j < |s| ==> key(s[i]) != key(s[j])
  }

  function FindAdminByUsername(admins: seq<Admin>, username: string): Option<nat> {
    FindFirst(admins, (a: Admin) => a.username == username)
  }

  function FindCohort(cohorts: seq<Cohort>, id: Id): Option<nat> {
    FindFirst(cohorts, (c: Cohort) => c.id == id)
  }

  function FindCohortByNumber(cohorts: seq<Cohort>, cohortNumber: int): Option<nat> {
    FindFirst(cohorts, (c: Cohort) => c.cohortNumber == cohortNumber)
  }

  function FindUser(users: seq<User>, id: Id): Option<nat> {
    FindFirst(users, (u: User) => u.id == id)
  }

  function FindUserByUsername(users: seq<User>, username: string): Option<nat> {
    FindFirst(users, (u: User) => u.username == username)
  }

  function FindUserByMatric(users: seq<User>, matricNumber: string): Option<nat> {
    FindFirst(users, (u: User) => u.matricNumber == matricNumber)
  }

  function FindCheckpoint(checkpoints: seq<Checkpoint>, id: Id): Option<nat> {
    FindFirst(checkpoints, (c: Checkpoint) => c.id == id)
  }

  function FindSubmission(submissions: seq<Submission>, id: Id): Option<nat> {
    FindFirst(submissions, (s: Submission) => s.id == id)
  }

  /** `findFirst({ where: { userId, checkpointId } })`. */
  function FindSubmissionFor(submissions: seq<Submission>, userId: Id, checkpointId: Id): Option<nat> {
    FindFirst(submissions, (s: Submission) => s.userId == userId && s.checkpointId == checkpointId)
  }

  /** The first unique constraint of the users table that `u` would violate. */
  function UserClash(users: seq<User>, u: User): (f: Option<string>)
    ensures f.None? <==> FindUser(users, u.id).None?
                         && FindUserByUsername(users, u.username).None?
                         && FindUserByMatric(users, u.matricNumber).None?
  {
    if FindUser(users, u.id).Some? then Some("id")
    else if FindUserByUsername(users, u.username).Some? then Some("username")
    else if FindUserByMatric(users, u.matricNumber).Some? then Some("matricNumber")
    else None
  }

  ghost predicate KeysUnique(t: Tables) {
    && UniqueBy(t.admins, (a: Admin) => a.id)
    && UniqueBy(t.admins, (a: Admin) => a.username)
    && UniqueBy(t.cohorts, (c: Cohort) => c.id)
    && UniqueBy(t.cohorts, (c: Cohort) => c.cohortNumber)
    && UniqueBy(t.users, (u: User) => u.id)
    && UniqueBy(t.users, (u: User) => u.username)
    && UniqueBy(t.users, (u: User) => u.matricNumber)
    && UniqueBy(t.checkpoints, (c: Checkpoint) => c.id)
    && UniqueBy(t.submissions, (s: Submission) => s.id)
  }

  /** Every participant's cohort, and every submission's participant and
      checkpoint, exist. */
  ghost predicate ReferencesResolve(t: Tables) {
    && (forall i :: 0 <= i < |t.users| ==> FindCohort(t.cohorts, t.users[i].cohortId).Some?)
    && (forall i :: 0 <= i < |t.submissions| ==>
          && FindUser(t.users, t.submissions[i].userId).Some?
          && FindCheckpoint(t.checkpoints, t.submissions[i].checkpointId).Some?)
  }

  /** At most one submission per (participant, checkpoint) pair. */
  ghost predicate OneSubmissionPerPair(submissions: seq<Submission>) {
    forall i, j :: 0 <= i < j < |submissions| ==>
      (submissions[i].userId, submissions[i].checkpointId)
      != (submissions[j].userId, submissions[j].checkpointId)
  }

  ghost predicate WellFormed(t: Tables) {
    && KeysUnique(t)
    && ReferencesResolve(t)
    && OneSubmissionPerPair(t.submissions)
  }

  /** A row found by a lookup stays found when rows are appended. */
  lemma FindFirstAppend<T>(s: seq<T>, extra: seq<T>, p: T -> bool)
    requires FindFirst(s, p).Some?
    ensures FindFirst(s + extra, p) == FindFirst(s, p)
  {
    var k := FindFirst(s, p).value;
    assert (s + extra)[k] == s[k];
  }

  /** In a table with unique keys, a lookup by key finds the one row with
      that key. */
  lemma {:induction false} FindUnique<T, K>(s: seq<T>, key: T -> K, k: K, i: nat)
    requires UniqueBy(s, key) && i < |s| && key(s[i]) == k
    ensures FindFirst(s, (x: T) => key(x) == k) == Some(i)
  {
    assert FindFirst(s, (x: T) => key(x) == k).Some?;
  }

  /** Changing a row's fields other than its id keeps every lookup by id. */
  lemma FindUserUpdate(users: seq<User>, i: nat, u: User, id: Id)
    requires i < |users| && u.id == users[i].id
    ensures FindUser(users[i := u], id) == FindUser(users, id)
  {
    var p := (x: User) => x.id == id;
    var r, r' := FindFirst(users, p), FindFirst(users[i := u], p);
    if r.Some? {
      assert users[i := u][r.value].id == users[r.value].id;
    }
    if r'.Some? {
      assert users[i := u][r'.value].id == users[r'.value].id;
    }
  }

  /** Two tables whose rows agree on what a lookup tests give the same
      lookup result. */
  lemma {:induction false} FindFirstPointwise<T, U>(s: seq<T>, p: T -> bool, s': seq<U>, p': U -> bool)
    requires |s| == |s'| && forall k :: 0 <= k < |s| ==> p(s[k]) == p'(s'[k])
    ensures FindFirst(s, p) == FindFirst(s', p')
  {
    if s != [] {
      FindFirstPointwise(s[1..], p, s'[1..], p');
    }
  }

  /** Rows of `t'` that keep the keys and references of the rows of `t`. */
  ghost predicate SameKeys(t: Tables, t': Tables) {
    && t'.admins == t.admins && t'.cohorts == t.cohorts && t'.checkpoints == t.checkpoints
    && |t'.users| == |t.users|
    && (forall k :: 0 <= k < |t.users| ==>
          var u, u' := t.users[k], t'.users[k];
          u'.id == u.id && u'.username == u.username && u'.matricNumber == u.matricNumber && u'.cohortId == u.cohortId)
    && |t'.submissions| == |t.submissions|
    && (forall j :: 0 <= j < |t.submissions| ==>
          var s, s' := t.submissions[j], t'.submissions[j];
          s'.id == s.id && s'.userId == s.userId && s'.checkpointId == s.checkpointId)
  }

  /** Overwriting one submission row with a row of the same keys keeps a
      database well-formed. */
  lemma ReplaceSubmissionWellFormed(t: Tables, i: nat, s: Submission)
    requires WellFormed(t) && i < |t.submissions|
    requires s.id == t.submissions[i].id && s.userId == t.submissions[i].userId
    requires s.checkpointId == t.submissions[i].checkpointId
    ensures WellFormed(t.(submissions := t.submissions[i := s]))
  {
    SameKeysWellFormed(t, t.(submissions := t.submissions[i := s]));
  }

  /** Updating non-key fields in place keeps a database well-formed. */
  lemma SameKeysWellFormed(t: Tables, t': Tables)
    requires WellFormed(t) && SameKeys(t, t')
    ensures WellFormed(t')
  {
    forall j | 0 <= j < |t'.submissions|
      ensures FindUser(t'.users, t'.submissions[j].userId).Some?
    {
      var id := t.submissions[j].userId;
      FindFirstPointwise(t.users, (u: User) => u.id == id, t'.users, (u: User) => u.id == id);
    }
    assert UniqueBy(t'.users, (u: User) => u.id);
    assert UniqueBy(t'.users, (u: User) => u.username);
    assert UniqueBy(t'.users, (u: User) => u.matricNumber);
    assert UniqueBy(t'.submissions, (s: Submission) => s.id);
    assert OneSubmissionPerPair(t'.submissions);
  }
}
