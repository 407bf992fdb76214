/** The administrator's service (server/src/api/admin/admin.service.ts):
    each operation is a function from the database before the call to the
    result and the database after it; the reads are filter-and-sort views. */
module AdminService {
  import opened Outcomes
  import opened Records
  import opened Seqs
  import opened Database
  import MatricNumber

  // ---------------------------------------------------------------- writes

  /** createCohort: a plain insert, refused by the database when the id or the
      cohort number is taken. */
  function AddCohort(t: Tables, id: Id, cohortNumber: int, name: Option<string>)
    : (Result<Cohort, Error>, Tables)
  {
    if FindCohort(t.cohorts, id).Some? then (Err(UniqueViolation("id")), t)
    else if FindCohortByNumber(t.cohorts, cohortNumber).Some? then (Err(UniqueViolation("cohortNumber")), t)
    else
      var c := Cohort(id, cohortNumber, name);
      (Ok(c), t.(cohorts := t.cohorts + [c]))
  }

  /** createCheckpoint: a plain insert, refused when the id is taken. */
  function AddCheckpoint(t: Tables, id: Id, title: string, description: Option<string>, deadline: int, points: int)
    : (Result<Checkpoint, Error>, Tables)
  {
    if FindCheckpoint(t.checkpoints, id).Some? then (Err(UniqueViolation("id")), t)
    else
      var c := Checkpoint(id, title, description, deadline, points);
      (Ok(c), t.(checkpoints := t.checkpoints + [c]))
  }

  /** The number of participants already in the cohort (`_count.users`). */
  function MemberCount(users: seq<User>, cohortId: Id): nat {
    |Filter(users, (u: User) => u.cohortId == cohortId)|
  }

  /** The row created for one enrollment entry; a new participant starts with
      no points and status "active". */
  function NewParticipant(id: Id, entry: Credentials, hash: string -> string, matricNumber: string, cohortId: Id): User {
    User(id, entry.username, hash(entry.password), matricNumber, cohortId, 0, "active")
  }

  /** The rows addUsersToCohort tries to create, in input order, numbering
      the participants from count + 1 on; `number` turns a cohort number and
      a participant number into a matriculation number. */
  function Batch(cohort: Cohort, count: nat, entries: seq<Credentials>, ids: seq<Id>, hash: string -> string,
                 number: (int, int) -> string)
    : (b: seq<User>)
    requires |ids| == |entries|
    ensures |b| == |entries|
    ensures forall i :: 0 <= i < |b| ==> b[i].cohortId == cohort.id
    decreases |entries|
  {
    if entries == [] then []
    else
      [NewParticipant(ids[0], entries[0], hash, number(cohort.cohortNumber, count + 1), cohort.id)]
      + Batch(cohort, count + 1, entries[1..], ids[1..], hash, number)
  }

  /** Creates the rows one after another, stopping at the first one a unique
      constraint refuses; rows created before it stay (there is no rollback). */
  function CreateAll(users: seq<User>, batch: seq<User>): (seq<User>, Option<string>)
    decreases |batch|
  {
    if batch == [] then (users, None)
    else match UserClash(users, batch[0])
      case Some(f) => (users, Some(f))
      case None => CreateAll(users + [batch[0]], batch[1..])
  }

  /** The batch addUsersToCohort tries to create in an existing cohort. */
  function EnrollBatch(t: Tables, cohortId: Id, entries: seq<Credentials>, ids: seq<Id>, hash: string -> string)
    : (b: seq<User>)
    requires |ids| == |entries| && FindCohort(t.cohorts, cohortId).Some?
    ensures |b| == |entries|
    ensures forall i :: 0 <= i < |b| ==> b[i].cohortId == cohortId
  {
    Batch(t.cohorts[FindCohort(t.cohorts, cohortId).value], MemberCount(t.users, cohortId), entries, ids, hash,
          MatricNumber.GenerateMatricNumber)
  }

  /** addUsersToCohort(cohortId, users). */
  function Enroll(t: Tables, cohortId: Id, entries: seq<Credentials>, ids: seq<Id>, hash: string -> string)
    : (Result<seq<User>, Error>, Tables)
    requires |ids| == |entries|
  {
    if FindCohort(t.cohorts, cohortId).None? then (Err(CohortNotFound), t)
    else
      var batch := EnrollBatch(t, cohortId, entries, ids, hash);
      var (users', clash) := CreateAll(t.users, batch);
      (if clash.None? then Ok(batch) else Err(UniqueViolation(clash.value)), t.(users := users'))
  }

  /** reviewSubmission(submissionId, newStatus), one transaction: the status
      write and, on approval, the points increment persist together or not at
      all. Nothing checks the submission's current status. */
  function Review(t: Tables, submissionId: Id, newStatus: SubmissionStatus, now: int)
    : (Result<Submission, Error>, Tables)
    requires newStatus != Pending
  {
    match FindSubmission(t.submissions, submissionId)
    case None => (Err(SubmissionNotFound), t)
    case Some(i) =>
      var s := t.submissions[i];
      var updated := s.(status := newStatus, reviewedAt := Some(now));
      var reviewed := t.(submissions := t.submissions[i := updated]);
      if newStatus != Approved then (Ok(updated), reviewed)
      else match (FindUser(t.users, s.userId), FindCheckpoint(t.checkpoints, s.checkpointId))
        case (Some(u), Some(c)) =>
          var owner := t.users[u];
          (Ok(updated), reviewed.(users := t.users[u := owner.(points := owner.points + t.checkpoints[c].points)]))
        case _ => (Err(RecordNotFound), t)
  }

  // ---------------------------------------------------------------- reads

  /** loginAdmin: a token for a known username with a matching password. */
  function LoginAdmin(admins: seq<Admin>, username: string, password: string,
                      compare: (string, string) -> bool, sign: Claims -> string): (r: Option<string>)
    ensures r.Some? <==> FindAdminByUsername(admins, username).Some?
                         && compare(password, admins[FindAdminByUsername(admins, username).value].passwordHash)
    ensures r.Some? ==> var a := admins[FindAdminByUsername(admins, username).value];
                        r.value == sign(AdminClaims(a.id, a.username, a.role))
  {
    match FindAdminByUsername(admins, username)
    case None => None
    case Some(i) =>
      var a := admins[i];
      if !compare(password, a.passwordHash) then None
      else Some(sign(AdminClaims(a.id, a.username, a.role)))
  }

  datatype CohortSummary = CohortSummary(cohort: Cohort, userCount: nat)

  datatype CohortDetails = CohortDetails(cohort: Cohort, users: seq<User>)

  function ByCohortNumber(): (le: (Cohort, Cohort) -> bool)
    ensures TotalPreorder(le)
  {
    (a: Cohort, b: Cohort) => a.cohortNumber <= b.cohortNumber
  }

  function ByDeadline(): (le: (Checkpoint, Checkpoint) -> bool)
    ensures TotalPreorder(le)
  {
    (a: Checkpoint, b: Checkpoint) => a.deadline <= b.deadline
  }

  function ByCreatedAt(): (le: (Submission, Submission) -> bool)
    ensures TotalPreorder(le)
  {
    (a: Submission, b: Submission) => a.createdAt <= b.createdAt
  }

  /** Byte-wise lexicographic order on strings. */
  predicate StringLe(a: string, b: string) {
    a == [] || (b != [] && (a[0] < b[0] || (a[0] == b[0] && StringLe(a[1..], b[1..]))))
  }

  lemma {:induction false} StringLeTotal(a: string, b: string)
    ensures StringLe(a, b) || StringLe(b, a)
  {
    if a != [] && b != [] && a[0] == b[0] {
      StringLeTotal(a[1..], b[1..]);
    }
  }

  lemma {:induction false} StringLeTransitive(a: string, b: string, c: string)
    requires StringLe(a, b) && StringLe(b, c)
    ensures StringLe(a, c)
  {
    if a != [] && b != [] && c != [] && a[0] == b[0] == c[0] {
      StringLeTransitive(a[1..], b[1..], c[1..]);
    }
  }

  function ByMatricNumber(): (le: (User, User) -> bool)
    ensures TotalPreorder(le)
  {
    var le := (a: User, b: User) => StringLe(a.matricNumber, b.matricNumber);
    forall a: User, b: User ensures le(a, b) || le(b, a) {
      StringLeTotal(a.matricNumber, b.matricNumber);
    }
    forall a: User, b: User, c: User | le(a, b) && le(b, c) ensures le(a, c) {
      StringLeTransitive(a.matricNumber, b.matricNumber, c.matricNumber);
    }
    le
  }

  /** getAllCohorts: every cohort with its participant count, by cohort number
      ascending. */
  function AllCohorts(t: Tables): (r: seq<CohortSummary>)
    ensures |r| == |t.cohorts|
    ensures forall i :: 0 <= i < |r| ==> r[i].userCount == MemberCount(t.users, r[i].cohort.id)
    ensures forall i, j :: 0 <= i < j < |r| ==> r[i].cohort.cohortNumber <= r[j].cohort.cohortNumber
    ensures multiset(seq(|r|, i requires 0 <= i < |r| => r[i].cohort)) == multiset(t.cohorts)
  {
    var sorted := Sort(t.cohorts, ByCohortNumber());
    var r := seq(|sorted|, i requires 0 <= i < |sorted| => CohortSummary(sorted[i], MemberCount(t.users, sorted[i].id)));
    assert seq(|r|, i requires 0 <= i < |r| => r[i].cohort) == sorted;
    r
  }

  /** getCohortById: the cohort with its participants by matriculation number
      ascending, or nothing. */
  function CohortById(t: Tables, cohortId: Id): (r: Option<CohortDetails>)
    ensures r.None? <==> FindCohort(t.cohorts, cohortId).None?
    ensures r.Some? ==>
      && r.value.cohort == t.cohorts[FindCohort(t.cohorts, cohortId).value]
      && multiset(r.value.users) == multiset(Filter(t.users, (u: User) => u.cohortId == cohortId))
      && SortedBy(r.value.users, ByMatricNumber())
  {
    match FindCohort(t.cohorts, cohortId)
    case None => None
    case Some(i) =>
      Some(CohortDetails(t.cohorts[i], Sort(Filter(t.users, (u: User) => u.cohortId == cohortId), ByMatricNumber())))
  }

  /** getAllCheckpoints: every checkpoint, nearest deadline first. */
  function AllCheckpoints(checkpoints: seq<Checkpoint>): (r: seq<Checkpoint>)
    ensures multiset(r) == multiset(checkpoints)
    ensures forall i, j :: 0 <= i < j < |r| ==> r[i].deadline <= r[j].deadline
  {
    Sort(checkpoints, ByDeadline())
  }

  /** getPendingSubmissions, before the participant and checkpoint fields are
      joined in: the pending submissions, oldest first. */
  function PendingSubmissions(submissions: seq<Submission>): (r: seq<Submission>)
    ensures forall s :: s in r <==> s in submissions && s.status == Pending
    ensures forall s :: multiset(r)[s] == if s.status == Pending then multiset(submissions)[s] else 0
    ensures forall i, j :: 0 <= i < j < |r| ==> r[i].createdAt <= r[j].createdAt
  {
    var pending := Filter(submissions, (s: Submission) => s.status == Pending);
    var r := Sort(pending, ByCreatedAt());
    assert forall s :: s in r <==> s in multiset(r);
    r
  }

  /** One row of the pending queue, with the participant's and the
      checkpoint's display fields. */
  datatype PendingEntry = PendingEntry(
    submission: Submission,
    username: string,
    matricNumber: string,
    title: string,
    points: int)

  /** A submission row of a well-formed database names an existing
      participant and checkpoint. */
  lemma RowReferencesResolve(t: Tables, s: Submission)
    requires ReferencesResolve(t) && s in t.submissions
    ensures FindUser(t.users, s.userId).Some? && FindCheckpoint(t.checkpoints, s.checkpointId).Some?
  {
    var k :| 0 <= k < |t.submissions| && t.submissions[k] == s;
  }

  /** The `include` of getPendingSubmissions: the participant's username and
      matriculation number, the checkpoint's title and points. */
  function Joined(t: Tables, s: Submission): (e: PendingEntry)
    requires FindUser(t.users, s.userId).Some? && FindCheckpoint(t.checkpoints, s.checkpointId).Some?
  {
    var u := t.users[FindUser(t.users, s.userId).value];
    var c := t.checkpoints[FindCheckpoint(t.checkpoints, s.checkpointId).value];
    PendingEntry(s, u.username, u.matricNumber, c.title, c.points)
  }

  /** `e` shows its submission's own participant and checkpoint. */
  predicate JoinedRow(t: Tables, e: PendingEntry) {
    && FindUser(t.users, e.submission.userId).Some?
    && FindCheckpoint(t.checkpoints, e.submission.checkpointId).Some?
    && e == Joined(t, e.submission)
  }

  /** getPendingSubmissions: the pending queue, oldest first, each row joined
      with its participant and checkpoint. */
  function PendingQueue(t: Tables): (r: seq<PendingEntry>)
    requires ReferencesResolve(t)
    ensures |r| == |PendingSubmissions(t.submissions)|
    ensures forall i :: 0 <= i < |r| ==>
      r[i].submission == PendingSubmissions(t.submissions)[i] && JoinedRow(t, r[i])
  {
    var pending := PendingSubmissions(t.submissions);
    PendingRowsResolve(t, pending);
    JoinRows(t, pending)
  }

  /** Each row joined with its participant and checkpoint, in order. */
  function JoinRows(t: Tables, rows: seq<Submission>): (r: seq<PendingEntry>)
    requires forall i :: 0 <= i < |rows| ==>
      FindUser(t.users, rows[i].userId).Some? && FindCheckpoint(t.checkpoints, rows[i].checkpointId).Some?
    ensures |r| == |rows|
    ensures forall i :: 0 <= i < |r| ==> r[i] == Joined(t, rows[i])
  {
    seq(|rows|, i requires 0 <= i < |rows| => Joined(t, rows[i]))
  }

  /** Every row of the pending queue names an existing participant and
      checkpoint. */
  lemma PendingRowsResolve(t: Tables, pending: seq<Submission>)
    requires ReferencesResolve(t) && pending == PendingSubmissions(t.submissions)
    ensures forall i :: 0 <= i < |pending| ==>
      FindUser(t.users, pending[i].userId).Some? && FindCheckpoint(t.checkpoints, pending[i].checkpointId).Some?
  {
    forall i | 0 <= i < |pending|
      ensures FindUser(t.users, pending[i].userId).Some? && FindCheckpoint(t.checkpoints, pending[i].checkpointId).Some?
    {
      assert pending[i] in t.submissions;
      RowReferencesResolve(t, pending[i]);
    }
  }

  // ---------------------------------------------------------------- insert facts

  /** createCohort succeeds exactly when neither the id nor the cohort number
      is taken, and then appends the cohort; a refused insert changes
      nothing. */
  lemma AddCohortOutcome(t: Tables, id: Id, cohortNumber: int, name: Option<string>)
    ensures var (r, t') := AddCohort(t, id, cohortNumber, name);
      && (r.Ok? <==> (forall c :: c in t.cohorts ==> c.id != id && c.cohortNumber != cohortNumber))
      && (r.Ok? ==> r.value == Cohort(id, cohortNumber, name) && t' == t.(cohorts := t.cohorts + [r.value]))
      && (r.Err? ==> t' == t && r.error.UniqueViolation?)
  {
    var (r, t') := AddCohort(t, id, cohortNumber, name);
    if !r.Ok? {
      if FindCohort(t.cohorts, id).Some? {
        assert t.cohorts[FindCohort(t.cohorts, id).value] in t.cohorts;
      } else {
        assert t.cohorts[FindCohortByNumber(t.cohorts, cohortNumber).value] in t.cohorts;
      }
    }
  }

  /** createCohort keeps the database well-formed. */
  lemma AddCohortPreservesWellFormed(t: Tables, id: Id, cohortNumber: int, name: Option<string>)
    requires WellFormed(t)
    ensures WellFormed(AddCohort(t, id, cohortNumber, name).1)
  {
    var (r, t') := AddCohort(t, id, cohortNumber, name);
    if r.Ok? {
      forall k | 0 <= k < |t.users|
        ensures FindCohort(t'.cohorts, t.users[k].cohortId).Some?
      {
        FindFirstAppend(t.cohorts, [r.value], (c: Cohort) => c.id == t.users[k].cohortId);
      }
      assert UniqueBy(t'.cohorts, (c: Cohort) => c.id);
      assert UniqueBy(t'.cohorts, (c: Cohort) => c.cohortNumber);
    }
  }

  /** createCheckpoint succeeds exactly when the id is free, and then appends
      the checkpoint; a refused insert changes nothing. */
  lemma AddCheckpointOutcome(t: Tables, id: Id, title: string, description: Option<string>, deadline: int, points: int)
    ensures var (r, t') := AddCheckpoint(t, id, title, description, deadline, points);
      && (r.Ok? <==> (forall c :: c in t.checkpoints ==> c.id != id))
      && (r.Ok? ==> r.value == Checkpoint(id, title, description, deadline, points)
                    && t' == t.(checkpoints := t.checkpoints + [r.value]))
      && (r.Err? ==> t' == t && r.error == UniqueViolation("id"))
  {
    var (r, t') := AddCheckpoint(t, id, title, description, deadline, points);
    if !r.Ok? {
      assert t.checkpoints[FindCheckpoint(t.checkpoints, id).value] in t.checkpoints;
    }
  }

  /** createCheckpoint keeps the database well-formed. */
  lemma AddCheckpointPreservesWellFormed(t: Tables, id: Id, title: string, description: Option<string>, deadline: int, points: int)
    requires WellFormed(t)
    ensures WellFormed(AddCheckpoint(t, id, title, description, deadline, points).1)
  {
    var (r, t') := AddCheckpoint(t, id, title, description, deadline, points);
    if r.Ok? {
      forall j | 0 <= j < |t.submissions|
        ensures FindCheckpoint(t'.checkpoints, t.submissions[j].checkpointId).Some?
      {
        FindFirstAppend(t.checkpoints, [r.value], (c: Checkpoint) => c.id == t.submissions[j].checkpointId);
      }
      assert UniqueBy(t'.checkpoints, (c: Checkpoint) => c.id);
    }
  }

  // ---------------------------------------------------------------- enrollment facts

  /** The rows CreateAll leaves are the old rows plus a prefix of the batch;
      it stops short exactly when a unique constraint refused the next row. */
  lemma {:induction false} CreateAllPrefix(users: seq<User>, batch: seq<User>)
    ensures var users', clash := CreateAll(users, batch).0, CreateAll(users, batch).1;
      var k := |users'| - |users|;
      && 0 <= k <= |batch|
      && users' == users + batch[..k]
      && (clash.None? <==> k == |batch|)
      && (clash.Some? ==> UserClash(users', batch[k]) == clash)
    decreases |batch|
  {
    if batch != [] && UserClash(users, batch[0]).None? {
      var grown, rest := users + [batch[0]], batch[1..];
      assert CreateAll(users, batch) == CreateAll(grown, rest);
      CreateAllPrefix(grown, rest);
      var k := |CreateAll(grown, rest).0| - |users|;
      PrefixStep(users, batch, k - 1);
    }
  }

  /** Moving the head of the batch onto the rows is taking one more element
      of the batch. */
  lemma PrefixStep(users: seq<User>, batch: seq<User>, j: nat)
    requires j < |batch|
    ensures (users + [batch[0]]) + batch[1..][..j] == users + batch[..j + 1]
    ensures j + 1 < |batch| ==> batch[1..][j] == batch[j + 1]
  {
    assert batch[..j + 1] == [batch[0]] + batch[1..][..j];
  }

  /** When CreateAll refused nothing, the rows it added are the batch. */
  lemma CreateAllFinished(users: seq<User>, created: seq<User>, batch: seq<User>)
    requires CreateAll(users, batch) == (users + created, None)
    ensures created == batch
  {
    CreateAllPrefix(users, batch);
    assert batch[..|batch|] == batch;
    assert created == (users + created)[|users|..];
  }

  /** Entry i of a batch is input user i with participant number
      count + 1 + i. */
  lemma {:induction false} BatchEntry(cohort: Cohort, count: nat, entries: seq<Credentials>, ids: seq<Id>,
                                      hash: string -> string, number: (int, int) -> string, i: nat)
    requires |ids| == |entries| && i < |entries|
    ensures Batch(cohort, count, entries, ids, hash, number)[i]
            == NewParticipant(ids[i], entries[i], hash, number(cohort.cohortNumber, count + 1 + i), cohort.id)
    decreases i
  {
    var b := Batch(cohort, count, entries, ids, hash, number);
    var rest := Batch(cohort, count + 1, entries[1..], ids[1..], hash, number);
    assert b[1..] == rest;
    if i > 0 {
      BatchEntry(cohort, count + 1, entries[1..], ids[1..], hash, number, i - 1);
      assert b[i] == rest[i - 1];
      assert entries[1..][i - 1] == entries[i] && ids[1..][i - 1] == ids[i];
    }
  }

  /** BatchEntry for a caller that counts the participant number itself. */
  lemma BatchEntryNumbered(cohort: Cohort, count: nat, entries: seq<Credentials>, ids: seq<Id>,
                           hash: string -> string, number: (int, int) -> string, i: nat, userIndex: int)
    requires |ids| == |entries| && i < |entries| && userIndex == count + 1 + i
    ensures Batch(cohort, count, entries, ids, hash, number)[i]
            == NewParticipant(ids[i], entries[i], hash, number(cohort.cohortNumber, userIndex), cohort.id)
  {
    BatchEntry(cohort, count, entries, ids, hash, number, i);
  }

  /** One step of CreateAll from position i of the batch, whose entry is u. */
  lemma CreateAllStep(users: seq<User>, batch: seq<User>, i: nat, u: User)
    requires i < |batch| && batch[i] == u
    ensures UserClash(users, u).Some? ==> CreateAll(users, batch[i..]) == (users, UserClash(users, u))
    ensures UserClash(users, u).None? ==> CreateAll(users, batch[i..]) == CreateAll(users + [u], batch[i + 1..])
  {
    assert batch[i..][0] == u && batch[i..][1..] == batch[i + 1..];
  }

  /** addUsersToCohort: an unknown cohort creates nobody; otherwise the
      participants table grows by a prefix of the batch (input user i as
      participant number count + 1 + i), the rows created stay even when a
      later create fails, and only the participants table changes. */
  lemma EnrollOutcome(t: Tables, cohortId: Id, entries: seq<Credentials>, ids: seq<Id>, hash: string -> string)
    requires |ids| == |entries|
    ensures var r, t' := Enroll(t, cohortId, entries, ids, hash).0, Enroll(t, cohortId, entries, ids, hash).1;
      && t'.admins == t.admins && t'.cohorts == t.cohorts
      && t'.checkpoints == t.checkpoints && t'.submissions == t.submissions
      && (FindCohort(t.cohorts, cohortId).None? ==> r == Err(CohortNotFound) && t' == t)
      && (FindCohort(t.cohorts, cohortId).Some? ==>
            var batch := EnrollBatch(t, cohortId, entries, ids, hash);
            var k := |t'.users| - |t.users|;
            && 0 <= k <= |entries|
            && t'.users == t.users + batch[..k]
            && (r.Ok? <==> k == |entries|)
            && (r.Ok? ==> r.value == batch)
            && (r.Err? ==> k < |entries| && r.error.UniqueViolation?
                           && UserClash(t'.users, batch[k]) == Some(r.error.field)))
  {
    if FindCohort(t.cohorts, cohortId).Some? {
      EnrollGrowsByPrefix(t, cohortId, entries, ids, hash);
    }
  }

  /** EnrollOutcome for an existing cohort. */
  lemma EnrollGrowsByPrefix(t: Tables, cohortId: Id, entries: seq<Credentials>, ids: seq<Id>, hash: string -> string)
    requires |ids| == |entries| && FindCohort(t.cohorts, cohortId).Some?
    ensures var r, t' := Enroll(t, cohortId, entries, ids, hash).0, Enroll(t, cohortId, entries, ids, hash).1;
      var batch := EnrollBatch(t, cohortId, entries, ids, hash);
      var k := |t'.users| - |t.users|;
      && t' == t.(users := t'.users)
      && 0 <= k <= |entries|
      && t'.users == t.users + batch[..k]
      && (r.Ok? <==> k == |entries|)
      && (r.Ok? ==> r.value == batch)
      && (r.Err? ==> k < |entries| && r.error.UniqueViolation?
                     && UserClash(t'.users, batch[k]) == Some(r.error.field))
  {
    var batch := EnrollBatch(t, cohortId, entries, ids, hash);
    EnrollInCohort(t, cohortId, entries, ids, hash);
    CreateAllPrefix(t.users, batch);
  }

  /** addUsersToCohort only appends participants and leaves the other
      tables alone. */
  lemma EnrollKeepsRows(t: Tables, cohortId: Id, entries: seq<Credentials>, ids: seq<Id>, hash: string -> string)
    requires |ids| == |entries|
    ensures var t' := Enroll(t, cohortId, entries, ids, hash).1;
      && t'.admins == t.admins && t'.cohorts == t.cohorts
      && t'.checkpoints == t.checkpoints && t'.submissions == t.submissions
      && |t.users| <= |t'.users| && t'.users[..|t.users|] == t.users
  {
    if FindCohort(t.cohorts, cohortId).Some? {
      var batch := EnrollBatch(t, cohortId, entries, ids, hash);
      EnrollInCohort(t, cohortId, entries, ids, hash);
      CreateAllPrefix(t.users, batch);
      var users' := CreateAll(t.users, batch).0;
      assert users'[..|t.users|] == t.users;
    }
  }

  /** Enroll in an existing cohort is CreateAll of its batch. */
  lemma EnrollInCohort(t: Tables, cohortId: Id, entries: seq<Credentials>, ids: seq<Id>, hash: string -> string)
    requires |ids| == |entries| && FindCohort(t.cohorts, cohortId).Some?
    ensures var batch := EnrollBatch(t, cohortId, entries, ids, hash);
      var users', clash := CreateAll(t.users, batch).0, CreateAll(t.users, batch).1;
      Enroll(t, cohortId, entries, ids, hash)
      == (if clash.None? then Ok(batch) else Err(UniqueViolation(clash.value)), t.(users := users'))
  {
  }

  /** The batch addUsersToCohort tries to create: input user i becomes the
      active participant with no points, the given username, the hashed
      password and matriculation number (cohort number, count + 1 + i), in
      the requested cohort. With EnrollOutcome (the table grows by a prefix of
      this batch) this numbers every participant created. */
  lemma EnrollNumbering(t: Tables, cohortId: Id, entries: seq<Credentials>, ids: seq<Id>, hash: string -> string, i: nat)
    requires |ids| == |entries| && FindCohort(t.cohorts, cohortId).Some? && i < |entries|
    ensures var c := t.cohorts[FindCohort(t.cohorts, cohortId).value];
      EnrollBatch(t, cohortId, entries, ids, hash)[i]
      == NewParticipant(ids[i], entries[i], hash,
           MatricNumber.GenerateMatricNumber(c.cohortNumber, MemberCount(t.users, cohortId) + 1 + i), cohortId)
  {
    var c := t.cohorts[FindCohort(t.cohorts, cohortId).value];
    assert c.id == cohortId;
    BatchEntry(c, MemberCount(t.users, cohortId), entries, ids, hash, MatricNumber.GenerateMatricNumber, i);
  }

  /** addUsersToCohort succeeds only for an existing cohort. */
  lemma EnrollOkFound(t: Tables, cohortId: Id, entries: seq<Credentials>, ids: seq<Id>, hash: string -> string)
    requires |ids| == |entries| && Enroll(t, cohortId, entries, ids, hash).0.Ok?
    ensures FindCohort(t.cohorts, cohortId).Some?
  {
  }

  /** A successful addUsersToCohort creates one participant per input user. */
  lemma EnrollOkAppends(t: Tables, cohortId: Id, entries: seq<Credentials>, ids: seq<Id>, hash: string -> string)
    requires |ids| == |entries| && Enroll(t, cohortId, entries, ids, hash).0.Ok?
    ensures |Enroll(t, cohortId, entries, ids, hash).1.users| == |t.users| + |entries|
  {
    EnrollOutcome(t, cohortId, entries, ids, hash);
  }

  /** A successful addUsersToCohort returns the whole batch and appends it:
      input user i becomes participant number count + 1 + i. */
  lemma EnrollCreated(t: Tables, cohortId: Id, entries: seq<Credentials>, ids: seq<Id>, hash: string -> string)
    requires |ids| == |entries| && FindCohort(t.cohorts, cohortId).Some?
    requires Enroll(t, cohortId, entries, ids, hash).0.Ok?
    ensures var (r, t') := Enroll(t, cohortId, entries, ids, hash);
      var c := t.cohorts[FindCohort(t.cohorts, cohortId).value];
      && |r.value| == |entries|
      && t'.users == t.users + r.value
      && forall i :: 0 <= i < |entries| ==>
           r.value[i] == NewParticipant(ids[i], entries[i], hash,
             MatricNumber.GenerateMatricNumber(c.cohortNumber, MemberCount(t.users, cohortId) + 1 + i), cohortId)
  {
    var batch := EnrollBatch(t, cohortId, entries, ids, hash);
    EnrollInCohort(t, cohortId, entries, ids, hash);
    CreateAllPrefix(t.users, batch);
    assert batch[..|batch|] == batch;
    forall i | 0 <= i < |entries|
      ensures var c := t.cohorts[FindCohort(t.cohorts, cohortId).value];
        batch[i] == NewParticipant(ids[i], entries[i], hash,
          MatricNumber.GenerateMatricNumber(c.cohortNumber, MemberCount(t.users, cohortId) + 1 + i), cohortId)
    {
      EnrollNumbering(t, cohortId, entries, ids, hash, i);
    }
  }

  /** For a cohort number below 100 and at most 999 participants after the
      batch, the matriculation numbers of one batch are pairwise distinct. */
  lemma BatchMatricNumbersDistinct(cohort: Cohort, count: nat, entries: seq<Credentials>, ids: seq<Id>, hash: string -> string)
    requires |ids| == |entries|
    requires 0 <= cohort.cohortNumber < 100 && count + |entries| < 1000
    ensures var b := Batch(cohort, count, entries, ids, hash, MatricNumber.GenerateMatricNumber);
      forall i, j :: 0 <= i < j < |b| ==> b[i].matricNumber != b[j].matricNumber
  {
    var b := Batch(cohort, count, entries, ids, hash, MatricNumber.GenerateMatricNumber);
    forall i, j | 0 <= i < j < |b|
      ensures b[i].matricNumber != b[j].matricNumber
    {
      BatchEntry(cohort, count, entries, ids, hash, MatricNumber.GenerateMatricNumber, i);
      BatchEntry(cohort, count, entries, ids, hash, MatricNumber.GenerateMatricNumber, j);
      MatricNumber.MatricNumberInjective(cohort.cohortNumber, count + 1 + i, cohort.cohortNumber, count + 1 + j);
    }
  }

  /** Appending a participant that clashes with no key and names an existing
      cohort keeps the database well-formed. */
  lemma AddParticipantWellFormed(t: Tables, u: User)
    requires WellFormed(t)
    requires UserClash(t.users, u).None? && FindCohort(t.cohorts, u.cohortId).Some?
    ensures WellFormed(t.(users := t.users + [u]))
  {
    var t' := t.(users := t.users + [u]);
    forall i | 0 <= i < |t.submissions|
      ensures FindUser(t'.users, t.submissions[i].userId).Some?
    {
      FindFirstAppend(t.users, [u], (x: User) => x.id == t.submissions[i].userId);
    }
    assert UniqueBy(t'.users, (x: User) => x.id);
    assert UniqueBy(t'.users, (x: User) => x.username);
    assert UniqueBy(t'.users, (x: User) => x.matricNumber);
  }

  /** Creating rows one after another keeps the database well-formed. */
  lemma {:induction false} CreateAllWellFormed(t: Tables, batch: seq<User>)
    requires WellFormed(t)
    requires forall u :: u in batch ==> FindCohort(t.cohorts, u.cohortId).Some?
    ensures WellFormed(t.(users := CreateAll(t.users, batch).0))
    decreases |batch|
  {
    if batch != [] && UserClash(t.users, batch[0]).None? {
      AddParticipantWellFormed(t, batch[0]);
      CreateAllWellFormed(t.(users := t.users + [batch[0]]), batch[1..]);
    }
  }

  /** addUsersToCohort keeps every key unique and every reference resolving. */
  lemma EnrollPreservesWellFormed(t: Tables, cohortId: Id, entries: seq<Credentials>, ids: seq<Id>, hash: string -> string)
    requires WellFormed(t) && |ids| == |entries|
    ensures WellFormed(Enroll(t, cohortId, entries, ids, hash).1)
  {
    if FindCohort(t.cohorts, cohortId).Some? {
      var batch := EnrollBatch(t, cohortId, entries, ids, hash);
      CreateAllWellFormed(t, batch);
      assert Enroll(t, cohortId, entries, ids, hash).1 == t.(users := CreateAll(t.users, batch).0);
    }
  }

  // ---------------------------------------------------------------- review facts

  /** The points of the checkpoint that submission `s` answers. */
  function RewardOf(t: Tables, s: Submission): int
    requires FindCheckpoint(t.checkpoints, s.checkpointId).Some?
  {
    t.checkpoints[FindCheckpoint(t.checkpoints, s.checkpointId).value].points
  }

  /** reviewSubmission on an unknown id, or any failure inside the
      transaction, leaves the database as it was. */
  lemma ReviewFailureChangesNothing(t: Tables, submissionId: Id, newStatus: SubmissionStatus, now: int)
    requires newStatus != Pending
    ensures var (r, t') := Review(t, submissionId, newStatus, now);
      && (FindSubmission(t.submissions, submissionId).None? ==> r == Err(SubmissionNotFound))
      && (r.Err? ==> t' == t)
  {
  }

  /** reviewSubmission on a well-formed database: the submission gets the new
      status and the review time and nothing else; on approval its owner's
      points grow by exactly the checkpoint's points, on rejection no points
      change; no other submission or participant changes. */
  lemma ReviewEffect(t: Tables, submissionId: Id, newStatus: SubmissionStatus, now: int)
    requires WellFormed(t) && newStatus != Pending
    requires FindSubmission(t.submissions, submissionId).Some?
    ensures var i := FindSubmission(t.submissions, submissionId).value;
      var s := t.submissions[i];
      var (r, t') := Review(t, submissionId, newStatus, now);
      && FindCheckpoint(t.checkpoints, s.checkpointId).Some?
      && r == Ok(s.(status := newStatus, reviewedAt := Some(now)))
      && t' == t.(submissions := t.submissions[i := r.value],
                  users := if newStatus == Approved then Credit(t.users, s.userId, RewardOf(t, s)) else t.users)
  {
    var s := t.submissions[FindSubmission(t.submissions, submissionId).value];
    assert s in t.submissions;
    RowReferencesResolve(t, s);
    ReviewFound(t, submissionId, newStatus, now);
  }

  /** ReviewEffect, from only the facts of well-formedness it needs. */
  lemma ReviewFound(t: Tables, submissionId: Id, newStatus: SubmissionStatus, now: int)
    requires newStatus != Pending && UniqueBy(t.users, (u: User) => u.id)
    requires FindSubmission(t.submissions, submissionId).Some?
    requires var s := t.submissions[FindSubmission(t.submissions, submissionId).value];
      FindUser(t.users, s.userId).Some? && FindCheckpoint(t.checkpoints, s.checkpointId).Some?
    ensures var i := FindSubmission(t.submissions, submissionId).value;
      var s := t.submissions[i];
      var updated := s.(status := newStatus, reviewedAt := Some(now));
      Review(t, submissionId, newStatus, now)
      == (Ok(updated), t.(submissions := t.submissions[i := updated],
                          users := if newStatus == Approved then Credit(t.users, s.userId, RewardOf(t, s)) else t.users))
  {
    var s := t.submissions[FindSubmission(t.submissions, submissionId).value];
    if newStatus == Approved {
      CreditOwner(t.users, s.userId, RewardOf(t, s));
    }
  }

  /** In a table with unique ids, crediting the row a lookup by id finds is
      crediting every row with that id. */
  lemma CreditOwner(users: seq<User>, id: Id, amount: int)
    requires UniqueBy(users, (x: User) => x.id) && FindUser(users, id).Some?
    ensures var u := FindUser(users, id).value;
      users[u := users[u].(points := users[u].points + amount)] == Credit(users, id, amount)
  {
    OwnerUnique(users, id);
  }

  /** Every participant as it was, except that those with id `id` gain
      `amount` points. */
  function Credit(users: seq<User>, id: Id, amount: int): (r: seq<User>)
    ensures |r| == |users|
    ensures forall k :: 0 <= k < |r| ==>
      r[k] == users[k].(points := users[k].points + if users[k].id == id then amount else 0)
  {
    seq(|users|, k requires 0 <= k < |users| => users[k].(points := users[k].points + if users[k].id == id then amount else 0))
  }

  /** In a table with unique ids, the row a lookup by id finds is the only
      row with that id. */
  lemma OwnerUnique(users: seq<User>, id: Id)
    requires UniqueBy(users, (x: User) => x.id) && FindUser(users, id).Some?
    ensures forall k :: 0 <= k < |users| && users[k].id == id ==> k == FindUser(users, id).value
  {
    forall k | 0 <= k < |users| && users[k].id == id
      ensures k == FindUser(users, id).value
    {
      FindUnique(users, (x: User) => x.id, id, k);
    }
  }

  /** Nothing guards against re-review: approving the same submission twice
      credits its owner twice. */
  lemma ApprovingTwiceCreditsTwice(t: Tables, submissionId: Id, now1: int, now2: int, k: nat)
    requires WellFormed(t) && FindSubmission(t.submissions, submissionId).Some?
    requires k < |t.users|
    ensures var s := t.submissions[FindSubmission(t.submissions, submissionId).value];
      var t1 := Review(t, submissionId, Approved, now1).1;
      var t2 := Review(t1, submissionId, Approved, now2).1;
      && FindCheckpoint(t.checkpoints, s.checkpointId).Some?
      && |t2.users| == |t.users|
      && t2.users[k].points == t.users[k].points + if t.users[k].id == s.userId then 2 * RewardOf(t, s) else 0
  {
    var s := t.submissions[FindSubmission(t.submissions, submissionId).value];
    assert s in t.submissions;
    RowReferencesResolve(t, s);
    ApprovingTwiceFound(t, submissionId, now1, now2, k);
  }

  /** ApprovingTwiceCreditsTwice, from only the facts of well-formedness it
      needs. */
  lemma ApprovingTwiceFound(t: Tables, submissionId: Id, now1: int, now2: int, k: nat)
    requires UniqueBy(t.users, (u: User) => u.id)
    requires FindSubmission(t.submissions, submissionId).Some?
    requires var s := t.submissions[FindSubmission(t.submissions, submissionId).value];
      FindUser(t.users, s.userId).Some? && FindCheckpoint(t.checkpoints, s.checkpointId).Some?
    requires k < |t.users|
    ensures var s := t.submissions[FindSubmission(t.submissions, submissionId).value];
      var t1 := Review(t, submissionId, Approved, now1).1;
      var t2 := Review(t1, submissionId, Approved, now2).1;
      && |t2.users| == |t.users|
      && t2.users[k].points == t.users[k].points + if t.users[k].id == s.userId then 2 * RewardOf(t, s) else 0
  {
    var i := FindSubmission(t.submissions, submissionId).value;
    var s := t.submissions[i];
    var u := FindUser(t.users, s.userId).value;
    ReviewFound(t, submissionId, Approved, now1);
    var t1 := Review(t, submissionId, Approved, now1).1;
    var s1 := s.(status := Approved, reviewedAt := Some(now1));
    assert t1.submissions[i] == s1;
    assert FindSubmission(t1.submissions, submissionId) == Some(i);
    assert t1.users[u].id == s.userId;
    assert FindUser(t1.users, s.userId).Some?;
    assert RewardOf(t1, s1) == RewardOf(t, s);
    ReviewFound(t1, submissionId, Approved, now2);
  }

  /** reviewSubmission keeps the database well-formed. */
  lemma ReviewPreservesWellFormed(t: Tables, submissionId: Id, newStatus: SubmissionStatus, now: int)
    requires WellFormed(t) && newStatus != Pending
    ensures WellFormed(Review(t, submissionId, newStatus, now).1)
  {
    if FindSubmission(t.submissions, submissionId).Some? {
      var s := t.submissions[FindSubmission(t.submissions, submissionId).value];
      assert s in t.submissions;
      RowReferencesResolve(t, s);
      ReviewSameKeys(t, submissionId, newStatus, now);
      SameKeysWellFormed(t, Review(t, submissionId, newStatus, now).1);
    }
  }

  /** A review changes no key of any row. */
  lemma ReviewSameKeys(t: Tables, submissionId: Id, newStatus: SubmissionStatus, now: int)
    requires newStatus != Pending && UniqueBy(t.users, (u: User) => u.id)
    requires FindSubmission(t.submissions, submissionId).Some?
    requires var s := t.submissions[FindSubmission(t.submissions, submissionId).value];
      FindUser(t.users, s.userId).Some? && FindCheckpoint(t.checkpoints, s.checkpointId).Some?
    ensures SameKeys(t, Review(t, submissionId, newStatus, now).1)
  {
    ReviewFound(t, submissionId, newStatus, now);
  }

  /** Once reviewed, a submission is no longer in the pending queue. */
  lemma ReviewedLeavesPendingQueue(t: Tables, submissionId: Id, newStatus: SubmissionStatus, now: int)
    requires WellFormed(t) && newStatus != Pending
    ensures Review(t, submissionId, newStatus, now).0.Ok? ==>
      forall s :: s in PendingSubmissions(Review(t, submissionId, newStatus, now).1.submissions) ==> s.id != submissionId
  {
    if FindSubmission(t.submissions, submissionId).Some? {
      var i := FindSubmission(t.submissions, submissionId).value;
      var s := t.submissions[i];
      assert s in t.submissions;
      RowReferencesResolve(t, s);
      ReviewFound(t, submissionId, newStatus, now);
      OverwrittenRowLeavesQueue(t.submissions, i, s.(status := newStatus, reviewedAt := Some(now)));
    }
  }

  /** In a table with unique ids, overwriting row i with a row that is not
      pending leaves no pending row with row i's id. */
  lemma OverwrittenRowLeavesQueue(submissions: seq<Submission>, i: nat, row: Submission)
    requires i < |submissions| && UniqueBy(submissions, (s: Submission) => s.id) && row.status != Pending
    ensures forall s :: s in PendingSubmissions(submissions[i := row]) ==> s.id != submissions[i].id
  {
    var after := submissions[i := row];
    forall j | 0 <= j < |after| && after[j].status == Pending
      ensures after[j].id != submissions[i].id
    {
      assert after[j] == submissions[j];
    }
  }
}
