/** The participant's service (server/src/api/users/users.sevice.ts): log in
    by matriculation number, list the open checkpoints, and submit proof for
    a checkpoint, replacing an earlier submission for the same checkpoint. */
module UsersService {
  import opened Outcomes
  import opened Records
  import opened Seqs
  import opened Database
  import AdminService

  /** loginUser: a token for an active participant whose password matches;
      nothing for an unknown matriculation number, an inactive participant or
      a wrong password. */
  function LoginUser(users: seq<User>, matricNumber: string, password: string,
                     compare: (string, string) -> bool, sign: Claims -> string): (r: Option<string>)
    ensures r.Some? <==>
      && FindUserByMatric(users, matricNumber).Some?
      && users[FindUserByMatric(users, matricNumber).value].status == "active"
      && compare(password, users[FindUserByMatric(users, matricNumber).value].passwordHash)
    ensures r.Some? ==> var u := users[FindUserByMatric(users, matricNumber).value];
      r.value == sign(ParticipantClaims(u.id, u.matricNumber, u.cohortId))
  {
    match FindUserByMatric(users, matricNumber)
    case None => None
    case Some(i) =>
      var u := users[i];
      if u.status != "active" then None
      else if !compare(password, u.passwordHash) then None
      else Some(sign(ParticipantClaims(u.id, u.matricNumber, u.cohortId)))
  }

  /** A participant who is not active never gets a token, whatever the
      password check says; the token of an active one names the participant
      holding that matriculation number. */
  lemma InactiveNeverLogsIn(users: seq<User>, i: nat, password: string,
                            compare: (string, string) -> bool, sign: Claims -> string)
    requires UniqueBy(users, (u: User) => u.matricNumber) && i < |users|
    ensures var u := users[i];
      var r := LoginUser(users, u.matricNumber, password, compare, sign);
      && (u.status != "active" ==> r.None?)
      && (u.status == "active" && compare(password, u.passwordHash) ==>
            r == Some(sign(ParticipantClaims(u.id, u.matricNumber, u.cohortId))))
  {
    FindUnique(users, (u: User) => u.matricNumber, users[i].matricNumber, i);
    assert FindUserByMatric(users, users[i].matricNumber) == Some(i);
  }

  /** getActiveCheckpoints: the checkpoints whose deadline is not before
      `now` (the comparison is inclusive), nearest deadline first. */
  function ActiveCheckpoints(checkpoints: seq<Checkpoint>, now: int): (r: seq<Checkpoint>)
    ensures forall c :: c in r <==> c in checkpoints && c.deadline >= now
    ensures forall c :: multiset(r)[c] == if c.deadline >= now then multiset(checkpoints)[c] else 0
    ensures forall i, j :: 0 <= i < j < |r| ==> r[i].deadline <= r[j].deadline
  {
    var open := Filter(checkpoints, (c: Checkpoint) => c.deadline >= now);
    var r := Sort(open, AdminService.ByDeadline());
    SortSameElements(open, AdminService.ByDeadline());
    r
  }

  /** The fields a submission carries from the participant's upload; a new or
      resubmitted submission is pending review. */
  function Upload(s: Submission, certificateUrl: string, socialProofUrl: string): Submission {
    s.(fileUrl := certificateUrl, socialProofUrl := socialProofUrl, status := Pending)
  }

  /** createSubmission(userId, checkpointId, certificateUrl, socialProofUrl):
      overwrite the files of the participant's earlier submission for the
      checkpoint and send it back to pending (its id, creation time and
      review time stay), or insert a new pending submission, refused by the
      database when the participant or the checkpoint does not exist or the
      id is taken. */
  function Submit(t: Tables, newId: Id, userId: Id, checkpointId: Id,
                  certificateUrl: string, socialProofUrl: string, now: int)
    : (Result<Submission, Error>, Tables)
  {
    match FindSubmissionFor(t.submissions, userId, checkpointId)
    case Some(i) =>
      var s := Upload(t.submissions[i], certificateUrl, socialProofUrl);
      (Ok(s), t.(submissions := t.submissions[i := s]))
    case None =>
      if FindUser(t.users, userId).None? then (Err(ForeignKeyViolation("userId")), t)
      else if FindCheckpoint(t.checkpoints, checkpointId).None? then (Err(ForeignKeyViolation("checkpointId")), t)
      else if FindSubmission(t.submissions, newId).Some? then (Err(UniqueViolation("id")), t)
      else
        var s := Submission(newId, userId, checkpointId, certificateUrl, socialProofUrl, Pending, now, None);
        (Ok(s), t.(submissions := t.submissions + [s]))
  }

  /** createSubmission changes only the submissions table; a refused insert
      changes nothing; a successful call leaves the returned submission, with
      the uploaded files and status pending, as the participant's one row for
      the checkpoint. A resubmission keeps the row's id, creation time and
      review time; a first submission is appended, created now and never
      reviewed. */
  lemma SubmitOutcome(t: Tables, newId: Id, userId: Id, checkpointId: Id,
                      certificateUrl: string, socialProofUrl: string, now: int)
    ensures var (r, t') := Submit(t, newId, userId, checkpointId, certificateUrl, socialProofUrl, now);
      && t'.admins == t.admins && t'.cohorts == t.cohorts
      && t'.users == t.users && t'.checkpoints == t.checkpoints
      && (r.Err? ==> t' == t)
      && (r.Ok? ==>
            && r.value.userId == userId && r.value.checkpointId == checkpointId
            && r.value.fileUrl == certificateUrl && r.value.socialProofUrl == socialProofUrl
            && r.value.status == Pending
            && r.value in t'.submissions)
      && (FindSubmissionFor(t.submissions, userId, checkpointId).Some? ==>
            var i := FindSubmissionFor(t.submissions, userId, checkpointId).value;
            var prev := t.submissions[i];
            && r.Ok?
            && r.value.id == prev.id && r.value.createdAt == prev.createdAt
            && r.value.reviewedAt == prev.reviewedAt
            && t'.submissions == t.submissions[i := r.value])
      && (FindSubmissionFor(t.submissions, userId, checkpointId).None? ==>
            && (r.Ok? <==> FindUser(t.users, userId).Some?
                           && FindCheckpoint(t.checkpoints, checkpointId).Some?
                           && FindSubmission(t.submissions, newId).None?)
            && (r.Ok? ==> r.value.id == newId && r.value.createdAt == now && r.value.reviewedAt.None?
                          && t'.submissions == t.submissions + [r.value]))
  {
    var (r, t') := Submit(t, newId, userId, checkpointId, certificateUrl, socialProofUrl, now);
    if r.Ok? {
      match FindSubmissionFor(t.submissions, userId, checkpointId)
      case Some(i) =>
        assert t'.submissions[i] == r.value;
      case None =>
        assert t'.submissions[|t.submissions|] == r.value;
    }
  }

  /** Appending a submission of an existing participant for an existing
      checkpoint, with a fresh id and a pair not yet present, keeps the
      database well-formed. */
  lemma AddSubmissionWellFormed(t: Tables, s: Submission)
    requires WellFormed(t)
    requires FindUser(t.users, s.userId).Some? && FindCheckpoint(t.checkpoints, s.checkpointId).Some?
    requires FindSubmission(t.submissions, s.id).None?
    requires FindSubmissionFor(t.submissions, s.userId, s.checkpointId).None?
    ensures WellFormed(t.(submissions := t.submissions + [s]))
  {
    AppendSubmissionUnique(t.submissions, s);
    AppendSubmissionOnePerPair(t.submissions, s);
    AppendSubmissionResolves(t, s);
  }

  /** A submission whose id is not taken keeps submission ids unique. */
  lemma AppendSubmissionUnique(subs: seq<Submission>, s: Submission)
    requires UniqueBy(subs, (x: Submission) => x.id) && FindSubmission(subs, s.id).None?
    ensures UniqueBy(subs + [s], (x: Submission) => x.id)
  {
    var subs' := subs + [s];
    forall i | 0 <= i < |subs|
      ensures subs'[i].id != s.id
    {
      assert subs'[i] == subs[i];
    }
  }

  /** A submission for a pair that has none keeps one submission per pair. */
  lemma AppendSubmissionOnePerPair(subs: seq<Submission>, s: Submission)
    requires OneSubmissionPerPair(subs) && FindSubmissionFor(subs, s.userId, s.checkpointId).None?
    ensures OneSubmissionPerPair(subs + [s])
  {
    var subs' := subs + [s];
    forall i | 0 <= i < |subs|
      ensures (subs'[i].userId, subs'[i].checkpointId) != (s.userId, s.checkpointId)
    {
      assert subs'[i] == subs[i];
    }
  }

  /** A submission whose participant and checkpoint exist keeps every
      reference resolving. */
  lemma AppendSubmissionResolves(t: Tables, s: Submission)
    requires ReferencesResolve(t)
    requires FindUser(t.users, s.userId).Some? && FindCheckpoint(t.checkpoints, s.checkpointId).Some?
    ensures ReferencesResolve(t.(submissions := t.submissions + [s]))
  {
    var subs := t.submissions + [s];
    forall j | 0 <= j < |subs|
      ensures FindUser(t.users, subs[j].userId).Some?
      ensures FindCheckpoint(t.checkpoints, subs[j].checkpointId).Some?
    {
      if j < |t.submissions| {
        assert subs[j] == t.submissions[j];
      }
    }
  }

  /** createSubmission keeps the database well-formed: in particular a
      participant never holds two submissions for one checkpoint. */
  lemma SubmitPreservesWellFormed(t: Tables, newId: Id, userId: Id, checkpointId: Id,
                                  certificateUrl: string, socialProofUrl: string, now: int)
    requires WellFormed(t)
    ensures WellFormed(Submit(t, newId, userId, checkpointId, certificateUrl, socialProofUrl, now).1)
  {
    match FindSubmissionFor(t.submissions, userId, checkpointId)
    case Some(i) =>
      ReplaceSubmissionWellFormed(t, i, Upload(t.submissions[i], certificateUrl, socialProofUrl));
    case None =>
      if && FindUser(t.users, userId).Some? && FindCheckpoint(t.checkpoints, checkpointId).Some?
         && FindSubmission(t.submissions, newId).None?
      {
        AddSubmissionWellFormed(t, Submission(newId, userId, checkpointId, certificateUrl, socialProofUrl, Pending, now, None));
      }
  }

  /** The number of submissions of `userId` for `checkpointId`. */
  function PairCount(submissions: seq<Submission>, userId: Id, checkpointId: Id): nat {
    |Filter(submissions, (s: Submission) => s.userId == userId && s.checkpointId == checkpointId)|
  }

  /** In a table with one submission per pair, a pair occurs once if its
      lookup finds a row and not at all otherwise. */
  lemma {:induction false} PairCountAtMostOne(submissions: seq<Submission>, userId: Id, checkpointId: Id)
    requires OneSubmissionPerPair(submissions)
    ensures PairCount(submissions, userId, checkpointId)
            == if FindSubmissionFor(submissions, userId, checkpointId).Some? then 1 else 0
  {
    if submissions != [] {
      var p := (s: Submission) => s.userId == userId && s.checkpointId == checkpointId;
      var rest := submissions[1..];
      assert OneSubmissionPerPair(rest) by {
        forall i, j | 0 <= i < j < |rest|
          ensures (rest[i].userId, rest[i].checkpointId) != (rest[j].userId, rest[j].checkpointId)
        {
          assert rest[i] == submissions[i + 1] && rest[j] == submissions[j + 1];
        }
      }
      PairCountAtMostOne(rest, userId, checkpointId);
      FilterCons(submissions[0], rest, p);
      assert submissions == [submissions[0]] + rest;
      if p(submissions[0]) {
        assert forall k :: 0 <= k < |rest| ==> !p(rest[k]) by {
          forall k | 0 <= k < |rest|
            ensures !p(rest[k])
          {
            assert rest[k] == submissions[k + 1];
          }
        }
      }
    }
  }

  /** After a successful submission on a well-formed database the
      participant has exactly one submission for the checkpoint. */
  lemma SubmitLeavesOneRow(t: Tables, newId: Id, userId: Id, checkpointId: Id,
                           certificateUrl: string, socialProofUrl: string, now: int)
    requires WellFormed(t)
    ensures var (r, t') := Submit(t, newId, userId, checkpointId, certificateUrl, socialProofUrl, now);
      r.Ok? ==> PairCount(t'.submissions, userId, checkpointId) == 1
  {
    var (r, t') := Submit(t, newId, userId, checkpointId, certificateUrl, socialProofUrl, now);
    if r.Ok? {
      SubmitOutcome(t, newId, userId, checkpointId, certificateUrl, socialProofUrl, now);
      SubmitPreservesWellFormed(t, newId, userId, checkpointId, certificateUrl, socialProofUrl, now);
      PairCountAtMostOne(t'.submissions, userId, checkpointId);
      var p := (s: Submission) => s.userId == userId && s.checkpointId == checkpointId;
      assert p(r.value);
      assert FindSubmissionFor(t'.submissions, userId, checkpointId).Some?;
    }
  }

  /** A successful submission enters the pending queue, whatever state its
      earlier version was in: a reviewed submission is reopened by a
      resubmission. */
  lemma SubmittedIsPending(t: Tables, newId: Id, userId: Id, checkpointId: Id,
                           certificateUrl: string, socialProofUrl: string, now: int)
    ensures var (r, t') := Submit(t, newId, userId, checkpointId, certificateUrl, socialProofUrl, now);
      r.Ok? ==> r.value in AdminService.PendingSubmissions(t'.submissions)
  {
    SubmitOutcome(t, newId, userId, checkpointId, certificateUrl, socialProofUrl, now);
  }

  /** Submitting twice for the same checkpoint leaves one row, carrying the
      second upload's files, with the id of the first. */
  lemma ResubmitReplaces(t: Tables, newId1: Id, newId2: Id, userId: Id, checkpointId: Id,
                         cert1: string, social1: string, cert2: string, social2: string, now1: int, now2: int)
    requires WellFormed(t)
    ensures var (r1, t1) := Submit(t, newId1, userId, checkpointId, cert1, social1, now1);
      var (r2, t2) := Submit(t1, newId2, userId, checkpointId, cert2, social2, now2);
      r1.Ok? ==>
        && r2.Ok? && r2.value.id == r1.value.id
        && r2.value.fileUrl == cert2 && r2.value.socialProofUrl == social2
        && |t2.submissions| == |t1.submissions|
        && PairCount(t2.submissions, userId, checkpointId) == 1
  {
    var (r1, t1) := Submit(t, newId1, userId, checkpointId, cert1, social1, now1);
    if r1.Ok? {
      SubmitOutcome(t, newId1, userId, checkpointId, cert1, social1, now1);
      SubmitPreservesWellFormed(t, newId1, userId, checkpointId, cert1, social1, now1);
      var p := (s: Submission) => s.userId == userId && s.checkpointId == checkpointId;
      var k :| 0 <= k < |t1.submissions| && t1.submissions[k] == r1.value;
      assert p(t1.submissions[k]);
      var i := FindSubmissionFor(t1.submissions, userId, checkpointId).value;
      assert p(t1.submissions[i]);
      assert !(i < k);
      SubmitOutcome(t1, newId2, userId, checkpointId, cert2, social2, now2);
      SubmitLeavesOneRow(t1, newId2, userId, checkpointId, cert2, social2, now2);
    }
  }
}
