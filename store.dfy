/** The database as a mutable object, and the service operations that write
    to it (server/src/api/admin/admin.service.ts,
    server/src/api/users/users.sevice.ts) as methods that change its tables
    step by step. Each method is proved to leave the result and the tables
    that the matching transition function of AdminService or UsersService
    describes, so every fact proved about those functions holds of the
    methods. */
module Store {
  import opened Outcomes
  import opened Records
  import opened Database
  import MatricNumber
  import AdminService
  import UsersService

  class Store {
    var admins: seq<Admin>
    var cohorts: seq<Cohort>
    var users: seq<User>
    var checkpoints: seq<Checkpoint>
    var submissions: seq<Submission>

    /** The tables as a value. */
    function State(): Tables
      reads this
    {
      Tables(admins, cohorts, users, checkpoints, submissions)
    }

    constructor (initial: Tables)
      ensures State() == initial
    {
      admins := initial.admins;
      cohorts := initial.cohorts;
      users := initial.users;
      checkpoints := initial.checkpoints;
      submissions := initial.submissions;
    }

    /** createCohort. */
    method CreateCohort(id: Id, cohortNumber: int, name: Option<string>) returns (r: Result<Cohort, Error>)
      modifies this
      ensures (r, State()) == AdminService.AddCohort(old(State()), id, cohortNumber, name)
      ensures old(WellFormed(State())) ==> WellFormed(State())
    {
      if WellFormed(State()) {
        AdminService.AddCohortPreservesWellFormed(State(), id, cohortNumber, name);
      }
      if FindCohort(cohorts, id).Some? {
        return Err(UniqueViolation("id"));
      }
      if FindCohortByNumber(cohorts, cohortNumber).Some? {
        return Err(UniqueViolation("cohortNumber"));
      }
      var c := Cohort(id, cohortNumber, name);
      cohorts := cohorts + [c];
      return Ok(c);
    }

    /** createCheckpoint. */
    method CreateCheckpoint(id: Id, title: string, description: Option<string>, deadline: int, points: int)
      returns (r: Result<Checkpoint, Error>)
      modifies this
      ensures (r, State()) == AdminService.AddCheckpoint(old(State()), id, title, description, deadline, points)
      ensures old(WellFormed(State())) ==> WellFormed(State())
    {
      if WellFormed(State()) {
        AdminService.AddCheckpointPreservesWellFormed(State(), id, title, description, deadline, points);
      }
      if FindCheckpoint(checkpoints, id).Some? {
        return Err(UniqueViolation("id"));
      }
      var c := Checkpoint(id, title, description, deadline, points);
      checkpoints := checkpoints + [c];
      return Ok(c);
    }

    /** addUsersToCohort: look the cohort up with its participant count, then
        create the participants; a refused create ends the call and keeps the
        rows already created. */
    method AddUsersToCohort(cohortId: Id, entries: seq<Credentials>, ids: seq<Id>, hash: string -> string)
      returns (r: Result<seq<User>, Error>)
      requires |ids| == |entries|
      modifies this
      ensures (r, State()) == AdminService.Enroll(old(State()), cohortId, entries, ids, hash)
      ensures old(WellFormed(State())) ==> WellFormed(State())
    {
      if WellFormed(State()) {
        AdminService.EnrollPreservesWellFormed(State(), cohortId, entries, ids, hash);
      }
      var found := FindCohort(cohorts, cohortId);
      if found.None? {
        return Err(CohortNotFound);
      }
      var cohort := cohorts[found.value];
      var count := AdminService.MemberCount(users, cohortId);
      var created, clash := CreateParticipants(cohort, count, entries, ids, hash, MatricNumber.GenerateMatricNumber);
      if clash.Some? {
        return Err(UniqueViolation(clash.value));
      }
      return Ok(created);
    }

    /** The loop of addUsersToCohort: entry i becomes a participant numbered
        userIndex = count + 1 + i, whose matriculation number `number` makes
        from the cohort number and userIndex; it stops at the first create a
        unique constraint refuses, reporting the field. */
    method CreateParticipants(cohort: Cohort, count: nat, entries: seq<Credentials>, ids: seq<Id>,
                              hash: string -> string, number: (int, int) -> string)
      returns (created: seq<User>, clash: Option<string>)
      requires |ids| == |entries|
      modifies this
      ensures (users, clash) == AdminService.CreateAll(old(users), AdminService.Batch(cohort, count, entries, ids, hash, number))
      ensures clash.None? ==> created == AdminService.Batch(cohort, count, entries, ids, hash, number)
      ensures admins == old(admins) && cohorts == old(cohorts)
      ensures checkpoints == old(checkpoints) && submissions == old(submissions)
    {
      ghost var batch := AdminService.Batch(cohort, count, entries, ids, hash, number);
      ghost var outcome := AdminService.CreateAll(users, batch);
      AdminService.CreateAllPrefix(users, batch);
      var userIndex := count + 1;
      created := [];
      var i := 0;
      while i < |entries|
        invariant 0 <= i <= |entries|
        invariant userIndex == count + 1 + i
        invariant users == old(users) + created
        invariant AdminService.CreateAll(users, batch[i..]) == outcome
        modifies this`users
      {
        var u := ParticipantRow(cohort, count, entries, ids, hash, number, i, userIndex);
        AdminService.CreateAllStep(users, batch, i, u);
        clash := UserClash(users, u);
        if clash.Some? {
          return;
        }
        users := users + [u];
        created := created + [u];
        userIndex := userIndex + 1;
        i := i + 1;
      }
      assert batch[i..] == [];
      AdminService.CreateAllFinished(old(users), created, batch);
      clash := None;
    }

    /** The row the loop creates for entry i, numbered userIndex: batch
        entry i. */
    static method ParticipantRow(cohort: Cohort, count: nat, entries: seq<Credentials>, ids: seq<Id>,
                                 hash: string -> string, number: (int, int) -> string, i: nat, userIndex: int)
      returns (u: User)
      requires |ids| == |entries| && i < |entries| && userIndex == count + 1 + i
      ensures u == AdminService.Batch(cohort, count, entries, ids, hash, number)[i]
    {
      var matricNumber := number(cohort.cohortNumber, userIndex);
      u := AdminService.NewParticipant(ids[i], entries[i], hash, matricNumber, cohort.id);
      AdminService.BatchEntryNumbered(cohort, count, entries, ids, hash, number, i, userIndex);
    }

    /** reviewSubmission: inside one transaction, mark the submission reviewed
        and, on approval, credit its owner; when a write fails, the writes
        already made are undone. */
    method ReviewSubmission(submissionId: Id, newStatus: SubmissionStatus, now: int)
      returns (r: Result<Submission, Error>)
      requires newStatus != Pending
      modifies this
      ensures (r, State()) == AdminService.Review(old(State()), submissionId, newStatus, now)
      ensures old(WellFormed(State())) ==> WellFormed(State())
    {
      if WellFormed(State()) {
        AdminService.ReviewPreservesWellFormed(State(), submissionId, newStatus, now);
      }
      var found := FindSubmission(submissions, submissionId);
      if found.None? {
        return Err(SubmissionNotFound);
      }
      var i := found.value;
      var s := submissions[i];
      var updated := s.(status := newStatus, reviewedAt := Some(now));
      var snapshot := submissions;
      submissions := submissions[i := updated];
      if newStatus == Approved {
        var owner := FindUser(users, s.userId);
        var checkpoint := FindCheckpoint(checkpoints, s.checkpointId);
        if owner.None? || checkpoint.None? {
          submissions := snapshot;
          return Err(RecordNotFound);
        }
        var u := owner.value;
        users := users[u := users[u].(points := users[u].points + checkpoints[checkpoint.value].points)];
      }
      return Ok(updated);
    }

    /** createSubmission: update the participant's earlier submission for the
        checkpoint, or insert a new one. */
    method CreateSubmission(newId: Id, userId: Id, checkpointId: Id,
                            certificateUrl: string, socialProofUrl: string, now: int)
      returns (r: Result<Submission, Error>)
      modifies this
      ensures (r, State()) == UsersService.Submit(old(State()), newId, userId, checkpointId,
                                                  certificateUrl, socialProofUrl, now)
      ensures old(WellFormed(State())) ==> WellFormed(State())
    {
      if WellFormed(State()) {
        UsersService.SubmitPreservesWellFormed(State(), newId, userId, checkpointId, certificateUrl, socialProofUrl, now);
      }
      var existing := FindSubmissionFor(submissions, userId, checkpointId);
      if existing.Some? {
        var s := UsersService.Upload(submissions[existing.value], certificateUrl, socialProofUrl);
        submissions := submissions[existing.value := s];
        return Ok(s);
      }
      if FindUser(users, userId).None? {
        return Err(ForeignKeyViolation("userId"));
      }
      if FindCheckpoint(checkpoints, checkpointId).None? {
        return Err(ForeignKeyViolation("checkpointId"));
      }
      if FindSubmission(submissions, newId).Some? {
        return Err(UniqueViolation("id"));
      }
      var s := Submission(newId, userId, checkpointId, certificateUrl, socialProofUrl, Pending, now, None);
      submissions := submissions + [s];
      return Ok(s);
    }
  }
}
