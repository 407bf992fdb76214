/** The administrator's request handlers (server/src/api/admin/admin.controller.ts):
    each one checks the request fields, calls the service, and maps what the
    service returns or throws to a status code and a JSON body. A handler is a
    function from the database and the request to the reply and the database
    after the call. */
module AdminApi {
  import opened Outcomes
  import opened Records
  import opened Seqs
  import opened Database
  import opened Http
  import opened Decimal
  import AdminService
  import MatricNumber

  // ---------------------------------------------------------------- createCohort

  /** createCohortHandler: a falsy cohort number is refused before the
      service runs; the insert accepts only an integer cohort number and a
      text or absent name, and any refusal is a 500. */
  function CreateCohortHandler(t: Tables, body: map<string, Value>, id: Id): (Reply<Cohort>, Tables) {
    var cohortNumber := Field(body, "cohortNumber");
    if !Truthy(cohortNumber) then (Reply(400, Message("Cohort number is required")), t)
    else match (cohortNumber, OptionalText(Field(body, "name")))
      case (Num(n), Some(name)) =>
        var (r, t') := AdminService.AddCohort(t, id, n, name);
        (if r.Ok? then Reply(201, Data(r.value)) else Reply(500, Message("Error creating cohort")), t')
      case _ => (Reply(500, Message("Error creating cohort")), t)
  }

  /** A missing or zero cohort number is a 400 and changes nothing; the
      cohort is created (201) exactly when the cohort number is a non-zero
      integer, the name is text or absent, and neither the id nor the cohort
      number is taken; every other request is a 500 that changes nothing. */
  lemma CreateCohortHandlerOutcome(t: Tables, body: map<string, Value>, id: Id)
    ensures var (reply, t') := CreateCohortHandler(t, body, id);
      var cohortNumber, name := Field(body, "cohortNumber"), OptionalText(Field(body, "name"));
      && (reply.status == 400 <==> !Truthy(cohortNumber))
      && (reply.status == 201 <==>
            && cohortNumber.Num? && cohortNumber.n != 0 && name.Some?
            && forall c :: c in t.cohorts ==> c.id != id && c.cohortNumber != cohortNumber.n)
      && (reply.status == 201 ==>
            var c := Cohort(id, cohortNumber.n, name.value);
            reply.body == Data(c) && t' == t.(cohorts := t.cohorts + [c]))
      && (reply.status != 201 ==> t' == t && (reply.status == 400 || reply == Reply(500, Message("Error creating cohort"))))
  {
    var cohortNumber, name := Field(body, "cohortNumber"), OptionalText(Field(body, "name"));
    if cohortNumber.Num? && name.Some? {
      AdminService.AddCohortOutcome(t, id, cohortNumber.n, name.value);
    }
  }

  // ---------------------------------------------------------------- addUsersToCohort

  /** An element of the `users` array the service can process: an object
      whose username and password are strings (otherwise the hashing or the
      insert throws). */
  function AsCredentials(v: Value): Option<Credentials> {
    match v
    case Obj(fields) =>
      (match (Field(fields, "username"), Field(fields, "password"))
       case (Str(username), Str(password)) => Some(Credentials(username, password))
       case _ => None)
    case _ => None
  }

  /** The credentials of the elements before the first one the service
      cannot process. */
  function LeadingCredentials(items: seq<Value>): (r: seq<Credentials>)
    ensures |r| <= |items|
    ensures forall i :: 0 <= i < |r| ==> AsCredentials(items[i]) == Some(r[i])
    ensures |r| < |items| ==> AsCredentials(items[|r|]).None?
  {
    if items == [] then []
    else match AsCredentials(items[0])
      case None => []
      case Some(c) => [c] + LeadingCredentials(items[1..])
  }

  /** The ids the database generates for the first n inserts of a call. */
  function FreshIds(newIds: nat -> Id, n: nat): (r: seq<Id>)
    ensures |r| == n && forall i :: 0 <= i < n ==> r[i] == newIds(i)
  {
    seq(n, i requires 0 <= i < n => newIds(i))
  }

  /** addUsersToCohortHandler: `users` must be a non-empty array. The service
      processes the elements in order; an element it cannot process throws
      after the earlier participants were created, with the message of the
      library that refused it (`libraryMessage`). A thrown error is a 500
      carrying its message. */
  function AddUsersHandler(t: Tables, cohortId: Id, body: map<string, Value>, newIds: nat -> Id,
                           hash: string -> string, libraryMessage: string): (Reply<seq<User>>, Tables)
  {
    var users := Field(body, "users");
    if !Truthy(users) || !users.Arr? || |users.items| == 0 then (Reply(400, Message("Users array is required")), t)
    else
      var entries := LeadingCredentials(users.items);
      var (r, t') := AdminService.Enroll(t, cohortId, entries, FreshIds(newIds, |entries|), hash);
      var reply :=
        if r.Err? then Reply(500, Message(OrDefault(ErrorMessage(r.error), "Error adding users")))
        else if |entries| < |users.items| then Reply(500, Message(OrDefault(libraryMessage, "Error adding users")))
        else Reply(201, Data(r.value));
      (reply, t')
  }

  /** A missing, non-array or empty `users` is a 400 that changes nothing.
      Otherwise only the participants table changes, and only by new rows at
      its end; an unknown cohort is a 500 "Cohort not found" that creates
      nobody. */
  lemma AddUsersHandlerOutcome(t: Tables, cohortId: Id, body: map<string, Value>, newIds: nat -> Id,
                               hash: string -> string, libraryMessage: string)
    ensures var (reply, t') := AddUsersHandler(t, cohortId, body, newIds, hash, libraryMessage);
      var users := Field(body, "users");
      && (reply.status == 400 <==> !(users.Arr? && |users.items| > 0))
      && (reply.status == 400 ==> t' == t)
      && (reply.status == 201 || reply.status == 400 || reply.status == 500)
      && t'.admins == t.admins && t'.cohorts == t.cohorts
      && t'.checkpoints == t.checkpoints && t'.submissions == t.submissions
      && |t.users| <= |t'.users| && t'.users[..|t.users|] == t.users
      && (reply.status != 400 && FindCohort(t.cohorts, cohortId).None? ==>
            reply == Reply(500, Message("Cohort not found")) && t' == t)
  {
    var users := Field(body, "users");
    if users.Arr? && |users.items| > 0 {
      var entries := LeadingCredentials(users.items);
      var ids := FreshIds(newIds, |entries|);
      AddUsersHandlerEnrolls(t, cohortId, body, newIds, hash, libraryMessage);
      AdminService.EnrollKeepsRows(t, cohortId, entries, ids, hash);
    }
  }

  /** A non-empty `users` array is handed to the service: the tables are
      what it leaves, the reply a 201 or a 500, and an unknown cohort a 500
      "Cohort not found". A refusal by the service (a taken username or
      matriculation number, say) is a 500 carrying the thrown message. */
  lemma AddUsersHandlerEnrolls(t: Tables, cohortId: Id, body: map<string, Value>, newIds: nat -> Id,
                               hash: string -> string, libraryMessage: string)
    requires Field(body, "users").Arr? && |Field(body, "users").items| > 0
    ensures var (reply, t') := AddUsersHandler(t, cohortId, body, newIds, hash, libraryMessage);
      var entries := LeadingCredentials(Field(body, "users").items);
      var (r, t'') := AdminService.Enroll(t, cohortId, entries, FreshIds(newIds, |entries|), hash);
      && t' == t''
      && (reply.status == 201 || reply.status == 500)
      && (FindCohort(t.cohorts, cohortId).None? ==> reply == Reply(500, Message("Cohort not found")) && t' == t)
      && (r.Err? ==> reply == Reply(500, Message(OrDefault(ErrorMessage(r.error), "Error adding users"))))
  {
  }

  /** A 201 returns the participants created, one per element and appended
      to the table in input order: element i becomes the active participant
      with no points, the element's username, the hash of its password and
      the matriculation number for index count + 1 + i, where count is the
      cohort's size before the call. */
  lemma AddUsersHandlerCreated(t: Tables, cohortId: Id, body: map<string, Value>, newIds: nat -> Id,
                               hash: string -> string, libraryMessage: string)
    ensures var (reply, t') := AddUsersHandler(t, cohortId, body, newIds, hash, libraryMessage);
      var users := Field(body, "users");
      reply.status == 201 ==>
        && users.Arr? && FindCohort(t.cohorts, cohortId).Some? && reply.body.Data?
        && var created := reply.body.data;
           var c := t.cohorts[FindCohort(t.cohorts, cohortId).value];
           && |created| == |users.items|
           && t'.users == t.users + created
           && forall i :: 0 <= i < |created| ==>
                && AsCredentials(users.items[i]).Some?
                && created[i] == AdminService.NewParticipant(newIds(i), AsCredentials(users.items[i]).value, hash,
                     MatricNumber.GenerateMatricNumber(c.cohortNumber, AdminService.MemberCount(t.users, cohortId) + 1 + i),
                     cohortId)
  {
    var users := Field(body, "users");
    var (reply, t') := AddUsersHandler(t, cohortId, body, newIds, hash, libraryMessage);
    if reply.status == 201 {
      AddUsersHandlerSucceeded(t, cohortId, body, newIds, hash, libraryMessage);
      var entries := LeadingCredentials(users.items);
      AdminService.EnrollCreated(t, cohortId, entries, FreshIds(newIds, |entries|), hash);
    }
  }

  /** A 201 happens exactly when `users` is a non-empty array of elements
      with a text username and password and the service succeeds; the reply
      then carries what the service returned. */
  lemma AddUsersHandlerSucceeded(t: Tables, cohortId: Id, body: map<string, Value>, newIds: nat -> Id,
                                 hash: string -> string, libraryMessage: string)
    ensures var users := Field(body, "users");
      AddUsersHandler(t, cohortId, body, newIds, hash, libraryMessage).0.status == 201
      <==> && users.Arr? && |users.items| > 0
           && (forall i :: 0 <= i < |users.items| ==> AsCredentials(users.items[i]).Some?)
           && var entries := LeadingCredentials(users.items);
              AdminService.Enroll(t, cohortId, entries, FreshIds(newIds, |entries|), hash).0.Ok?
    ensures var users := Field(body, "users");
      AddUsersHandler(t, cohortId, body, newIds, hash, libraryMessage).0.status == 201 ==>
        && users.Arr?
        && var entries := LeadingCredentials(users.items);
           var r := AdminService.Enroll(t, cohortId, entries, FreshIds(newIds, |entries|), hash).0;
           var t' := AdminService.Enroll(t, cohortId, entries, FreshIds(newIds, |entries|), hash).1;
           && |entries| == |users.items|
           && FindCohort(t.cohorts, cohortId).Some?
           && r.Ok?
           && AddUsersHandler(t, cohortId, body, newIds, hash, libraryMessage) == (Reply(201, Data(r.value)), t')
  {
    var users := Field(body, "users");
    if users.Arr? && |users.items| > 0 {
      var entries := LeadingCredentials(users.items);
      var ids := FreshIds(newIds, |entries|);
      if AdminService.Enroll(t, cohortId, entries, ids, hash).0.Ok? {
        AdminService.EnrollOkFound(t, cohortId, entries, ids, hash);
      }
    }
  }

  /** No rollback: when element k is the first the service cannot process
      and the k participants before it are created, the reply is a 500 and
      those k participants stay. */
  lemma MalformedEntryKeepsEarlierRows(t: Tables, cohortId: Id, body: map<string, Value>, newIds: nat -> Id,
                                       hash: string -> string, libraryMessage: string, k: nat)
    requires Field(body, "users").Arr? && k < |Field(body, "users").items|
    requires forall i :: 0 <= i < k ==> AsCredentials(Field(body, "users").items[i]).Some?
    requires AsCredentials(Field(body, "users").items[k]).None?
    requires var entries := LeadingCredentials(Field(body, "users").items);
      AdminService.Enroll(t, cohortId, entries, FreshIds(newIds, |entries|), hash).0.Ok?
    ensures AddUsersHandler(t, cohortId, body, newIds, hash, libraryMessage).0
            == Reply(500, Message(OrDefault(libraryMessage, "Error adding users")))
    ensures |AddUsersHandler(t, cohortId, body, newIds, hash, libraryMessage).1.users| == |t.users| + k
  {
    var entries := LeadingCredentials(Field(body, "users").items);
    assert |entries| == k;
    AdminService.EnrollOkAppends(t, cohortId, entries, FreshIds(newIds, |entries|), hash);
  }

  // ---------------------------------------------------------------- loginAdmin

  /** loginAdminHandler: the lookup needs a text username and the password
      check a text password, otherwise the call throws (500); no token is a
      401. An unknown username is a 401 before the password is looked at. */
  function LoginAdminHandler(t: Tables, body: map<string, Value>,
                             compare: (string, string) -> bool, sign: Claims -> string): Reply<()>
  {
    match Field(body, "username")
    case Str(username) =>
      if FindAdminByUsername(t.admins, username).None? then Reply(401, Message("Invalid username or password"))
      else
        (match Field(body, "password")
         case Str(password) =>
           (match AdminService.LoginAdmin(t.admins, username, password, compare, sign)
            case None => Reply(401, Message("Invalid username or password"))
            case Some(token) => Reply(200, LoginOk("Login successful", token)))
         case _ => Reply(500, Message("Internal server error")))
    case _ => Reply(500, Message("Internal server error"))
  }

  /** For an administrator of a table with unique usernames: the right
      password is a 200 with the token signed over that administrator's id,
      username and role, a wrong one a 401. A username nobody has is a 401
      whatever the password field holds. */
  lemma LoginAdminHandlerOutcome(t: Tables, body: map<string, Value>,
                                 compare: (string, string) -> bool, sign: Claims -> string, i: nat)
    requires UniqueBy(t.admins, (a: Admin) => a.username) && i < |t.admins|
    ensures var a := t.admins[i];
      var reply := LoginAdminHandler(t, body, compare, sign);
      Field(body, "username") == Str(a.username) && Field(body, "password").Str? ==>
        (if compare(Field(body, "password").s, a.passwordHash)
         then reply == Reply(200, LoginOk("Login successful", sign(AdminClaims(a.id, a.username, a.role))))
         else reply == Reply(401, Message("Invalid username or password")))
    ensures Field(body, "username").Str? && (forall a :: a in t.admins ==> a.username != Field(body, "username").s) ==>
      LoginAdminHandler(t, body, compare, sign) == Reply(401, Message("Invalid username or password"))
  {
    FindUnique(t.admins, (a: Admin) => a.username, t.admins[i].username, i);
    assert FindAdminByUsername(t.admins, t.admins[i].username) == Some(i);
    if Field(body, "username").Str? && FindAdminByUsername(t.admins, Field(body, "username").s).Some? {
      assert t.admins[FindAdminByUsername(t.admins, Field(body, "username").s).value] in t.admins;
    }
  }

  // ---------------------------------------------------------------- getCohortById

  /** getCohortByIdHandler: no such cohort is a 404. */
  function GetCohortByIdHandler(t: Tables, id: Id): (reply: Reply<AdminService.CohortDetails>)
    ensures reply.status == 404 <==> forall c :: c in t.cohorts ==> c.id != id
    ensures reply.status == 200 ==>
      && reply.body.Data?
      && reply.body.data.cohort in t.cohorts && reply.body.data.cohort.id == id
      && (forall u :: u in reply.body.data.users <==> u in t.users && u.cohortId == id)
      && multiset(reply.body.data.users) == multiset(Filter(t.users, (u: User) => u.cohortId == id))
      && SortedBy(reply.body.data.users, AdminService.ByMatricNumber())
    ensures reply.status == 404 || reply.status == 200
  {
    match AdminService.CohortById(t, id)
    case None =>
      assert forall c :: c in t.cohorts ==> c.id != id by {
        forall c | c in t.cohorts ensures c.id != id {
          var k :| 0 <= k < |t.cohorts| && t.cohorts[k] == c;
        }
      }
      Reply(404, Message("Cohort not found"))
    case Some(details) =>
      var members := Filter(t.users, (u: User) => u.cohortId == id);
      assert forall u :: u in details.users <==> u in multiset(members);
      Reply(200, Data(details))
  }

  // ---------------------------------------------------------------- createCheckpoint

  /** createCheckpointHandler: a falsy title, deadline or points value is a
      400; the deadline goes through `new Date` (`toDate`, `None` for an
      invalid date, which the insert refuses), the points through
      `parseInt(points, 10)` (NaN is refused); any refusal is a 500. */
  function CreateCheckpointHandler(t: Tables, body: map<string, Value>, id: Id, toDate: Value -> Option<int>)
    : (Reply<Checkpoint>, Tables)
  {
    var title, deadline, points := Field(body, "title"), Field(body, "deadline"), Field(body, "points");
    if !Truthy(title) || !Truthy(deadline) || !Truthy(points) then
      (Reply(400, Message("Title, deadline, and points are required")), t)
    else match (title, OptionalText(Field(body, "description")), toDate(deadline), ParseInt(points))
      case (Str(text), Some(description), Some(when), Some(n)) =>
        var (r, t') := AdminService.AddCheckpoint(t, id, text, description, when, n);
        (if r.Ok? then Reply(201, Data(r.value)) else Reply(500, Message("Error creating checkpoint")), t')
      case _ => (Reply(500, Message("Error creating checkpoint")), t)
  }

  /** A falsy title, deadline or points value (so also points 0 or "") is a
      400; a created checkpoint (201) is appended with the title, the
      deadline as a date and the points as parsed in base 10; nothing else
      changes the database. Truthy fields that the insert accepts, with a
      free id, are a 201. */
  lemma CreateCheckpointHandlerOutcome(t: Tables, body: map<string, Value>, id: Id, toDate: Value -> Option<int>)
    ensures var (reply, t') := CreateCheckpointHandler(t, body, id, toDate);
      var title, deadline, points := Field(body, "title"), Field(body, "deadline"), Field(body, "points");
      && (reply.status == 400 <==> !Truthy(title) || !Truthy(deadline) || !Truthy(points))
      && (reply.status == 201 || reply.status == 400 || reply.status == 500)
      && (reply.status != 201 ==> t' == t)
      && (reply.status == 201 ==>
            && title.Str? && toDate(deadline).Some? && ParseInt(points).Some?
            && OptionalText(Field(body, "description")).Some?
            && (forall c :: c in t.checkpoints ==> c.id != id)
            && var c := Checkpoint(id, title.s, OptionalText(Field(body, "description")).value,
                                   toDate(deadline).value, ParseInt(points).value);
               reply.body == Data(c) && t' == t.(checkpoints := t.checkpoints + [c]))
    ensures var title, deadline, points := Field(body, "title"), Field(body, "deadline"), Field(body, "points");
      && Truthy(title) && Truthy(deadline) && Truthy(points)
      && title.Str? && OptionalText(Field(body, "description")).Some?
      && toDate(deadline).Some? && ParseInt(points).Some?
      && (forall c :: c in t.checkpoints ==> c.id != id)
      ==> CreateCheckpointHandler(t, body, id, toDate).0.status == 201
  {
    var title, deadline, points := Field(body, "title"), Field(body, "deadline"), Field(body, "points");
    var description := OptionalText(Field(body, "description"));
    if title.Str? && description.Some? && toDate(deadline).Some? && ParseInt(points).Some? {
      AdminService.AddCheckpointOutcome(t, id, title.s, description.value, toDate(deadline).value, ParseInt(points).value);
    }
  }

  /** Points sent as the decimal text of a non-zero n create the same
      checkpoint as the number n itself. */
  lemma CheckpointPointsAsText(t: Tables, body: map<string, Value>, id: Id, toDate: Value -> Option<int>, n: int)
    requires n != 0
    ensures CreateCheckpointHandler(t, body["points" := Str(IntToDecimal(n))], id, toDate)
            == CreateCheckpointHandler(t, body["points" := Num(n)], id, toDate)
  {
    var asText := body["points" := Str(IntToDecimal(n))];
    var asNumber := body["points" := Num(n)];
    assert ParseInt(Field(asText, "points")) == Some(n) == ParseInt(Field(asNumber, "points")) by {
      ParseIntOfDecimal(n);
    }
    SamePointsSameCheckpoint(t, asText, asNumber, id, toDate);
  }

  /** The number 0 as points is always refused with a 400, but the text "0"
      passes the falsy check and parses to 0 points: with a title and a
      deadline it is not a 400. */
  lemma CheckpointZeroPointsAsText(t: Tables, body: map<string, Value>, id: Id, toDate: Value -> Option<int>)
    ensures CreateCheckpointHandler(t, body["points" := Num(0)], id, toDate).0.status == 400
    ensures var asText := body["points" := Str("0")];
      && ParseInt(Field(asText, "points")) == Some(0)
      && (CreateCheckpointHandler(t, asText, id, toDate).0.status == 400
          <==> !Truthy(Field(body, "title")) || !Truthy(Field(body, "deadline")))
  {
    ParseIntOfDecimal(0);
  }

  /** The handler reads the points only through their truthiness and their
      parsed value, so two bodies that agree on those and on every other
      field create the same checkpoint. */
  lemma SamePointsSameCheckpoint(t: Tables, b1: map<string, Value>, b2: map<string, Value>, id: Id,
                                 toDate: Value -> Option<int>)
    requires Field(b1, "title") == Field(b2, "title") && Field(b1, "deadline") == Field(b2, "deadline")
    requires Field(b1, "description") == Field(b2, "description")
    requires Truthy(Field(b1, "points")) == Truthy(Field(b2, "points"))
    requires ParseInt(Field(b1, "points")) == ParseInt(Field(b2, "points"))
    ensures CreateCheckpointHandler(t, b1, id, toDate) == CreateCheckpointHandler(t, b2, id, toDate)
  {
  }

  // ---------------------------------------------------------------- reviewSubmission

  /** The review status named in a request body: only the texts "approved"
      and "rejected" are accepted. */
  function ReviewStatus(v: Value): (r: Option<SubmissionStatus>)
    ensures r.Some? <==> v == Str("approved") || v == Str("rejected")
    ensures r.Some? ==> r.value != Pending
    ensures v == Str("approved") ==> r == Some(Approved)
    ensures v == Str("rejected") ==> r == Some(Rejected)
  {
    if v == Str("approved") then Some(Approved)
    else if v == Str("rejected") then Some(Rejected)
    else None
  }

  /** The stored text of a status. */
  function StatusText(s: SubmissionStatus): string {
    match s
    case Pending => "pending"
    case Approved => "approved"
    case Rejected => "rejected"
  }

  /** The status text of a review decision is read back as that decision. */
  lemma ReviewStatusRoundTrip(s: SubmissionStatus)
    ensures s != Pending <==> ReviewStatus(Str(StatusText(s))) == Some(s)
  {
  }

  /** reviewSubmissionHandler. */
  function ReviewHandler(t: Tables, submissionId: Id, body: map<string, Value>, now: int): (Reply<()>, Tables) {
    match ReviewStatus(Field(body, "status"))
    case None => (Reply(400, Message("Invalid status")), t)
    case Some(status) =>
      var (r, t') := AdminService.Review(t, submissionId, status, now);
      (if r.Ok? then Reply(200, Message("Submission " + StatusText(status)))
       else Reply(500, Message(OrDefault(ErrorMessage(r.error), "Error reviewing submission"))), t')
  }

  /** Any status other than "approved" or "rejected" is a 400 that changes
      nothing; an unknown submission is a 500 "Submission not found" that
      changes nothing; on a well-formed database a known submission is
      reviewed: a 200 "Submission approved" or "Submission rejected", with
      the database the review describes. */
  lemma ReviewHandlerOutcome(t: Tables, submissionId: Id, body: map<string, Value>, now: int)
    ensures var (reply, t') := ReviewHandler(t, submissionId, body, now);
      var status := Field(body, "status");
      && (reply.status == 400 <==> status != Str("approved") && status != Str("rejected"))
      && (reply.status == 400 ==> t' == t)
      && (reply.status != 400 && FindSubmission(t.submissions, submissionId).None? ==>
            reply == Reply(500, Message("Submission not found")) && t' == t)
      && (reply.status != 400 && WellFormed(t) && FindSubmission(t.submissions, submissionId).Some? ==>
            && reply == Reply(200, Message("Submission " + status.s))
            && t' == AdminService.Review(t, submissionId, ReviewStatus(status).value, now).1)
  {
    var status := ReviewStatus(Field(body, "status"));
    if status.Some? && WellFormed(t) && FindSubmission(t.submissions, submissionId).Some? {
      AdminService.ReviewEffect(t, submissionId, status.value, now);
    }
  }
}
