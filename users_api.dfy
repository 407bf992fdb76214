/** The participant's request handlers (server/src/api/users/users.controller.ts):
    log in by matriculation number, and submit the two uploaded proof files
    for a checkpoint. */
module UsersApi {
  import opened Outcomes
  import opened Records
  import opened Seqs
  import opened Database
  import opened Http
  import UsersService

  // ---------------------------------------------------------------- loginUser

  /** loginUserHandler: the lookup needs a text matriculation number and the
      password check a text password, otherwise the call throws (500). An
      unknown or inactive participant is a 401 before the password is looked
      at. */
  function LoginUserHandler(t: Tables, body: map<string, Value>,
                            compare: (string, string) -> bool, sign: Claims -> string): Reply<()>
  {
    match Field(body, "matricNumber")
    case Str(matricNumber) =>
      (match FindUserByMatric(t.users, matricNumber)
       case None => Reply(401, Message("Invalid credentials or inactive account"))
       case Some(i) =>
         if t.users[i].status != "active" then Reply(401, Message("Invalid credentials or inactive account"))
         else
           (match Field(body, "password")
            case Str(password) =>
              (match UsersService.LoginUser(t.users, matricNumber, password, compare, sign)
               case None => Reply(401, Message("Invalid credentials or inactive account"))
               case Some(token) => Reply(200, LoginOk("Login successful", token)))
            case _ => Reply(500, Message("Internal server error"))))
    case _ => Reply(500, Message("Internal server error"))
  }

  /** For participant i of a table with unique matriculation numbers, asked
      for by that number: an inactive participant is a 401 whatever the
      password field holds; an active one with a text password is a 200
      with the token signed over the participant's id, matriculation number
      and cohort when the password matches, and a 401 when it does not. A
      number nobody has is a 401. */
  lemma LoginUserHandlerOutcome(t: Tables, body: map<string, Value>,
                                compare: (string, string) -> bool, sign: Claims -> string, i: nat)
    requires UniqueBy(t.users, (u: User) => u.matricNumber) && i < |t.users|
    ensures var u := t.users[i];
      var reply := LoginUserHandler(t, body, compare, sign);
      Field(body, "matricNumber") == Str(u.matricNumber) ==>
        && (u.status != "active" ==> reply == Reply(401, Message("Invalid credentials or inactive account")))
        && (u.status == "active" && Field(body, "password").Str? ==>
              if compare(Field(body, "password").s, u.passwordHash)
              then reply == Reply(200, LoginOk("Login successful", sign(ParticipantClaims(u.id, u.matricNumber, u.cohortId))))
              else reply == Reply(401, Message("Invalid credentials or inactive account")))
    ensures Field(body, "matricNumber").Str?
            && (forall u :: u in t.users ==> u.matricNumber != Field(body, "matricNumber").s) ==>
      LoginUserHandler(t, body, compare, sign) == Reply(401, Message("Invalid credentials or inactive account"))
  {
    FindUnique(t.users, (u: User) => u.matricNumber, t.users[i].matricNumber, i);
    assert FindUserByMatric(t.users, t.users[i].matricNumber) == Some(i);
    if Field(body, "matricNumber").Str? && FindUserByMatric(t.users, Field(body, "matricNumber").s).Some? {
      assert t.users[FindUserByMatric(t.users, Field(body, "matricNumber").s).value] in t.users;
    }
  }

  // ---------------------------------------------------------------- createSubmission

  /** A file the upload middleware stored, by the path it was stored under. */
  datatype UploadedFile = UploadedFile(path: string)

  /** The public address of an uploaded file: protocol, "://", host, "/",
      then the stored path. */
  function FileUrl(protocol: string, host: string, f: UploadedFile): (url: string)
    ensures |url| == |protocol| + 3 + |host| + 1 + |f.path|
    ensures url[..|protocol|] == protocol && url[|protocol|..|protocol| + 3] == "://"
    ensures url[|protocol| + 3..|protocol| + 3 + |host|] == host
    ensures url[|protocol| + 3 + |host|] == '/'
    ensures url[|protocol| + 3 + |host| + 1..] == f.path
  {
    protocol + "://" + host + "/" + f.path
  }

  /** For one protocol and host, distinct stored files have distinct
      addresses. */
  lemma FileUrlInjective(protocol: string, host: string, f: UploadedFile, g: UploadedFile)
    ensures FileUrl(protocol, host, f) == FileUrl(protocol, host, g) <==> f == g
  {
    if FileUrl(protocol, host, f) == FileUrl(protocol, host, g) {
      assert f.path == FileUrl(protocol, host, f)[|protocol| + 3 + |host| + 1..];
    }
  }

  /** createSubmissionHandler: `userId` is the id the authentication left on
      the request (`None` without one), `files` the field-to-files object of
      the upload (`None` when there is none). A falsy user id or checkpoint
      id, or a missing file field, is a 400; reading a field of absent files
      or the first file of an empty list throws (500). A truthy checkpoint id
      that is not text is also a 500 here: a number throws in the database
      call, while an object would reach the lookup as a query filter, which
      this model does not represent. The service gets the address of the
      first file of each field. */
  function CreateSubmissionHandler(t: Tables, userId: Option<Id>, body: map<string, Value>,
                                   files: Option<map<string, seq<UploadedFile>>>,
                                   protocol: string, host: string, newId: Id, now: int)
    : (Reply<Submission>, Tables)
  {
    var checkpointId := Field(body, "checkpointId");
    if userId.None? || userId.value == "" || !Truthy(checkpointId) then
      (Reply(400, Message("Missing required fields or files")), t)
    else if files.None? then (Reply(500, Message("Error creating submission")), t)
    else if "certificateFile" !in files.value || "socialProofFile" !in files.value then
      (Reply(400, Message("Missing required fields or files")), t)
    else
      var certificates, proofs := files.value["certificateFile"], files.value["socialProofFile"];
      if certificates == [] || proofs == [] || !checkpointId.Str? then (Reply(500, Message("Error creating submission")), t)
      else
        var (r, t') := UsersService.Submit(t, newId, userId.value, checkpointId.s,
                                           FileUrl(protocol, host, certificates[0]), FileUrl(protocol, host, proofs[0]), now);
        (if r.Ok? then Reply(201, Data(r.value)) else Reply(500, Message("Error creating submission")), t')
  }

  /** A missing user id, checkpoint id or file field is a 400 that changes
      nothing; every reply other than a 201 changes nothing; a 201 returns
      the participant's pending submission for the text checkpoint id,
      carrying the addresses of the first certificate file and the first
      social-proof file, and is the database createSubmission leaves. A
      request that passes the checks and that the service accepts is a 201
      with the service's submission. */
  lemma CreateSubmissionHandlerOutcome(t: Tables, userId: Option<Id>, body: map<string, Value>,
                                       files: Option<map<string, seq<UploadedFile>>>,
                                       protocol: string, host: string, newId: Id, now: int)
    ensures var (reply, t') := CreateSubmissionHandler(t, userId, body, files, protocol, host, newId, now);
      var checkpointId := Field(body, "checkpointId");
      && (reply.status == 201 || reply.status == 400 || reply.status == 500)
      && (reply.status == 400 <==>
            || userId.None? || userId.value == "" || !Truthy(checkpointId)
            || (files.Some? && ("certificateFile" !in files.value || "socialProofFile" !in files.value)))
      && (reply.status != 201 ==> t' == t)
      && (reply.status == 201 ==>
            && userId.Some? && checkpointId.Str? && files.Some?
            && "certificateFile" in files.value && files.value["certificateFile"] != []
            && "socialProofFile" in files.value && files.value["socialProofFile"] != []
            && var certificateUrl := FileUrl(protocol, host, files.value["certificateFile"][0]);
               var socialProofUrl := FileUrl(protocol, host, files.value["socialProofFile"][0]);
               var (r, t'') := UsersService.Submit(t, newId, userId.value, checkpointId.s, certificateUrl, socialProofUrl, now);
               && r.Ok? && reply.body == Data(r.value) && t' == t''
               && r.value.userId == userId.value && r.value.checkpointId == checkpointId.s
               && r.value.fileUrl == certificateUrl && r.value.socialProofUrl == socialProofUrl
               && r.value.status == Pending && r.value in t'.submissions)
    ensures var checkpointId := Field(body, "checkpointId");
      && userId.Some? && userId.value != "" && Truthy(checkpointId) && checkpointId.Str? && files.Some?
      && "certificateFile" in files.value && files.value["certificateFile"] != []
      && "socialProofFile" in files.value && files.value["socialProofFile"] != []
      && UsersService.Submit(t, newId, userId.value, checkpointId.s,
           FileUrl(protocol, host, files.value["certificateFile"][0]),
           FileUrl(protocol, host, files.value["socialProofFile"][0]), now).0.Ok?
      ==> CreateSubmissionHandler(t, userId, body, files, protocol, host, newId, now).0
          == Reply(201, Data(UsersService.Submit(t, newId, userId.value, checkpointId.s,
               FileUrl(protocol, host, files.value["certificateFile"][0]),
               FileUrl(protocol, host, files.value["socialProofFile"][0]), now).0.value))
  {
    var checkpointId := Field(body, "checkpointId");
    if userId.Some? && checkpointId.Str? && files.Some?
       && "certificateFile" in files.value && files.value["certificateFile"] != []
       && "socialProofFile" in files.value && files.value["socialProofFile"] != [] {
      UsersService.SubmitOutcome(t, newId, userId.value, checkpointId.s,
        FileUrl(protocol, host, files.value["certificateFile"][0]),
        FileUrl(protocol, host, files.value["socialProofFile"][0]), now);
    }
  }
}
