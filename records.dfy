/** The rows of the portal's database (participants, admins, cohorts,
    checkpoints, submissions), the claims carried in bearer tokens and the
    errors that the services throw. */
module Records {
  import opened Outcomes

  /** Row identities are opaque strings generated by the database. */
  type Id = string

  datatype Admin = Admin(id: Id, username: string, passwordHash: string, role: string)

  datatype Cohort = Cohort(id: Id, cohortNumber: int, name: Option<string>)

  /** A participant. `status` is free text; only "active" may log in. */
  datatype User = User(
    id: Id,
    username: string,
    passwordHash: string,
    matricNumber: string,
    cohortId: Id,
    points: int,
    status: string)

  datatype Checkpoint = Checkpoint(
    id: Id,
    title: string,
    description: Option<string>,
    deadline: int,
    points: int)

  datatype SubmissionStatus = Pending | Approved | Rejected

  datatype Submission = Submission(
    id: Id,
    userId: Id,
    checkpointId: Id,
    fileUrl: string,
    socialProofUrl: string,
    status: SubmissionStatus,
    createdAt: int,
    reviewedAt: Option<int>)

  /** One entry of an enrollment request. */
  datatype Credentials = Credentials(username: string, password: string)

  /** What a signed token carries: participants' tokens hold id, matriculation
      number and cohort; admins' tokens hold id, username and role. */
  datatype Claims =
    | ParticipantClaims(id: Id, matricNumber: string, cohortId: Id)
    | AdminClaims(id: Id, username: string, role: string)

  /** Errors thrown by the services, or raised by the database. */
  datatype Error =
    | CohortNotFound
    | SubmissionNotFound
    | RecordNotFound
    | UniqueViolation(field: string)
    | ForeignKeyViolation(field: string)

  /** The `message` of the thrown error. */
  function ErrorMessage(e: Error): (m: string)
    ensures m != ""
  {
    match e
    case CohortNotFound => "Cohort not found"
    case SubmissionNotFound => "Submission not found"
    case RecordNotFound => "Record to update not found."
    case UniqueViolation(f) => "Unique constraint failed on the fields: (`" + f + "`)"
    case ForeignKeyViolation(f) => "Foreign key constraint failed on the field: `" + f + "`"
  }
}
