/** The list logic of the administrator's pages: the leaderboard of a
    cohort (client/src/pages/CohortDetailsPage.tsx) and the pending queue
    after a review (client/src/pages/SubmissionReviewPage.tsx). */
module Client {
  import opened Outcomes
  import opened Records
  import opened Seqs
  import opened Database
  import opened Http
  import AdminService
  import AdminApi

  // ---------------------------------------------------------------- leaderboard

  /** The comparator `(a, b) => b.points - a.points`: `a` may come first
      when it has at least as many points as `b`. */
  function ByPointsDescending(): (le: (User, User) -> bool)
    ensures TotalPreorder(le)
  {
    (a: User, b: User) => a.points >= b.points
  }

  /** `[...cohort.users].sort(...)`: a sorted copy; the cohort's own list is
      a value and stays as it was. */
  function RankedUsers(users: seq<User>): (r: seq<User>)
    ensures |r| == |users| && multiset(r) == multiset(users)
    ensures forall i, j :: 0 <= i < j < |r| ==> r[i].points >= r[j].points
  {
    Sort(users, ByPointsDescending())
  }

  /** The sort is stable, so participants with equal points keep the order
      they arrived in (by matriculation number, as getCohortById sends
      them). */
  lemma RankedUsersStable(users: seq<User>, points: int)
    ensures Filter(RankedUsers(users), (u: User) => u.points == points) == Filter(users, (u: User) => u.points == points)
  {
    SortStable(users, ByPointsDescending(), (u: User) => u.points == points);
  }

  /** One row of the leaderboard table. */
  datatype RankRow = RankRow(rank: nat, user: User)

  /** The rows of the table: the ranked participants, each with its
      position plus one. */
  function Leaderboard(users: seq<User>): seq<RankRow> {
    var ranked := RankedUsers(users);
    seq(|ranked|, i requires 0 <= i < |ranked| => RankRow(i + 1, ranked[i]))
  }

  /** The ranks are 1 to n in table order, every participant appears as
      often as in the cohort, a better rank never has fewer points, and more
      points always mean a better rank. */
  lemma LeaderboardRanks(users: seq<User>)
    ensures var rows := Leaderboard(users);
      && |rows| == |users|
      && (forall i :: 0 <= i < |rows| ==> rows[i].rank == i + 1)
      && multiset(seq(|rows|, i requires 0 <= i < |rows| => rows[i].user)) == multiset(users)
      && (forall i, j :: 0 <= i < |rows| && 0 <= j < |rows| && rows[i].rank < rows[j].rank ==>
            rows[i].user.points >= rows[j].user.points)
      && (forall i, j :: 0 <= i < |rows| && 0 <= j < |rows| && rows[i].user.points > rows[j].user.points ==>
            rows[i].rank < rows[j].rank)
  {
    var rows := Leaderboard(users);
    var ranked := RankedUsers(users);
    assert seq(|rows|, i requires 0 <= i < |rows| => rows[i].user) == ranked;
  }

  // ---------------------------------------------------------------- review queue

  /** The request a review button sends: PATCH to the submission's review
      address with the decision as `status`. */
  datatype PatchRequest = PatchRequest(path: string, body: map<string, Value>)

  /** What handleReview leaves: the request it sent, the list it shows next,
      and the alert it raised, if any. */
  datatype ReviewUpdate = ReviewUpdate(request: PatchRequest, list: seq<AdminService.PendingEntry>, alert: Option<string>)

  function ReviewRequest(submissionId: Id, status: SubmissionStatus): PatchRequest {
    PatchRequest("/admin/submissions/" + submissionId + "/review", map["status" := Str(AdminApi.StatusText(status))])
  }

  /** handleReview(submissionId, status) on the list shown: `replyStatus` is
      the status of the reply, `None` when none arrived; any status outside
      2xx makes the request fail. On success the reviewed entry is filtered
      out; on failure the list stays and an alert is raised. */
  function HandleReview(list: seq<AdminService.PendingEntry>, submissionId: Id, status: SubmissionStatus,
                        replyStatus: Option<nat>): ReviewUpdate
    requires status != Pending
  {
    var request := ReviewRequest(submissionId, status);
    if replyStatus.Some? && 200 <= replyStatus.value < 300 then
      ReviewUpdate(request, Filter(list, (e: AdminService.PendingEntry) => e.submission.id != submissionId), None)
    else
      ReviewUpdate(request, list, Some("Could not " + AdminApi.StatusText(status) + " submission."))
  }

  /** The request names the submission and carries a decision the server
      reads back as the one the button stands for. After a success no entry
      of that submission remains and every other entry stays, in its order;
      after a failure the list is unchanged and the alert names the
      decision. */
  lemma HandleReviewOutcome(list: seq<AdminService.PendingEntry>, submissionId: Id, status: SubmissionStatus,
                            replyStatus: Option<nat>)
    requires status != Pending
    ensures var u := HandleReview(list, submissionId, status, replyStatus);
      && u.request.path == "/admin/submissions/" + submissionId + "/review"
      && AdminApi.ReviewStatus(Field(u.request.body, "status")) == Some(status)
      && (replyStatus.Some? && 200 <= replyStatus.value < 300 ==>
            && u.alert.None?
            && (forall e :: e in u.list <==> e in list && e.submission.id != submissionId)
            && IsSubsequence(u.list, list))
      && (!(replyStatus.Some? && 200 <= replyStatus.value < 300) ==>
            && u.list == list
            && u.alert == Some("Could not " + (if status == Approved then "approved" else "rejected") + " submission."))
  {
    AdminApi.ReviewStatusRoundTrip(status);
    FilterIsSubsequence(list, (e: AdminService.PendingEntry) => e.submission.id != submissionId);
  }

  /** End to end, on a well-formed database: a review button pressed on an
      entry of the pending queue sends a request the server accepts with a
      200, so the entry leaves the page, and the server's pending queue no
      longer holds that submission either. */
  lemma ReviewFromQueue(t: Tables, i: nat, status: SubmissionStatus, now: int)
    requires WellFormed(t) && status != Pending
    requires i < |AdminService.PendingQueue(t)|
    ensures var list := AdminService.PendingQueue(t);
      var id := list[i].submission.id;
      var request := ReviewRequest(id, status);
      var (reply, t') := AdminApi.ReviewHandler(t, id, request.body, now);
      && reply.status == 200
      && (forall e :: e in HandleReview(list, id, status, Some(reply.status)).list ==> e.submission.id != id)
      && (forall s :: s in AdminService.PendingSubmissions(t'.submissions) ==> s.id != id)
  {
    var list := AdminService.PendingQueue(t);
    var s := list[i].submission;
    var request := ReviewRequest(s.id, status);
    assert s in AdminService.PendingSubmissions(t.submissions);
    var k :| 0 <= k < |t.submissions| && t.submissions[k] == s;
    assert FindSubmission(t.submissions, s.id).Some?;
    AdminApi.ReviewStatusRoundTrip(status);
    assert Field(request.body, "status") == Str(AdminApi.StatusText(status));
    AdminApi.ReviewHandlerOutcome(t, s.id, request.body, now);
    AdminService.ReviewEffect(t, s.id, status, now);
    AdminService.ReviewedLeavesPendingQueue(t, s.id, status, now);
    HandleReviewOutcome(list, s.id, status, Some(200));
  }
}
