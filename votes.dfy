/** Voting (src/votes): a vote row per (user, film) pair, and `VoteService.vote`,
    which in one transaction loads the vote by id, refuses a voter who does
    not own it, and otherwise overwrites its score and feedback.  The update
    helper of the generic service is not among the service files; it is taken
    to set the named attributes on the row with that id and flush. */
module Votes {
  import opened Values
  import opened Repository
  import Service

  /** A stored vote.  (`user_id`, `film_id`) is unique. */
  datatype Vote = Vote(userId: int, filmId: int, value: int, feedback: Option<string>)

  /** The unique constraint of the votes table. */
  function KeyOf(v: Vote): Option<(int, int)> { Some((v.userId, v.filmId)) }

  /** The refusal a voter gets for somebody else's vote. */
  const NotAllowed: Error := PermissionDenied("Action not allowed.")

  /** Every stored score is one the vote endpoint accepts (1 to 5). */
  ghost predicate ScoresInRange(rows: seq<Row<Vote>>) {
    forall k :: 0 <= k < |rows| ==> 1 <= rows[k].obj.value <= 5
  }

  /** The outcome of `vote(vote_id, user_id, score, feedback)` on the rows the
      transaction sees: the lookup's not-found error, the ownership refusal, or
      the vote with its score and feedback replaced.  The branch that would
      create a missing vote cannot be reached, since the lookup raises first. */
  function VoteOutcome(rows: seq<Row<Vote>>, voteId: int, userId: int, score: int, feedback: Option<string>): (r: Result<Row<Vote>, Error>)
    ensures r.Ok? <==> Service.Get(rows, voteId).Ok? && Service.Get(rows, voteId).value.obj.userId == userId
    ensures Service.Get(rows, voteId).Err? ==> r == Err(Service.Get(rows, voteId).error)
    ensures Service.Get(rows, voteId).Ok? && Service.Get(rows, voteId).value.obj.userId != userId ==> r == Err(NotAllowed)
    ensures r.Ok? ==>
              && r.value.id == voteId
              && r.value.obj.userId == userId
              && r.value.obj.filmId == Service.Get(rows, voteId).value.obj.filmId
              && r.value.obj.value == score
              && r.value.obj.feedback == feedback
  {
    match Service.Get(rows, voteId)
    case Err(e) => Err(e)
    case Ok(row) =>
      if row.obj.userId != userId then Err(NotAllowed)
      else Ok(Row(row.id, row.obj.(value := score, feedback := feedback)))
  }

  /** A vote keeps its (user, film) pair, so overwriting it can never clash
      with another vote. */
  lemma NoClashOnVote(rows: seq<Row<Vote>>, voteId: int, userId: int, score: int, feedback: Option<string>)
    requires KeysUnique(rows, KeyOf)
    requires VoteOutcome(rows, voteId, userId, score, feedback).Ok?
    ensures !KeyClash(rows, KeyOf, VoteOutcome(rows, voteId, userId, score, feedback).value)
  {
    var row := VoteOutcome(rows, voteId, userId, score, feedback).value;
    var stored := Service.Get(rows, voteId).value;
    var j :| 0 <= j < |rows| && rows[j] == stored;
    assert KeyOf(row.obj) == KeyOf(rows[j].obj);
    forall i | 0 <= i < |rows| && rows[i].id != row.id ensures KeyOf(rows[i].obj) != KeyOf(row.obj) {
      assert i != j;
    }
  }

  /** Voting replaces the one row with that id and leaves every other row and
      the number of votes as they were: it never creates a vote. */
  lemma VoteTouchesOneRow(rows: seq<Row<Vote>>, voteId: int, userId: int, score: int, feedback: Option<string>, id: int)
    requires IdsAscending(rows)
    requires VoteOutcome(rows, voteId, userId, score, feedback).Ok?
    ensures var row := VoteOutcome(rows, voteId, userId, score, feedback).value;
            && |Merge(rows, row)| == |rows|
            && Get(Merge(rows, row), id) == if id == voteId then Some(row) else Get(rows, id)
  {
    var row := VoteOutcome(rows, voteId, userId, score, feedback).value;
    MergeGet(rows, row, id);
    assert Get(rows, row.id).Some?;
  }

  /** A score the endpoint accepts keeps every stored score in range. */
  lemma VoteKeepsScoresInRange(rows: seq<Row<Vote>>, voteId: int, userId: int, score: int, feedback: Option<string>)
    requires ScoresInRange(rows)
    requires 1 <= score <= 5
    requires VoteOutcome(rows, voteId, userId, score, feedback).Ok?
    ensures ScoresInRange(Merge(rows, VoteOutcome(rows, voteId, userId, score, feedback).value))
  {
    var row := VoteOutcome(rows, voteId, userId, score, feedback).value;
    assert Get(rows, row.id).Some?;
    var m := Merge(rows, row);
    forall k | 0 <= k < |m| ensures 1 <= m[k].obj.value <= 5 {
      assert m[k] == row || m[k] == rows[k];
    }
  }

  /** `VoteService.vote`, inside `session.begin()`: an exception leaves the
      transaction uncommitted; a successful update is committed when the block
      ends. */
  method CastVote(table: Table<Vote, (int, int)>, voteId: int, userId: int, score: int, feedback: Option<string>)
    returns (r: Result<Row<Vote>, Error>)
    requires table.Valid() && table.Clean() && table.keyOf == KeyOf
    modifies table
    ensures table.Valid() && table.Clean()
    ensures r == VoteOutcome(old(table.rows), voteId, userId, score, feedback)
    ensures r.Ok? ==> table.committed == Merge(old(table.rows), r.value)
    ensures r.Err? ==> table.committed == old(table.committed)
  {
    var vote := Service.Get(table.rows, voteId);
    if vote.Err? {
      return Err(vote.error);
    }
    if vote.value.obj.userId != userId {
      return Err(NotAllowed);
    }
    var row := Row(vote.value.id, vote.value.obj.(value := score, feedback := feedback));
    NoClashOnVote(table.rows, voteId, userId, score, feedback);
    r := table.Update(row);
    table.Commit();
  }
}
