/**
 * The discussion board's records (discussion/models.py): threads, comments
 * that may reply to another comment, votes and reports. Votes and reports
 * point at their target through a (content type, object id) pair, so one
 * vote table serves both threads and comments.
 *
 * The vote table is a sequence of rows, as the database holds it; the
 * uniqueness of (user, content type, object id) is the invariant UniqueVotes,
 * and a target's score is counted over the rows, never stored.
 */
module DiscussionModels {
  import opened Wrappers

  type UserId = nat

  /** The two content types a vote or report may point at. */
  datatype ContentType = ThreadType | CommentType

  /** A generic reference: the content type and the object's id within it. */
  datatype Target = Target(contentType: ContentType, objectId: nat)

  datatype Thread = Thread(id: nat, author: UserId, title: string, content: string, createdAt: int)

  /** A comment on a thread; `parent` is the comment it replies to, if any. */
  datatype Comment = Comment(
    id: nat,
    thread: nat,
    author: UserId,
    content: string,
    parent: Option<nat>,
    createdAt: int)

  const Upvote: int := 1
  const Downvote: int := -1

  /** The declared choices of a vote's value. Saving a vote does not enforce them. */
  predicate IsChoice(value: int)
  {
    value == Upvote || value == Downvote
  }

  datatype Vote = Vote(user: UserId, target: Target, value: int)

  /** The table-level constraint: at most one row per (user, content type, object id). */
  predicate UniqueVotes(votes: seq<Vote>)
  {
    forall i, j :: 0 <= i < j < |votes| ==>
      votes[i].user != votes[j].user || votes[i].target != votes[j].target
  }

  /** The number of rows on `target` whose value is `value`. */
  function Tally(votes: seq<Vote>, target: Target, value: int): nat
  {
    if votes == [] then 0
    else (if votes[0].target == target && votes[0].value == value then 1 else 0)
         + Tally(votes[1..], target, value)
  }

  /** The number of rows on `target`, whatever their value. */
  function VotesOn(votes: seq<Vote>, target: Target): nat
  {
    if votes == [] then 0
    else (if votes[0].target == target then 1 else 0) + VotesOn(votes[1..], target)
  }

  /** Upvotes and downvotes together are at most all the votes on a target. */
  lemma {:induction false} TallyBound(votes: seq<Vote>, target: Target)
    ensures Tally(votes, target, Upvote) + Tally(votes, target, Downvote) <= VotesOn(votes, target)
  {
    if votes != [] {
      TallyBound(votes[1..], target);
    }
  }

  /**
   * The score of a thread or a comment: upvotes minus downvotes on it. Its
   * magnitude never exceeds the number of votes on the target.
   */
  function Score(votes: seq<Vote>, target: Target): (s: int)
    ensures -(VotesOn(votes, target) as int) <= s <= VotesOn(votes, target)
  {
    TallyBound(votes, target);
    Tally(votes, target, Upvote) - Tally(votes, target, Downvote)
  }

  /** What one row with value `value` adds to a score. */
  function Weight(value: int): (w: int)
    ensures IsChoice(value) ==> w == value
    ensures !IsChoice(value) ==> w == 0
  {
    if value == Upvote then 1 else if value == Downvote then -1 else 0
  }

  /** Counting splits over a concatenation of tables. */
  lemma {:induction false} TallyConcat(a: seq<Vote>, b: seq<Vote>, target: Target, value: int)
    ensures Tally(a + b, target, value) == Tally(a, target, value) + Tally(b, target, value)
    ensures VotesOn(a + b, target) == VotesOn(a, target) + VotesOn(b, target)
  {
    if a != [] {
      assert (a + b)[1..] == a[1..] + b;
      TallyConcat(a[1..], b, target, value);
    } else {
      assert a + b == b;
    }
  }

  /** The score of a table is the sum of the scores of its parts. */
  lemma ScoreConcat(a: seq<Vote>, b: seq<Vote>, target: Target)
    ensures Score(a + b, target) == Score(a, target) + Score(b, target)
    ensures VotesOn(a + b, target) == VotesOn(a, target) + VotesOn(b, target)
  {
    TallyConcat(a, b, target, Upvote);
    TallyConcat(a, b, target, Downvote);
  }

  /** A single row adds its weight to its own target's score and nothing to any other. */
  lemma ScoreOne(v: Vote, target: Target)
    ensures Score([v], target) == if v.target == target then Weight(v.value) else 0
    ensures VotesOn([v], target) == if v.target == target then 1 else 0
  {
    assert [v][1..] == [];
    assert Tally([v], target, Upvote) == if v.target == target && v.value == Upvote then 1 else 0;
    assert Tally([v], target, Downvote) == if v.target == target && v.value == Downvote then 1 else 0;
  }

  /**
   * get_or_create's lookup: the index of the row for (user, target), if any.
   * The row found is the first one with that key.
   */
  function FindVote(votes: seq<Vote>, user: UserId, target: Target): (r: Option<nat>)
    ensures r.Some? ==>
      && r.value < |votes|
      && votes[r.value].user == user && votes[r.value].target == target
      && forall j :: 0 <= j < r.value ==> votes[j].user != user || votes[j].target != target
    ensures r.None? ==>
      forall j :: 0 <= j < |votes| ==> votes[j].user != user || votes[j].target != target
  {
    if votes == [] then None
    else if votes[0].user == user && votes[0].target == target then Some(0)
    else match FindVote(votes[1..], user, target)
      case None => None
      case Some(i) => Some(i + 1)
  }

  /** The value of `user`'s vote on `target`, or None when they have not voted. */
  function ValueOf(votes: seq<Vote>, user: UserId, target: Target): Option<int>
  {
    match FindVote(votes, user, target)
    case None => None
    case Some(i) => Some(votes[i].value)
  }

  /** In a table that keeps the constraint, a user's vote is the one row with their key. */
  lemma ValueOfRow(votes: seq<Vote>, i: nat)
    requires UniqueVotes(votes) && i < |votes|
    ensures ValueOf(votes, votes[i].user, votes[i].target) == Some(votes[i].value)
  {
    var f := FindVote(votes, votes[i].user, votes[i].target);
    assert f.Some?;
    assert f.value == i;
  }

  /** A vote counts for a score only with one of the declared values. */
  lemma ScoreIgnoresOtherValues(votes: seq<Vote>, v: Vote)
    requires !IsChoice(v.value)
    ensures Score(votes + [v], v.target) == Score(votes, v.target)
  {
    ScoreConcat(votes, [v], v.target);
    ScoreOne(v, v.target);
  }

  /** A report row. Nothing makes reports unique: one user may report one target many times. */
  datatype Report = Report(
    createdBy: UserId,
    reason: string,
    createdAt: int,
    isResolved: bool,
    target: Target)

  /** A freshly filed report is unresolved. */
  function NewReport(createdBy: UserId, target: Target, reason: string, createdAt: int): (r: Report)
    ensures !r.isResolved
    ensures r.createdBy == createdBy && r.target == target && r.reason == reason
    ensures r.createdAt == createdAt
  {
    Report(createdBy, reason, createdAt, false, target)
  }

  /** Whether the thread table has a row with this id. */
  predicate HasThread(threads: seq<Thread>, id: nat)
  {
    exists i :: 0 <= i < |threads| && threads[i].id == id
  }

  /** Whether the comment table has a row with this id. */
  predicate HasComment(comments: seq<Comment>, id: nat)
  {
    exists i :: 0 <= i < |comments| && comments[i].id == id
  }

  /**
   * The comment table's shape: ids are distinct, and every reply's parent is an
   * existing comment with a smaller id, so following parents always ends at a
   * top-level comment.
   */
  predicate CommentForest(comments: seq<Comment>)
  {
    && (forall i, j :: 0 <= i < j < |comments| ==> comments[i].id != comments[j].id)
    && (forall i :: 0 <= i < |comments| && comments[i].parent.Some? ==>
          comments[i].parent.value < comments[i].id && HasComment(comments, comments[i].parent.value))
  }

  /**
   * Appending a comment whose id is above every existing id and whose parent,
   * if any, exists keeps the table a forest.
   */
  lemma AppendKeepsForest(comments: seq<Comment>, c: Comment)
    requires CommentForest(comments)
    requires forall i :: 0 <= i < |comments| ==> comments[i].id < c.id
    requires c.parent.Some? ==> HasComment(comments, c.parent.value)
    ensures CommentForest(comments + [c])
  {
    var r := comments + [c];
    forall id: nat | HasComment(comments, id) ensures HasComment(r, id) && id < c.id {
      var j :| 0 <= j < |comments| && comments[j].id == id;
      assert r[j] == comments[j];
    }
  }
}
