/**
 * The discussion board's views (discussion/views.py): casting a vote toggles
 * a user's vote on a thread or comment and answers with the recomputed score;
 * a report is appended without any deduplication; a comment is created only
 * with non-empty content; the thread list and the thread page order their rows
 * by fixed sort keys.
 *
 * JSON bodies, status codes and redirects become the response values below;
 * the request's user, the form fields and the clock are parameters.
 */
module DiscussionViews {
  import opened Wrappers
  import opened DiscussionModels

  // ---------------------------------------------------------------------------
  // The vote toggle

  /**
   * The three-state toggle of one user's vote on one target: no vote becomes
   * the new value, the same value is withdrawn, a different value replaces the
   * old one.
   */
  function NextVote(previous: Option<int>, value: int): (next: Option<int>)
    ensures previous.None? ==> next == Some(value)
    ensures previous == Some(value) ==> next.None?
    ensures previous.Some? && previous.value != value ==> next == Some(value)
  {
    match previous
    case None => Some(value)
    case Some(current) => if current == value then None else Some(value)
  }

  /** A table that keeps the constraint holds a user's vote exactly when it has that row. */
  lemma ValueOfIn(votes: seq<Vote>, user: UserId, target: Target, value: int)
    requires UniqueVotes(votes)
    ensures ValueOf(votes, user, target) == Some(value) <==> Vote(user, target, value) in votes
  {
    if Vote(user, target, value) in votes {
      var i :| 0 <= i < |votes| && votes[i] == Vote(user, target, value);
      ValueOfRow(votes, i);
    }
  }

  /** Two tables that hold the same rows for a key agree on that key's vote. */
  lemma SameRowsSameValue(a: seq<Vote>, b: seq<Vote>, user: UserId, target: Target)
    requires UniqueVotes(a) && UniqueVotes(b)
    requires forall v :: v in multiset(a) && v.user == user && v.target == target ==> v in multiset(b)
    requires forall v :: v in multiset(b) && v.user == user && v.target == target ==> v in multiset(a)
    ensures ValueOf(a, user, target) == ValueOf(b, user, target)
  {
    var va, vb := ValueOf(a, user, target), ValueOf(b, user, target);
    if va.Some? {
      ValueOfIn(a, user, target, va.value);
      ValueOfIn(b, user, target, va.value);
    }
    if vb.Some? {
      ValueOfIn(a, user, target, vb.value);
      ValueOfIn(b, user, target, vb.value);
    }
  }

  /** Inserting a row for a key that has none keeps the constraint and sets that key's vote. */
  lemma InsertRow(votes: seq<Vote>, v: Vote)
    requires UniqueVotes(votes) && FindVote(votes, v.user, v.target).None?
    ensures UniqueVotes(votes + [v])
    ensures ValueOf(votes + [v], v.user, v.target) == Some(v.value)
    ensures forall u, t :: u != v.user || t != v.target ==> ValueOf(votes + [v], u, t) == ValueOf(votes, u, t)
  {
    var r := votes + [v];
    assert UniqueVotes(r);
    ValueOfRow(r, |votes|);
    assert multiset(r) == multiset(votes) + multiset{v};
    forall u, t | u != v.user || t != v.target
      ensures ValueOf(r, u, t) == ValueOf(votes, u, t)
    {
      SameRowsSameValue(r, votes, u, t);
    }
  }

  /** Row a of the table without row i is row a or a + 1 of the table. */
  function Shifted(a: nat, i: nat): nat
  {
    if a < i then a else a + 1
  }

  /** Deleting row i keeps the constraint and leaves no row with row i's key. */
  lemma DeleteRowKeys(votes: seq<Vote>, i: nat)
    requires UniqueVotes(votes) && i < |votes|
    ensures UniqueVotes(votes[..i] + votes[i + 1..])
    ensures FindVote(votes[..i] + votes[i + 1..], votes[i].user, votes[i].target).None?
  {
    var r := votes[..i] + votes[i + 1..];
    forall a | 0 <= a < |r| ensures r[a] == votes[Shifted(a, i)] {
      if a < i {
        assert r[a] == votes[..i][a];
      } else {
        assert r[a] == votes[i + 1..][a - i];
      }
    }
    forall a, b | 0 <= a < b < |r| ensures r[a].user != r[b].user || r[a].target != r[b].target {
      assert r[a] == votes[Shifted(a, i)] && r[b] == votes[Shifted(b, i)];
    }
    forall a | 0 <= a < |r| ensures r[a].user != votes[i].user || r[a].target != votes[i].target {
      assert r[a] == votes[Shifted(a, i)];
    }
  }

  /** Deleting row i keeps the constraint, clears that key's vote and leaves every other key alone. */
  lemma DeleteRow(votes: seq<Vote>, i: nat)
    requires UniqueVotes(votes) && i < |votes|
    ensures UniqueVotes(votes[..i] + votes[i + 1..])
    ensures ValueOf(votes[..i] + votes[i + 1..], votes[i].user, votes[i].target).None?
    ensures forall u, t :: u != votes[i].user || t != votes[i].target ==>
      ValueOf(votes[..i] + votes[i + 1..], u, t) == ValueOf(votes, u, t)
  {
    var r := votes[..i] + votes[i + 1..];
    DeleteRowKeys(votes, i);
    assert votes == votes[..i] + [votes[i]] + votes[i + 1..];
    assert multiset(votes) == multiset(r) + multiset{votes[i]};
    forall u, t | u != votes[i].user || t != votes[i].target
      ensures ValueOf(r, u, t) == ValueOf(votes, u, t)
    {
      SameRowsSameValue(r, votes, u, t);
    }
  }

  /** Changing the value of row i in place keeps the constraint and every other key's vote. */
  lemma UpdateRow(votes: seq<Vote>, i: nat, value: int)
    requires UniqueVotes(votes) && i < |votes|
    ensures UniqueVotes(votes[i := votes[i].(value := value)])
    ensures ValueOf(votes[i := votes[i].(value := value)], votes[i].user, votes[i].target) == Some(value)
    ensures forall u, t :: u != votes[i].user || t != votes[i].target ==>
      ValueOf(votes[i := votes[i].(value := value)], u, t) == ValueOf(votes, u, t)
  {
    var r := votes[i := votes[i].(value := value)];
    assert UniqueVotes(r);
    ValueOfRow(r, i);
    assert votes == votes[..i] + [votes[i]] + votes[i + 1..];
    assert r == votes[..i] + [r[i]] + votes[i + 1..];
    assert multiset(r) == multiset(votes) - multiset{votes[i]} + multiset{r[i]};
    forall u, t | u != votes[i].user || t != votes[i].target
      ensures ValueOf(r, u, t) == ValueOf(votes, u, t)
    {
      SameRowsSameValue(r, votes, u, t);
    }
  }

  /**
   * VoteView's change to the vote table: get_or_create looks up the user's row
   * for the target; a missing row is inserted with the value, a row with the
   * same value is deleted, a row with another value is updated in place. The
   * table keeps at most one row per (user, target), the user's vote on the
   * target follows NextVote, and every other user's or target's vote is untouched.
   */
  function CastVote(votes: seq<Vote>, user: UserId, target: Target, value: int): (r: seq<Vote>)
    requires UniqueVotes(votes)
    ensures UniqueVotes(r)
    ensures ValueOf(r, user, target) == NextVote(ValueOf(votes, user, target), value)
    ensures forall u, t :: u != user || t != target ==> ValueOf(r, u, t) == ValueOf(votes, u, t)
  {
    match FindVote(votes, user, target)
    case None =>
      InsertRow(votes, Vote(user, target, value));
      votes + [Vote(user, target, value)]
    case Some(i) =>
      if votes[i].value == value then
        DeleteRow(votes, i);
        votes[..i] + votes[i + 1..]
      else
        UpdateRow(votes, i, value);
        votes[i := votes[i].(value := value)]
  }

  /** Appending a row adds its weight to its own target only. */
  lemma ScoreAfterInsert(votes: seq<Vote>, v: Vote)
    ensures forall t :: Score(votes + [v], t) == Score(votes, t) + (if v.target == t then Weight(v.value) else 0)
    ensures forall t :: VotesOn(votes + [v], t) == VotesOn(votes, t) + (if v.target == t then 1 else 0)
  {
    forall t ensures Score(votes + [v], t) == Score(votes, t) + (if v.target == t then Weight(v.value) else 0)
                  && VotesOn(votes + [v], t) == VotesOn(votes, t) + (if v.target == t then 1 else 0) {
      ScoreConcat(votes, [v], t);
      ScoreOne(v, t);
    }
  }

  /** Deleting row i takes its weight off its own target only. */
  lemma ScoreAfterDelete(votes: seq<Vote>, i: nat)
    requires i < |votes|
    ensures forall t :: Score(votes[..i] + votes[i + 1..], t)
                        == Score(votes, t) - (if votes[i].target == t then Weight(votes[i].value) else 0)
    ensures forall t :: VotesOn(votes[..i] + votes[i + 1..], t) as int
                        == VotesOn(votes, t) - (if votes[i].target == t then 1 else 0)
  {
    var v := votes[i];
    assert votes == votes[..i] + [v] + votes[i + 1..];
    forall t ensures Score(votes[..i] + votes[i + 1..], t) == Score(votes, t) - (if v.target == t then Weight(v.value) else 0)
                  && VotesOn(votes[..i] + votes[i + 1..], t) as int == VotesOn(votes, t) - (if v.target == t then 1 else 0) {
      ScoreConcat(votes[..i] + [v], votes[i + 1..], t);
      ScoreConcat(votes[..i], [v], t);
      ScoreConcat(votes[..i], votes[i + 1..], t);
      ScoreOne(v, t);
    }
  }

  /** Changing row i's value moves its own target's score by the difference of the weights, and no count. */
  lemma ScoreAfterUpdate(votes: seq<Vote>, i: nat, value: int)
    requires i < |votes|
    ensures forall t :: Score(votes[i := votes[i].(value := value)], t)
                        == Score(votes, t) + (if votes[i].target == t then Weight(value) - Weight(votes[i].value) else 0)
    ensures forall t :: VotesOn(votes[i := votes[i].(value := value)], t) == VotesOn(votes, t)
  {
    var v := votes[i];
    var w := v.(value := value);
    var r := votes[i := w];
    assert votes == votes[..i] + [v] + votes[i + 1..];
    assert r == votes[..i] + [w] + votes[i + 1..];
    forall t ensures Score(r, t) == Score(votes, t) + (if v.target == t then Weight(value) - Weight(v.value) else 0)
                  && VotesOn(r, t) == VotesOn(votes, t) {
      ScoreConcat(votes[..i] + [v], votes[i + 1..], t);
      ScoreConcat(votes[..i], [v], t);
      ScoreConcat(votes[..i] + [w], votes[i + 1..], t);
      ScoreConcat(votes[..i], [w], t);
      ScoreOne(v, t);
      ScoreOne(w, t);
    }
  }

  /** What a user's current vote (if any) adds to a score. */
  function VoteWeight(vote: Option<int>): int
  {
    match vote
    case None => 0
    case Some(v) => Weight(v)
  }

  /**
   * How a vote moves the score: the target's score changes by the weight of
   * the user's new vote minus that of the old one, the number of votes on it
   * changes only by an insertion or a deletion, and every other target keeps
   * its score. For a declared value v: a first vote adds v, repeating it takes v
   * away again, switching from -v adds 2v.
   */
  lemma CastVoteScore(votes: seq<Vote>, user: UserId, target: Target, value: int)
    requires UniqueVotes(votes)
    ensures var r := CastVote(votes, user, target, value);
      && Score(r, target)
         == Score(votes, target) - VoteWeight(ValueOf(votes, user, target)) + VoteWeight(ValueOf(r, user, target))
      && VotesOn(r, target) as int
         == VotesOn(votes, target) - (if ValueOf(votes, user, target).Some? then 1 else 0)
                                   + (if ValueOf(r, user, target).Some? then 1 else 0)
      && (forall t :: t != target ==> Score(r, t) == Score(votes, t) && VotesOn(r, t) == VotesOn(votes, t))
    ensures IsChoice(value) ==>
      var r := CastVote(votes, user, target, value);
      && (ValueOf(votes, user, target).None? ==> Score(r, target) == Score(votes, target) + value)
      && (ValueOf(votes, user, target) == Some(value) ==> Score(r, target) == Score(votes, target) - value)
      && (ValueOf(votes, user, target) == Some(-value) ==> Score(r, target) == Score(votes, target) + 2 * value)
  {
    match FindVote(votes, user, target)
    case None =>
      ScoreAfterInsert(votes, Vote(user, target, value));
    case Some(i) =>
      ValueOfRow(votes, i);
      if votes[i].value == value {
        ScoreAfterDelete(votes, i);
      } else {
        ScoreAfterUpdate(votes, i, value);
      }
  }

  /**
   * Voting twice with the same value from no vote at all leaves the vote table
   * exactly as it was, so the score is back to its value before the first vote.
   */
  lemma VoteTwiceRestores(votes: seq<Vote>, user: UserId, target: Target, value: int)
    requires UniqueVotes(votes) && ValueOf(votes, user, target).None?
    ensures CastVote(CastVote(votes, user, target, value), user, target, value) == votes
  {
    var once := votes + [Vote(user, target, value)];
    assert CastVote(votes, user, target, value) == once;
    var f := FindVote(once, user, target);
    assert f.Some?;
    assert f.value == |votes|;
    assert once[..|votes|] + once[|votes| + 1..] == votes;
  }

  /**
   * The target key includes the content type: voting on thread n never
   * changes the score of, or the votes on, comment n.
   */
  lemma ThreadVoteLeavesComment(votes: seq<Vote>, user: UserId, n: nat, value: int)
    requires UniqueVotes(votes)
    ensures var r := CastVote(votes, user, Target(ThreadType, n), value);
      Score(r, Target(CommentType, n)) == Score(votes, Target(CommentType, n))
      && VotesOn(r, Target(CommentType, n)) == VotesOn(votes, Target(CommentType, n))
  {
    CastVoteScore(votes, user, Target(ThreadType, n), value);
  }

  /**
   * One user on thread 5: an upvote scores 1, switching to a downvote scores -1,
   * downvoting again withdraws the vote and scores 0.
   */
  lemma UpDownDownScenario(user: UserId)
    ensures var t := Target(ThreadType, 5);
      var v1 := CastVote([], user, t, Upvote);
      var v2 := CastVote(v1, user, t, Downvote);
      var v3 := CastVote(v2, user, t, Downvote);
      Score(v1, t) == 1 && Score(v2, t) == -1 && Score(v3, t) == 0 && v3 == []
  {
    var t := Target(ThreadType, 5);
    CastVoteScore([], user, t, Upvote);
    var v1 := CastVote([], user, t, Upvote);
    CastVoteScore(v1, user, t, Downvote);
    var v2 := CastVote(v1, user, t, Downvote);
    CastVoteScore(v2, user, t, Downvote);
    assert v1 == [Vote(user, t, Upvote)];
    assert v2 == [Vote(user, t, Downvote)];
  }

  // ---------------------------------------------------------------------------
  // Ordering

  /** A two-part sort key; rows are listed with larger keys first. */
  datatype SortKey = SortKey(primary: int, secondary: int)

  /** `a` may be listed before `b` in descending order of the key. */
  predicate Above(a: SortKey, b: SortKey)
  {
    a.primary > b.primary || (a.primary == b.primary && a.secondary >= b.secondary)
  }

  predicate SortedDesc<T>(s: seq<T>, key: T -> SortKey)
  {
    forall i, j :: 0 <= i < j < |s| ==> Above(key(s[i]), key(s[j]))
  }

  /** A row above the head of a sorted list may be put in front of it. */
  lemma PrependSorted<T>(h: T, s: seq<T>, key: T -> SortKey)
    requires SortedDesc(s, key)
    requires s != [] ==> Above(key(h), key(s[0]))
    ensures SortedDesc([h] + s, key)
  {
    var r := [h] + s;
    forall i, j | 0 <= i < j < |r| ensures Above(key(r[i]), key(r[j])) {
      if i > 0 {
        assert r[i] == s[i - 1] && r[j] == s[j - 1];
      } else if j > 1 {
        assert Above(key(s[0]), key(s[j - 1]));
      }
    }
  }

  /** Inserts x into a list sorted by descending key, keeping it sorted. */
  function InsertDesc<T(==)>(x: T, s: seq<T>, key: T -> SortKey): (r: seq<T>)
    requires SortedDesc(s, key)
    ensures SortedDesc(r, key)
    ensures multiset(r) == multiset(s) + multiset{x}
    ensures |r| == |s| + 1 && (r[0] == x || (s != [] && r[0] == s[0]))
  {
    if s == [] then [x]
    else if Above(key(x), key(s[0])) then [x] + s
    else
      var rest := InsertDesc(x, s[1..], key);
      var r := [s[0]] + rest;
      PrependSorted(s[0], rest, key);
      assert r[0] == s[0];
      assert s == [s[0]] + s[1..];
      assert multiset(s) == multiset{s[0]} + multiset(s[1..]);
      assert multiset(r) == multiset{s[0]} + multiset(rest);
      r
  }

  /** The rows of s, ordered by descending key (an ORDER BY with every column descending). */
  function SortDesc<T(==)>(s: seq<T>, key: T -> SortKey): (r: seq<T>)
    ensures SortedDesc(r, key)
    ensures multiset(r) == multiset(s)
  {
    if s == [] then []
    else
      assert s == [s[0]] + s[1..];
      InsertDesc(s[0], SortDesc(s[1..], key), key)
  }

  /** A thread row annotated with its vote score, as the list view's queryset produces it. */
  datatype ListedThread = ListedThread(thread: Thread, voteScore: int)

  /**
   * The annotation: each thread with upvotes minus downvotes over its votes
   * (the COUNT aggregates are never NULL, so the CASE's zero branch never
   * applies and the annotation is the thread's score).
   */
  function Annotate(threads: seq<Thread>, votes: seq<Vote>): (r: seq<ListedThread>)
    ensures |r| == |threads|
    ensures forall i :: 0 <= i < |r| ==>
      r[i].thread == threads[i] && r[i].voteScore == Score(votes, Target(ThreadType, threads[i].id))
  {
    if threads == [] then []
    else [ListedThread(threads[0], Score(votes, Target(ThreadType, threads[0].id)))]
         + Annotate(threads[1..], votes)
  }

  /** The `top` and `hot` key: score first, newer first among equal scores. */
  function ByScoreThenNew(t: ListedThread): SortKey
  {
    SortKey(t.voteScore, t.thread.createdAt)
  }

  /** The `new` key: newer first. */
  function ByNewThread(t: ListedThread): SortKey
  {
    SortKey(t.thread.createdAt, 0)
  }

  /** Whether a `sort` query value orders by score; any other value (or the default `new`) orders by date. */
  predicate RanksByScore(sort: string)
  {
    sort == "top" || sort == "hot"
  }

  /**
   * ThreadListView's queryset: every thread exactly once, annotated with its
   * score, ordered by score then creation time for `top` and `hot`, and by
   * creation time for anything else.
   */
  function ThreadList(threads: seq<Thread>, votes: seq<Vote>, sort: string): (r: seq<ListedThread>)
    ensures multiset(r) == multiset(Annotate(threads, votes))
    ensures |r| == |threads|
    ensures RanksByScore(sort) ==> SortedDesc(r, ByScoreThenNew)
    ensures !RanksByScore(sort) ==> SortedDesc(r, ByNewThread)
    ensures forall x :: x in r ==> x.voteScore == Score(votes, Target(ThreadType, x.thread.id))
  {
    var rows := Annotate(threads, votes);
    var r := if RanksByScore(sort) then SortDesc(rows, ByScoreThenNew) else SortDesc(rows, ByNewThread);
    assert |r| == |multiset(r)| == |multiset(rows)| == |rows|;
    assert forall x :: x in r ==> x in multiset(rows);
    r
  }

  /** The comments of a thread that reply to no other comment, in table order. */
  function TopLevelOf(comments: seq<Comment>, threadId: nat): (r: seq<Comment>)
    ensures forall c :: c in r <==> c in comments && c.thread == threadId && c.parent.None?
    ensures multiset(r) <= multiset(comments)
  {
    if comments == [] then []
    else
      assert comments == [comments[0]] + comments[1..];
      var rest := TopLevelOf(comments[1..], threadId);
      if comments[0].thread == threadId && comments[0].parent.None? then [comments[0]] + rest else rest
  }

  /** The thread page's key: newer comments first. */
  function ByNewComment(c: Comment): SortKey
  {
    SortKey(c.createdAt, 0)
  }

  /**
   * ThreadDetailView's comment list: exactly the thread's top-level comments,
   * newest first.
   */
  function TopLevelComments(comments: seq<Comment>, threadId: nat): (r: seq<Comment>)
    ensures forall c :: c in r <==> c in comments && c.thread == threadId && c.parent.None?
    ensures multiset(r) <= multiset(comments)
    ensures SortedDesc(r, ByNewComment)
  {
    var top := TopLevelOf(comments, threadId);
    var r := SortDesc(top, ByNewComment);
    assert forall c :: c in r <==> c in multiset(top);
    r
  }

  // ---------------------------------------------------------------------------
  // The views as state changes on the board's tables

  /** The content type named by the `content_type` form field, if it names one. */
  function ContentTypeNamed(name: string): (r: Option<ContentType>)
    ensures r == Some(ThreadType) <==> name == "thread"
    ensures r == Some(CommentType) <==> name == "comment"
  {
    if name == "thread" then Some(ThreadType)
    else if name == "comment" then Some(CommentType)
    else None
  }

  /** The JSON replies of the vote and report views. */
  datatype Reply =
    | ScoreReply(score: int)   // {'score': ...}
    | ReportFiled              // {'status': 'success'}
    | InvalidContentType       // {'error': 'Invalid content type'}, status 400
    | ServerError              // an uncaught exception: status 500, no reply body

  datatype CommentOutcome =
    | ThreadNotFound   // 404 for the thread
    | ParentNotFound   // 404 for the parent comment
    | CommentCreated   // redirect to the thread, with the new comment
    | NothingPosted    // redirect to the thread, empty content ignored

  /** The board's tables, which the views change in place. */
  class Forum {
    var threads: seq<Thread>
    var comments: seq<Comment>
    var votes: seq<Vote>
    var reports: seq<Report>
    /** The id the database will give the next comment. */
    var nextCommentId: nat

    predicate Valid()
      reads this
    {
      && UniqueVotes(votes)
      && CommentForest(comments)
      && forall i :: 0 <= i < |comments| ==> comments[i].id < nextCommentId
    }

    constructor (threads: seq<Thread>)
      ensures Valid()
      ensures this.threads == threads && comments == [] && votes == [] && reports == []
    {
      this.threads := threads;
      comments, votes, reports := [], [], [];
      nextCommentId := 1;
    }

    /** Whether the object a target names exists. */
    predicate TargetExists(target: Target)
      reads this
    {
      match target.contentType
      case ThreadType => HasThread(threads, target.objectId)
      case CommentType => HasComment(comments, target.objectId)
    }

    /**
     * VoteView.post as written: it reads the user from `request.request.user`,
     * an attribute a request does not have, so every vote on a valid content
     * type fails with a server error before the table is touched.
     */
    method PostVoteAsWritten(contentType: string, objectId: nat, value: int) returns (reply: Reply)
      ensures reply == InvalidContentType <==> ContentTypeNamed(contentType).None?
      ensures reply == ServerError <==> ContentTypeNamed(contentType).Some?
    {
      var ct := ContentTypeNamed(contentType);
      if ct.None? {
        return InvalidContentType;
      }
      reply := ServerError;
    }

    /**
     * VoteView.post with the request's user: the vote table changes as
     * CastVote says, then the target is fetched to compute its score. The
     * target is looked up only after the vote was written, and nothing rolls
     * that write back: a vote on a missing object stays in the table and the
     * reply is a server error.
     */
    method PostVote(user: UserId, contentType: string, objectId: nat, value: int) returns (reply: Reply)
      requires Valid()
      modifies this
      ensures Valid()
      ensures threads == old(threads) && comments == old(comments) && reports == old(reports)
      ensures nextCommentId == old(nextCommentId)
      ensures match ContentTypeNamed(contentType)
        case None => reply == InvalidContentType && votes == old(votes)
        case Some(ct) =>
          var target := Target(ct, objectId);
          && votes == CastVote(old(votes), user, target, value)
          && (TargetExists(target) ==> reply == ScoreReply(Score(votes, target)))
          && (!TargetExists(target) ==> reply == ServerError)
    {
      var ct := ContentTypeNamed(contentType);
      if ct.None? {
        return InvalidContentType;
      }
      var target := Target(ct.value, objectId);
      var found := FindVote(votes, user, target);
      match found {
        case None =>
          votes := votes + [Vote(user, target, value)];
        case Some(i) =>
          if votes[i].value == value {
            votes := votes[..i] + votes[i + 1..];
          } else {
            votes := votes[i := votes[i].(value := value)];
          }
      }
      if TargetExists(target) {
        reply := ScoreReply(Score(votes, target));
      } else {
        reply := ServerError;
      }
    }

    /**
     * ReportView.post: any content type other than thread or comment is
     * refused; otherwise one unresolved report is appended, with no check that
     * the object exists, that the reason is non-empty or that the same report
     * was filed before. A request without a reason fails on the column's NOT
     * NULL constraint and appends nothing.
     */
    method PostReport(user: UserId, contentType: string, objectId: nat, reason: Option<string>, now: int)
      returns (reply: Reply)
      requires Valid()
      modifies this
      ensures Valid()
      ensures threads == old(threads) && comments == old(comments) && votes == old(votes)
      ensures nextCommentId == old(nextCommentId)
      ensures match ContentTypeNamed(contentType)
        case None => reply == InvalidContentType && reports == old(reports)
        case Some(ct) =>
          && (reason.None? ==> reply == ServerError && reports == old(reports))
          && (reason.Some? ==>
                reply == ReportFiled
                && reports == old(reports) + [NewReport(user, Target(ct, objectId), reason.value, now)])
    {
      var ct := ContentTypeNamed(contentType);
      if ct.None? {
        return InvalidContentType;
      }
      if reason.None? {
        return ServerError;
      }
      reports := reports + [NewReport(user, Target(ct.value, objectId), reason.value, now)];
      reply := ReportFiled;
    }

    /**
     * CommentCreateView.post: the thread must exist; empty or missing content
     * creates nothing; a named parent must exist (it may belong to another
     * thread, which is not checked); the new comment takes the next id.
     */
    method PostComment(user: UserId, threadId: nat, content: Option<string>, parentId: Option<nat>, now: int)
      returns (outcome: CommentOutcome)
      requires Valid()
      modifies this
      ensures Valid()
      ensures threads == old(threads) && votes == old(votes) && reports == old(reports)
      ensures outcome == ThreadNotFound <==> !HasThread(threads, threadId)
      ensures outcome == NothingPosted <==>
        HasThread(threads, threadId) && (content.None? || content.value == "")
      ensures outcome == CommentCreated ==> content.Some? && content.value != ""
      ensures outcome != CommentCreated ==> comments == old(comments) && nextCommentId == old(nextCommentId)
      ensures outcome == CommentCreated ==>
        && comments == old(comments) + [Comment(old(nextCommentId), threadId, user, content.value, parentId, now)]
        && nextCommentId == old(nextCommentId) + 1
      ensures outcome == ParentNotFound ==>
        parentId.Some? && !HasComment(comments, parentId.value)
    {
      if !HasThread(threads, threadId) {
        return ThreadNotFound;
      }
      if content.None? || content.value == "" {
        return NothingPosted;
      }
      if parentId.Some? && !HasComment(comments, parentId.value) {
        return ParentNotFound;
      }
      var c := Comment(nextCommentId, threadId, user, content.value, parentId, now);
      AppendKeepsForest(comments, c);
      comments := comments + [c];
      nextCommentId := nextCommentId + 1;
      outcome := CommentCreated;
    }
  }
}
