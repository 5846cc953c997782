# CredLearn core: credit transfer on enrollment and the vote/report engine

This project models the two rule sets of the CredLearn course marketplace that
carry real invariants, and proves properties of the model in Dafny.

* **Course enrollment with credits** (`core/`). Every user has a `creds`
  balance (100 at registration). Joining a course moves the course's price from
  the student to the teacher and adds the student to the course's student set,
  unless the student is already enrolled or cannot afford it. Only a course's
  teacher may edit or delete it, and deleting takes a POST. The dashboard splits
  all courses into those available to the user, those the user attends and
  those the user teaches.
* **Votes and reports on the discussion board** (`discussion/`). A vote points
  at a thread or a comment through a (content type, object id) pair. The vote
  table holds at most one row per (user, target). Voting is a three-state
  toggle (no vote, up, down) whose reply is the target's recomputed score:
  upvotes minus downvotes. Reports are appended with no deduplication. Comments
  need non-empty content. Thread lists are ordered by score or by date, and a
  thread page lists its top-level comments newest first.

Files:

| file | contents |
|---|---|
| `wrappers.dfy` | `Option` |
| `core_models.dfy` | module `CoreModels`: the user, course, transaction, time-slot and skill records and their defaults |
| `core_views.dfy` | module `CoreViews`: the database value `Db`, join as written and as intended, the dashboard, and the class `Marketplace` whose methods are the views |
| `discussion_models.dfy` | module `DiscussionModels`: threads, comments, the vote table and its uniqueness, scores, reports |
| `discussion_views.dfy` | module `DiscussionViews`: the vote toggle `CastVote` and its laws, the list orderings, and the class `Forum` whose methods are the POST views |

The views run their statements one after the other with no database
transaction around them. The model is that sequential behaviour. Each view is
a method of a class that holds the tables it changes (`Marketplace`, `Forum`).
Each method's postcondition ties the new tables to a pure function, or states
them outright. The properties are then proved about those functions as lemmas.

Some behaviour one might expect of a credit ledger and a vote engine is not
in the code, and the model follows the code:

* The code never writes a `Transaction` row. A join only changes two balances
  and one student set. `Transaction` is modelled as a record with its sign
  convention and nothing more.
* The vote view does not reject values outside {1, -1}. It stores any integer,
  and the score simply ignores such rows (`DiscussionModels.Score`,
  `DiscussionModels.ScoreIgnoresOtherValues`).
* The vote view does not check that the target exists before writing the
  vote. It looks the target up only to compute the reply. For a missing target,
  the vote stays in the table and the reply is a server error.
* The report view accepts an empty reason. A request with no reason at all
  fails on the column's NOT NULL constraint, and nothing is appended.
* A reply's parent comment is not checked to belong to the same thread.

## Model

| member | source | states |
|---|---|---|
| `CoreModels.NewUser` | core/models.py:8-9 | a new user starts with 100 creds and the teacher flag it was given |
| `CoreModels.NewCourse` | core/models.py:51-60 | a new course has the given teacher, no students, and price 10 unless a price is given |
| `CoreModels.Enroll` | core/models.py:59 | the student set is a set: adding an enrolled student changes nothing, anyone else grows it by exactly one, nothing but the set changes |
| `CoreModels.Earned` | core/models.py:67 | a transaction earns exactly when its amount is positive, and then earns the amount |
| `CoreModels.Spent` | core/models.py:67 | a transaction spends exactly when its amount is negative, and then spends its magnitude |
| `CoreModels.SignConvention` | core/models.py:65-73 | earned minus spent is the signed amount, and no row both earns and spends |
| `CoreModels.NewTimeSlot` | core/models.py:76-81 | a new time slot is unbooked and has no booker |
| `CoreModels.NewSkill` | core/models.py:86-89 | a new skill is unverified |
| `CoreViews.JoinAsWritten` | core/views.py:81-104 | the code as written: 404 for a missing course; already enrolled or too few creds change nothing; otherwise the price moves from student to teacher and the student joins, other users untouched; a self-join leaves the user `price` richer |
| `CoreViews.Join` | core/views.py:81-104 | as intended: a teacher joining their own course is refused; a join succeeds exactly when the course exists, the student is not enrolled, is not the teacher and has creds >= price; then the student loses exactly the price (never going negative), the teacher gains it, their sum and every other balance are unchanged; on any other outcome nothing changes |
| `CoreViews.JoinAgreesWithWritten` | core/views.py:81-104 | the intended and the written join agree on every input except a teacher joining their own course |
| `CoreViews.JoinAsWrittenConservesCreds` | core/views.py:91-97 | a join as written between two different users keeps the total of all balances |
| `CoreViews.SelfJoinMintsCreds` | core/views.py:93-97 | a join as written of a teacher to their own affordable course succeeds and raises the total of all balances by the price |
| `CoreViews.SelfJoinExample` | core/views.py:93-97 | a user with 100 creds joining their own default-priced course ends with 110 |
| `CoreViews.JoinConservesCreds` | core/views.py:91-97 | the intended join keeps the total of all balances on every input |
| `CoreViews.JoinKeepsNoSelfEnrollment` | core/views.py:91-99 | the intended join never enrolls a teacher in their own course |
| `CoreViews.JoinAsWrittenBreaksNoSelfEnrollment` | core/views.py:91-99 | the join as written can enroll a teacher in their own course |
| `CoreViews.DashboardFor` | core/views.py:29-44 | `available` is exactly the courses neither taught nor attended by the user, `mine` those attended, `teaching` those taught; `available` is disjoint from both and the three cover all courses |
| `CoreViews.DashboardPartition` | core/views.py:31-37 | when no teacher attends their own course, `mine` and `teaching` are disjoint too, so the three lists partition the courses |
| `CoreViews.Marketplace.JoinCourse` | core/views.py:81-104 | the database after a join request and the outcome are those of `Join`; integrity is kept |
| `CoreViews.Marketplace.CreateCourse` | core/views.py:67-78 | a valid POST adds one course taught by the requester under a fresh id; anything else changes nothing |
| `CoreViews.Marketplace.EditCourse` | core/views.py:107-127 | 404 for a missing course; anyone but the teacher is refused and nothing changes; a valid POST by the teacher replaces title, description and price only; a GET or an invalid form changes nothing |
| `CoreViews.Marketplace.DeleteCourse` | core/views.py:130-143 | 404 for a missing course; anyone but the teacher is refused; the course is removed exactly on a POST by its teacher, and a GET by the teacher removes nothing |
| `DiscussionModels.Score` | discussion/models.py:22-27 | a target's score is its upvotes minus its downvotes (the same formula serves comments, discussion/models.py:43-47), and its magnitude is at most the number of votes on the target |
| `DiscussionModels.TallyBound` | discussion/models.py:25-27 | upvotes plus downvotes never exceed the votes on a target |
| `DiscussionModels.Weight` | discussion/models.py:50-55 | the declared values are UPVOTE = 1 and DOWNVOTE = -1; a row with any other value weighs nothing |
| `DiscussionModels.ScoreConcat` | discussion/models.py:22-27 | scores and vote counts add up over the parts of a table |
| `DiscussionModels.ScoreOne` | discussion/models.py:22-27 | one row adds its weight to its own target's score and nothing to any other target |
| `DiscussionModels.ScoreIgnoresOtherValues` | discussion/models.py:58 | a stored value other than 1 or -1 leaves the score unchanged |
| `DiscussionModels.FindVote` | discussion/models.py:65-66 | the lookup finds the first row with the (user, target) key, or reports that no row has it |
| `DiscussionModels.ValueOfRow` | discussion/models.py:65-66 | in a table that keeps the uniqueness constraint, a user's vote on a target is the one row with that key |
| `DiscussionModels.AppendKeepsForest` | discussion/models.py:29-35 | a new comment with an id above all others and an existing parent keeps the comment table a forest: distinct ids, and every parent exists with a smaller id |
| `DiscussionModels.NewReport` | discussion/models.py:71-80 | a new report is unresolved and records its author, target, reason and time |
| `DiscussionViews.NextVote` | discussion/views.py:103-117 | the toggle: no vote becomes the value, the same value is withdrawn, another value is replaced |
| `DiscussionViews.CastVote` | discussion/views.py:103-117 | the vote table after a vote keeps at most one row per (user, target); the user's vote on the target follows `NextVote`; every other user's and target's vote is unchanged |
| `DiscussionViews.CastVoteScore` | discussion/views.py:103-121 | the score moves by the new vote's weight minus the old one's; the vote count moves only on insert or delete, so a switch updates in place; other targets keep score and count; for 1 or -1 a first vote adds v, a repeat takes v away, a switch adds 2v |
| `DiscussionViews.VoteTwiceRestores` | discussion/views.py:110-113 | from no vote, voting twice with the same value gives back exactly the original table, so the score returns to its pre-vote value |
| `DiscussionViews.ThreadVoteLeavesComment` | discussion/models.py:61-63 | the target key includes the content type: a vote on thread n changes neither the score nor the vote count of comment n |
| `DiscussionViews.UpDownDownScenario` | discussion/views.py:103-121 | one user on a thread: upvote scores 1, downvote scores -1, downvote again scores 0 and empties the table |
| `DiscussionViews.InsertDesc` | discussion/views.py:35-43 | inserting into a list sorted by descending key keeps it sorted and adds exactly one row |
| `DiscussionViews.SortDesc` | discussion/views.py:35-43 | an ORDER BY on descending keys returns a permutation of its input, sorted |
| `DiscussionViews.Annotate` | discussion/views.py:24-33 | each thread is annotated with its score, upvotes minus downvotes |
| `DiscussionViews.ThreadList` | discussion/views.py:19-45 | every thread appears exactly once with its score; `top` and `hot` order by score then creation time, both descending; any other sort key orders by creation time descending |
| `DiscussionViews.TopLevelOf` | discussion/views.py:55 | exactly the thread's comments that have no parent, drawn from the comment table |
| `DiscussionViews.TopLevelComments` | discussion/views.py:52-56 | the thread page lists exactly the thread's top-level comments, newest first |
| `DiscussionViews.ContentTypeNamed` | discussion/views.py:93-98 | only `thread` and `comment` name a content type |
| `DiscussionViews.Forum.PostVoteAsWritten` | discussion/views.py:88-108 | the code as written: an unknown content type gets the 400 reply, a known one fails with a server error and writes no vote |
| `DiscussionViews.Forum.PostVote` | discussion/views.py:88-121 | an unknown content type gets the 400 reply and changes nothing; otherwise the table becomes `CastVote` of the old one and the reply is the target's score after the change, or a server error, with the vote kept, when the target does not exist; threads, comments and reports are untouched |
| `DiscussionViews.Forum.PostReport` | discussion/views.py:124-145 | an unknown content type gets the 400 reply and changes nothing; a missing reason fails and appends nothing; otherwise exactly one unresolved report is appended, never deduplicated, whatever the reason's content |
| `DiscussionViews.Forum.PostComment` | discussion/views.py:69-85 | 404 for a missing thread; missing or empty content creates nothing; a missing parent is a 404; otherwise exactly one comment is appended with the next id, and the comment table stays a forest |

## Findings

| source | as written | input that shows it | evidently intended | confidence | as-written member | corrected member |
|---|---|---|---|---|---|---|
| core/views.py:91-97 | the student and `course.teacher` are two objects for the same row when a teacher joins their own course; the teacher's copy is loaded before the student's save and saved last | a teacher with 100 creds requests to join their own 10-cred course: they end with 110 creds and sit in their own course | a teacher cannot join their own course, and a join never creates credits | high (not executed) | `CoreViews.SelfJoinMintsCreds` | `CoreViews.Join` |
| discussion/views.py:104 | the user is read from `request.request.user`; a request has no `request` attribute | any POST with `content_type` set to `thread` or `comment`: the reply is a server error and no vote is recorded | the user is `request.user` | high (not executed) | `DiscussionViews.Forum.PostVoteAsWritten` | `DiscussionViews.Forum.PostVote` |

## Left out

* HTTP and rendering: flash messages, redirects, templates and JSON status codes become outcome values.
* Concurrency and atomicity: concurrent requests, database isolation and the race between get_or_create and a second request are not modelled. Each view runs alone, statement by statement.
* Form parsing: a missing or non-numeric `value` or `object_id` in a POST raises before anything is written. The model takes those fields as integers. A course form is either valid (its three fields) or invalid, without the validation rules.
* Cascades on delete: deleting a course also deletes its time slots and nulls transactions' course links in the database. Neither table is changed by any modelled view, so the model removes only the course.
* Time: `created_at` and `now` are integer parameters. The clock is not modelled.
* The registration, profile and landing views, the thread-creation view, the live-session models and views, the social-login adapter, the LLM client and the setup scripts are framework glue, I/O or external calls, and are not part of this model.
* Free-text profile fields, the category row, `__str__` formatters, `updated_at` stamps and the vote index declaration carry no behaviour.
* `CoreViews.TotalCreds` is a ghost sum over the balance map. The model states conservation of that total, not of a ledger of transaction rows, because the code writes no such rows.
