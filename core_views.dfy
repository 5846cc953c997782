/**
 * The marketplace's view logic (core/views.py): joining a course moves its
 * price from the student to the teacher and enrolls the student; only a
 * course's teacher may edit or delete it; the dashboard splits the courses into
 * those available to a user, those they attend and those they teach.
 *
 * Redirects, flash messages and templates become the outcome values below.
 * Each view runs its statements one after the other with no transaction around
 * them; that sequential behaviour is what is modelled.
 */
module CoreViews {
  import opened Wrappers
  import opened CoreModels

  /** The rows the views read and write: users by id and courses by id. */
  datatype Db = Db(users: map<UserId, User>, courses: map<CourseId, Course>)

  /** Referential integrity: every course's teacher and students are existing users. */
  predicate Consistent(db: Db)
  {
    forall c :: c in db.courses ==>
      db.courses[c].teacher in db.users && db.courses[c].students <= db.users.Keys
  }

  /** No teacher is enrolled as a student of their own course. */
  predicate NoSelfEnrollment(db: Db)
  {
    forall c :: c in db.courses ==> db.courses[c].teacher !in db.courses[c].students
  }

  // ---------------------------------------------------------------------------
  // Total credit supply

  /** The sum of all users' balances. */
  ghost function TotalCreds(users: map<UserId, User>): int
    decreases |users|
  {
    if users == map[] then 0
    else
      var u :| u in users;
      users[u].creds + TotalCreds(users - {u})
  }

  /** Any user's balance can be split off the total, whichever user the definition picked. */
  lemma {:induction false} TotalCredsSplit(users: map<UserId, User>, u: UserId)
    requires u in users
    ensures TotalCreds(users) == users[u].creds + TotalCreds(users - {u})
    decreases |users|
  {
    var w :| w in users && TotalCreds(users) == users[w].creds + TotalCreds(users - {w});
    if w != u {
      assert users - {w} - {u} == users - {u} - {w};
      assert |users - {w}| < |users|;
      TotalCredsSplit(users - {w}, u);
      TotalCredsSplit(users - {u}, w);
    }
  }

  /** Changing one existing user's balance changes the total by exactly the difference. */
  lemma TotalCredsUpdate(users: map<UserId, User>, u: UserId, v: User)
    requires u in users
    ensures TotalCreds(users[u := v]) == TotalCreds(users) - users[u].creds + v.creds
  {
    TotalCredsSplit(users, u);
    TotalCredsSplit(users[u := v], u);
    assert users[u := v] - {u} == users - {u};
  }

  // ---------------------------------------------------------------------------
  // join_course

  datatype JoinOutcome =
    | CourseNotFound     // get_object_or_404 answers 404
    | AlreadyEnrolled    // "You are already in this course."
    | OwnCourse          // the teacher tried to join their own course (rejected by Join only)
    | Joined             // "Successfully joined ..."
    | NotEnoughCreds     // "Not enough Creds to join this course!"

  /**
   * join_course exactly as written. The student is the request's user object;
   * the teacher is a second object loaded from the database when
   * `course.teacher` is first touched, which happens after the student's
   * balance was lowered in memory but before the student row was saved. Both
   * rows are then saved, the teacher last. When the student IS the teacher,
   * the teacher's stale copy overwrites the student's save, so the user ends up
   * with `price` more creds than before.
   */
  function JoinAsWritten(db: Db, student: UserId, cid: CourseId): (r: (Db, JoinOutcome))
    requires Consistent(db) && student in db.users
    ensures Consistent(r.0) && r.0.users.Keys == db.users.Keys && r.0.courses.Keys == db.courses.Keys
    ensures r.1 == CourseNotFound <==> cid !in db.courses
    ensures r.1 == AlreadyEnrolled <==> cid in db.courses && student in db.courses[cid].students
    ensures r.1 == Joined <==>
      cid in db.courses && student !in db.courses[cid].students
      && db.users[student].creds >= db.courses[cid].price
    ensures r.1 != Joined ==> r.0 == db
    ensures r.1 != OwnCourse
    ensures r.1 == Joined ==>
      var c := db.courses[cid];
      && r.0.courses == db.courses[cid := Enroll(c, student)]
      && (forall u :: u in db.users && u != student && u != c.teacher ==> r.0.users[u] == db.users[u])
      && (student != c.teacher ==>
            && r.0.users[student].creds == db.users[student].creds - c.price >= 0
            && r.0.users[c.teacher].creds == db.users[c.teacher].creds + c.price)
      && (student == c.teacher ==>
            r.0.users[student].creds == db.users[student].creds + c.price)
  {
    if cid !in db.courses then (db, CourseNotFound)
    else
      var course := db.courses[cid];
      if student in course.students then (db, AlreadyEnrolled)
      else if db.users[student].creds >= course.price then
        var s := db.users[student].(creds := db.users[student].creds - course.price);
        var t := db.users[course.teacher];
        var t' := t.(creds := t.creds + course.price);
        var users := db.users[student := s][course.teacher := t'];
        (Db(users, db.courses[cid := Enroll(course, student)]), Joined)
      else (db, NotEnoughCreds)
  }

  /**
   * join_course as evidently intended: identical to JoinAsWritten except that a
   * teacher may not join their own course, which the dashboard already never
   * offers. It conserves the total credit supply on every input
   * (JoinConservesCreds).
   */
  function Join(db: Db, student: UserId, cid: CourseId): (r: (Db, JoinOutcome))
    requires Consistent(db) && student in db.users
    ensures Consistent(r.0) && r.0.users.Keys == db.users.Keys && r.0.courses.Keys == db.courses.Keys
    ensures r.1 == CourseNotFound <==> cid !in db.courses
    ensures r.1 == AlreadyEnrolled <==> cid in db.courses && student in db.courses[cid].students
    ensures r.1 == OwnCourse <==>
      cid in db.courses && student !in db.courses[cid].students && db.courses[cid].teacher == student
    ensures r.1 == Joined <==>
      cid in db.courses && student !in db.courses[cid].students && db.courses[cid].teacher != student
      && db.users[student].creds >= db.courses[cid].price
    ensures r.1 != Joined ==> r.0 == db
    ensures r.1 == Joined ==>
      var c := db.courses[cid];
      && r.0.courses == db.courses[cid := Enroll(c, student)]
      && r.0.users[student].creds == db.users[student].creds - c.price >= 0
      && r.0.users[c.teacher].creds == db.users[c.teacher].creds + c.price
      && r.0.users[c.teacher].creds + r.0.users[student].creds
         == db.users[c.teacher].creds + db.users[student].creds
      && forall u :: u in db.users && u != student && u != c.teacher ==> r.0.users[u] == db.users[u]
  {
    if cid in db.courses && student !in db.courses[cid].students && db.courses[cid].teacher == student
    then (db, OwnCourse)
    else JoinAsWritten(db, student, cid)
  }

  /** The two versions of join_course differ only when a teacher joins their own course. */
  lemma JoinAgreesWithWritten(db: Db, student: UserId, cid: CourseId)
    requires Consistent(db) && student in db.users
    requires cid !in db.courses || db.courses[cid].teacher != student
    ensures Join(db, student, cid) == JoinAsWritten(db, student, cid)
  {
  }

  /** A successful join between two different users leaves the sum of all balances unchanged. */
  lemma JoinAsWrittenConservesCreds(db: Db, student: UserId, cid: CourseId)
    requires Consistent(db) && student in db.users
    requires cid in db.courses && db.courses[cid].teacher != student
    ensures TotalCreds(JoinAsWritten(db, student, cid).0.users) == TotalCreds(db.users)
  {
    var c := db.courses[cid];
    if student !in c.students && db.users[student].creds >= c.price {
      var s := db.users[student].(creds := db.users[student].creds - c.price);
      var t' := db.users[c.teacher].(creds := db.users[c.teacher].creds + c.price);
      var afterStudent := db.users[student := s];
      assert JoinAsWritten(db, student, cid).0.users == afterStudent[c.teacher := t'];
      TotalCredsUpdate(db.users, student, s);
      TotalCredsUpdate(afterStudent, c.teacher, t');
    }
  }

  /** A teacher who joins their own course gains the price: credits are created from nothing. */
  lemma SelfJoinMintsCreds(db: Db, teacher: UserId, cid: CourseId)
    requires Consistent(db) && teacher in db.users
    requires cid in db.courses && db.courses[cid].teacher == teacher
    requires teacher !in db.courses[cid].students
    requires db.users[teacher].creds >= db.courses[cid].price
    ensures JoinAsWritten(db, teacher, cid).1 == Joined
    ensures TotalCreds(JoinAsWritten(db, teacher, cid).0.users)
            == TotalCreds(db.users) + db.courses[cid].price
  {
    var c := db.courses[cid];
    var s := db.users[teacher].(creds := db.users[teacher].creds - c.price);
    var t' := db.users[teacher].(creds := db.users[teacher].creds + c.price);
    assert db.users[teacher := s][teacher := t'] == db.users[teacher := t'];
    TotalCredsUpdate(db.users, teacher, t');
  }

  /** A concrete instance: a user with 100 creds joins their own 10-cred course and ends with 110. */
  lemma SelfJoinExample()
    ensures
      var db := Db(map[1 := NewUser(true)], map[7 := NewCourse(1, "t", "d", None, 0)]);
      var r := JoinAsWritten(db, 1, 7);
      r.1 == Joined && r.0.users[1].creds == 110
  {
  }

  /** The intended join never creates or destroys credits, on any input. */
  lemma JoinConservesCreds(db: Db, student: UserId, cid: CourseId)
    requires Consistent(db) && student in db.users
    ensures TotalCreds(Join(db, student, cid).0.users) == TotalCreds(db.users)
  {
    if cid in db.courses && db.courses[cid].teacher != student {
      JoinAsWrittenConservesCreds(db, student, cid);
    }
  }

  /** The intended join keeps teachers out of their own courses' student sets. */
  lemma JoinKeepsNoSelfEnrollment(db: Db, student: UserId, cid: CourseId)
    requires Consistent(db) && student in db.users && NoSelfEnrollment(db)
    ensures NoSelfEnrollment(Join(db, student, cid).0)
  {
  }

  /** The written join breaks that: after a self-join the teacher sits in their own course. */
  lemma JoinAsWrittenBreaksNoSelfEnrollment(db: Db, teacher: UserId, cid: CourseId)
    requires Consistent(db) && teacher in db.users && NoSelfEnrollment(db)
    requires cid in db.courses && db.courses[cid].teacher == teacher
    requires db.users[teacher].creds >= db.courses[cid].price
    ensures !NoSelfEnrollment(JoinAsWritten(db, teacher, cid).0)
  {
    assert JoinAsWritten(db, teacher, cid).0.courses[cid].teacher in JoinAsWritten(db, teacher, cid).0.courses[cid].students;
  }

  // ---------------------------------------------------------------------------
  // dashboard

  datatype Dashboard = Dashboard(available: set<CourseId>, mine: set<CourseId>, teaching: set<CourseId>)

  /**
   * The dashboard's three course lists for `user`: courses neither taught by
   * nor attended by the user, courses the user attends, courses the user teaches.
   */
  function DashboardFor(courses: map<CourseId, Course>, user: UserId): (d: Dashboard)
    ensures d.available + d.mine + d.teaching == courses.Keys
    ensures d.available !! d.mine && d.available !! d.teaching
    ensures forall c :: c in d.available <==>
      c in courses && courses[c].teacher != user && user !in courses[c].students
    ensures forall c :: c in d.mine <==> c in courses && user in courses[c].students
    ensures forall c :: c in d.teaching <==> c in courses && courses[c].teacher == user
  {
    Dashboard(
      set c | c in courses && courses[c].teacher != user && user !in courses[c].students,
      set c | c in courses && user in courses[c].students,
      set c | c in courses && courses[c].teacher == user)
  }

  /** Without self-enrollment the three lists are pairwise disjoint, hence a partition. */
  lemma DashboardPartition(db: Db, user: UserId)
    requires NoSelfEnrollment(db)
    ensures DashboardFor(db.courses, user).mine !! DashboardFor(db.courses, user).teaching
  {
    var d := DashboardFor(db.courses, user);
    forall c | c in d.mine ensures c !in d.teaching {
      assert db.courses[c].teacher !in db.courses[c].students;
    }
  }

  // ---------------------------------------------------------------------------
  // The views as state changes on the database

  datatype HttpMethod = Get | Post

  /** The fields the course form edits. */
  datatype CourseForm = CourseForm(title: string, description: string, price: int)

  datatype EditOutcome =
    | EditNotFound       // 404
    | EditNotAuthorized  // "You are not authorized to edit this course."
    | Updated            // "Course updated successfully!"
    | ShowForm           // the form is rendered (a GET, or a POST whose form is invalid)

  datatype DeleteOutcome =
    | DeleteNotFound       // 404
    | DeleteNotAuthorized  // "You are not authorized to delete this course."
    | Deleted              // "Course deleted successfully!"
    | ConfirmPage          // a GET renders the confirmation page

  datatype CreateOutcome = Created | ShowCreateForm

  /** The marketplace database, whose rows the views change in place. */
  class Marketplace {
    var users: map<UserId, User>
    var courses: map<CourseId, Course>

    function State(): Db
      reads this
    {
      Db(users, courses)
    }

    predicate Valid()
      reads this
    {
      Consistent(State())
    }

    constructor (users: map<UserId, User>)
      ensures Valid() && this.users == users && courses == map[]
    {
      this.users := users;
      this.courses := map[];
    }

    /**
     * join_course for the request's user. The student copy is the request's
     * user object, the teacher copy is loaded separately, each is saved, then
     * the student is added to the course; a teacher is turned away from their
     * own course.
     */
    method JoinCourse(student: UserId, cid: CourseId) returns (outcome: JoinOutcome)
      requires Valid() && student in users
      modifies this
      ensures Valid()
      ensures (State(), outcome) == Join(old(State()), student, cid)
    {
      if cid !in courses {
        return CourseNotFound;
      }
      var course := courses[cid];
      var studentRow := users[student];
      if student in course.students {
        return AlreadyEnrolled;
      }
      if course.teacher == student {
        return OwnCourse;
      }
      if studentRow.creds >= course.price {
        studentRow := studentRow.(creds := studentRow.creds - course.price);
        var teacherRow := users[course.teacher];
        teacherRow := teacherRow.(creds := teacherRow.creds + course.price);
        users := users[student := studentRow];
        users := users[course.teacher := teacherRow];
        courses := courses[cid := course.(students := course.students + {student})];
        outcome := Joined;
        assert users == old(users)[student := old(users)[student].(creds := old(users)[student].creds - course.price)]
                                  [course.teacher := teacherRow];
      } else {
        outcome := NotEnoughCreds;
      }
    }

    /**
     * create_course: a valid form creates a course taught by the request's user,
     * under a fresh id chosen by the database.
     */
    method CreateCourse(user: UserId, verb: HttpMethod, form: Option<CourseForm>,
                        newId: CourseId, now: int) returns (outcome: CreateOutcome)
      requires Valid() && user in users && newId !in courses
      modifies this
      ensures Valid() && users == old(users)
      ensures outcome == Created <==> verb == Post && form.Some?
      ensures outcome == Created ==>
        courses == old(courses)[newId := NewCourse(user, form.value.title, form.value.description,
                                                   Some(form.value.price), now)]
      ensures outcome != Created ==> courses == old(courses)
    {
      if verb == Post && form.Some? {
        var c := NewCourse(user, form.value.title, form.value.description, Some(form.value.price), now);
        courses := courses[newId := c];
        return Created;
      }
      return ShowCreateForm;
    }

    /**
     * edit_course: only the course's teacher may change it; a valid POST
     * replaces the form's fields and keeps teacher, students and the rest.
     */
    method EditCourse(user: UserId, cid: CourseId, verb: HttpMethod, form: Option<CourseForm>)
      returns (outcome: EditOutcome)
      requires Valid()
      modifies this
      ensures Valid() && users == old(users)
      ensures outcome == EditNotFound <==> cid !in old(courses)
      ensures outcome == EditNotAuthorized <==> cid in old(courses) && old(courses)[cid].teacher != user
      ensures outcome == Updated <==>
        cid in old(courses) && old(courses)[cid].teacher == user && verb == Post && form.Some?
      ensures outcome != Updated ==> courses == old(courses)
      ensures outcome == Updated ==>
        courses == old(courses)[cid := old(courses)[cid].(title := form.value.title,
                                                          description := form.value.description,
                                                          price := form.value.price)]
    {
      if cid !in courses {
        return EditNotFound;
      }
      var course := courses[cid];
      if user != course.teacher {
        return EditNotAuthorized;
      }
      if verb == Post && form.Some? {
        var f := form.value;
        courses := courses[cid := course.(title := f.title, description := f.description, price := f.price)];
        return Updated;
      }
      return ShowForm;
    }

    /**
     * delete_course: only the course's teacher may delete it, and only with a
     * POST; a GET by the teacher shows a confirmation page.
     */
    method DeleteCourse(user: UserId, cid: CourseId, verb: HttpMethod)
      returns (outcome: DeleteOutcome)
      requires Valid()
      modifies this
      ensures Valid() && users == old(users)
      ensures outcome == DeleteNotFound <==> cid !in old(courses)
      ensures outcome == DeleteNotAuthorized <==> cid in old(courses) && old(courses)[cid].teacher != user
      ensures outcome == Deleted <==>
        cid in old(courses) && old(courses)[cid].teacher == user && verb == Post
      ensures outcome == Deleted ==> courses == old(courses) - {cid}
      ensures outcome != Deleted ==> courses == old(courses)
    {
      if cid !in courses {
        return DeleteNotFound;
      }
      if user != courses[cid].teacher {
        return DeleteNotAuthorized;
      }
      if verb == Post {
        courses := courses - {cid};
        return Deleted;
      }
      return ConfirmPage;
    }
  }
}
