/**
 * The records of the course marketplace (core/models.py): users with a credit
 * balance, courses with a teacher, a price and a set of enrolled students,
 * transactions, time slots and skills, each with the defaults a new row gets.
 * Free-text profile fields, the category row and the `__str__` formatters are
 * not part of this model.
 */
module CoreModels {
  import opened Wrappers

  type UserId = nat
  type CourseId = nat

  /** Every new user starts with this many creds. */
  const InitialCreds: int := 100
  /** The price of a course created without an explicit price. */
  const DefaultPrice: int := 10

  datatype User = User(isTeacher: bool, creds: int)

  /** A freshly registered user. */
  function NewUser(isTeacher: bool): (u: User)
    ensures u.creds == InitialCreds == 100
    ensures u.isTeacher == isTeacher
  {
    User(isTeacher, InitialCreds)
  }

  /** A course row. `students` is a many-to-many relation, hence a set. */
  datatype Course = Course(
    teacher: UserId,
    category: Option<nat>,
    title: string,
    description: string,
    price: int,
    students: set<UserId>,
    createdAt: int)

  /** A freshly created course: no students yet, price 10 unless one is given. */
  function NewCourse(teacher: UserId, title: string, description: string,
                     price: Option<int>, createdAt: int): (c: Course)
    ensures c.teacher == teacher && c.title == title && c.description == description
    ensures price.None? ==> c.price == DefaultPrice == 10
    ensures price.Some? ==> c.price == price.value
    ensures c.students == {} && c.category == None && c.createdAt == createdAt
  {
    var p := match price case Some(v) => v case None => DefaultPrice;
    Course(teacher, None, title, description, p, {}, createdAt)
  }

  /**
   * Adding a student to the many-to-many relation: adding someone who is already
   * enrolled changes nothing, anyone else grows the set by exactly one.
   */
  function Enroll(c: Course, student: UserId): (r: Course)
    ensures student in r.students
    ensures forall u :: u in r.students <==> u in c.students || u == student
    ensures student in c.students ==> r == c
    ensures |r.students| == |c.students| + (if student in c.students then 0 else 1)
    ensures r.(students := c.students) == c
  {
    c.(students := c.students + {student})
  }

  /**
   * A ledger row. The amount is signed: positive is creds earned, negative is
   * creds spent. No operation of the marketplace ever creates one.
   */
  datatype Transaction = Transaction(
    user: UserId,
    amount: int,
    description: string,
    timestamp: int,
    course: Option<CourseId>)

  /** What a transaction row earned, read off its signed amount. */
  function Earned(t: Transaction): (e: nat)
    ensures e > 0 <==> t.amount > 0
    ensures t.amount >= 0 ==> e == t.amount
  {
    if t.amount > 0 then t.amount else 0
  }

  /** What a transaction row spent, read off its signed amount. */
  function Spent(t: Transaction): (s: nat)
    ensures s > 0 <==> t.amount < 0
    ensures t.amount <= 0 ==> s == -t.amount
  {
    if t.amount < 0 then -t.amount else 0
  }

  /** The sign convention: a row either earns or spends, and the difference is its amount. */
  lemma SignConvention(t: Transaction)
    ensures Earned(t) - Spent(t) == t.amount
    ensures Earned(t) == 0 || Spent(t) == 0
  {
  }

  datatype TimeSlot = TimeSlot(
    course: CourseId,
    startTime: int,
    endTime: int,
    isBooked: bool,
    bookedBy: Option<UserId>)

  /** A freshly created time slot is free and has no booker. */
  function NewTimeSlot(course: CourseId, startTime: int, endTime: int): (s: TimeSlot)
    ensures !s.isBooked && s.bookedBy == None
    ensures s.course == course && s.startTime == startTime && s.endTime == endTime
  {
    TimeSlot(course, startTime, endTime, false, None)
  }

  datatype Skill = Skill(user: UserId, name: string, isVerified: bool)

  /** A freshly added skill is unverified. */
  function NewSkill(user: UserId, name: string): (s: Skill)
    ensures !s.isVerified && s.user == user && s.name == name
  {
    Skill(user, name, false)
  }
}
