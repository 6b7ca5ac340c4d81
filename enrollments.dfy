/** The enrollment manager: creating, listing, updating and cancelling enrollments of
    students in plans, so that no student holds two active enrollments for overlapping
    periods. */
module Enrollments {
  import opened Http
  import opened Tables
  import opened Dates
  import Students

  /** A plan of the catalogue: its length in months and its monthly price (in cents). */
  datatype Plan = Plan(title: string, length: nat, price: int)

  /** An enrollment row. `canceledAt` is None while the enrollment is active. */
  datatype Enrollment = Enrollment(id: int, studentId: int, planId: int, start: int, end: int,
                                   price: int, canceledAt: Option<int>)
  {
    predicate Active()
    {
      canceledAt.None?
    }
  }

  /** The body of a create or update request; `startDate` is the timestamp the sent date parses to. */
  datatype Request = Request(studentId: Field<int>, planId: Field<int>, startDate: Field<int>)

  /** The columns create and update compute from a request. */
  datatype Terms = Terms(studentId: int, planId: int, start: int, end: int, price: int)

  /** A successful update: the position of the row and its new value. */
  datatype Revision = Revision(index: nat, record: Enrollment)

  /** The payload of the confirmation e-mail job queued after a create (with timestamps
      in place of the formatted dates). */
  datatype Mail = Mail(studentName: string, studentEmail: string, planTitle: string, planLength: nat,
                       planPrice: int, start: int, end: int, price: int)

  const StudentNotFound := "Aluno não encontrado"
  const PlanNotFound := "Plano não encontrado"
  const EnrollmentNotFound := "Matrícula não encontrada"
  const DateInPast := "Data já passou"
  const AlreadyEnrolled := "Aluno já tem matrícula ativa para essa data"
  const AlreadyCanceled := "Esta matrícula já foi cancelada"
  const NoEnrollments := "Nenhuma matrícula encontrada"

  // ---------------------------------------------------------------------------
  // Derived columns and the overlap query

  /** Start at the end of the chosen day, end `plan.length` months later, price for the whole plan. */
  function Derive(cal: Calendar, studentId: int, planId: int, plan: Plan, date: int): (t: Terms)
    ensures Forward(cal) ==> t.start <= t.end
  {
    var start := cal.endOfDay(date);
    Terms(studentId, planId, start, cal.addMonths(start, plan.length), plan.price * plan.length)
  }

  /** The row `Enrollment.create` inserts, with the id the data store assigns. */
  function Record(id: int, t: Terms): Enrollment
  {
    Enrollment(id, t.studentId, t.planId, t.start, t.end, t.price, None)
  }

  /** The row after `enrollment.update`: the computed columns change, id and cancellation stay. */
  function Apply(e: Enrollment, t: Terms): Enrollment
  {
    e.(studentId := t.studentId, planId := t.planId, start := t.start, end := t.end, price := t.price)
  }

  /** The overlap query: an active row of the same student that starts no later than the
      new end and ends strictly after the new start. */
  predicate Conflicts(x: Enrollment, studentId: int, start: int, end: int)
  {
    x.studentId == studentId && x.Active() && x.start <= end && x.end > start
  }

  /** `Enrollment.findOne` with the overlap query finds a row (skipping id `exclude` when given). */
  predicate ConflictFound(table: seq<Enrollment>, t: Terms, exclude: Option<int>)
  {
    Find(table, (x: Enrollment) => (exclude.None? || x.id != exclude.value) && Conflicts(x, t.studentId, t.start, t.end)).Some?
  }

  /** `Enrollment.findByPk(id)`. */
  function IndexOf(table: seq<Enrollment>, id: int): Option<nat>
  {
    Find(table, (x: Enrollment) => x.id == id)
  }

  // ---------------------------------------------------------------------------
  // The table invariant

  /** Two periods that do not share an instant of their half-open ranges [start, end). */
  predicate Separated(a: Enrollment, b: Enrollment)
  {
    a.end <= b.start || b.end <= a.start
  }

  /** The active enrollments of any one student cover pairwise separated periods. */
  ghost predicate ActiveDisjoint(table: seq<Enrollment>)
  {
    forall i, j :: 0 <= i < |table| && 0 <= j < |table| && i != j
      && table[i].Active() && table[j].Active() && table[i].studentId == table[j].studentId
      ==> Separated(table[i], table[j])
  }

  /** Every period is well-formed, ids are increasing and below `nextId`, and active periods
      of a student are separated. */
  ghost predicate Consistent(table: seq<Enrollment>, nextId: int)
  {
    && (forall i :: 0 <= i < |table| ==> table[i].start <= table[i].end && table[i].id < nextId)
    && IdsIncreasing(table)
    && ActiveDisjoint(table)
  }

  /** Ids grow along the table, so no two rows share one (the primary key). */
  ghost predicate IdsIncreasing(table: seq<Enrollment>)
  {
    forall i, j :: 0 <= i < j < |table| ==> table[i].id < table[j].id
  }

  // ---------------------------------------------------------------------------
  // What create, update and cancel decide

  predicate StoreSchema(req: Request)
  {
    !req.studentId.Invalid? && !req.planId.Invalid? && !req.startDate.Invalid?
  }

  predicate UpdateSchema(req: Request)
  {
    req.studentId.Present? && req.planId.Present? && req.startDate.Present?
  }

  /** The answer of `store`: the computed columns, or the first check that fails. */
  function StoreOutcome(table: seq<Enrollment>, students: map<int, Students.Student>, plans: map<int, Plan>,
                        cal: Calendar, req: Request, now: int): (r: Response<Terms>)
    ensures r.Ok? ==>
      && StoreSchema(req)
      && req.studentId == Present(r.body.studentId) && r.body.studentId in students
      && req.planId == Present(r.body.planId) && r.body.planId in plans
      && req.startDate.Present? && r.body.start == cal.endOfDay(req.startDate.value)
      && now <= r.body.start
      && r.body.end == cal.addMonths(r.body.start, plans[r.body.planId].length)
      && r.body.price == plans[r.body.planId].price * plans[r.body.planId].length
      && forall i :: 0 <= i < |table| ==> !Conflicts(table[i], r.body.studentId, r.body.start, r.body.end)
  {
    if !StoreSchema(req) then Error(400, "error", ValidationFailed)
    else if req.studentId.Absent? || req.studentId.value !in students then Error(401, "message", StudentNotFound)
    else if req.planId.Absent? || req.planId.value !in plans then Error(401, "message", PlanNotFound)
    else if req.startDate.Absent? then Aborted
    else
      var t := Derive(cal, req.studentId.value, req.planId.value, plans[req.planId.value], req.startDate.value);
      if t.start < now then Error(400, "error", DateInPast)
      else if ConflictFound(table, t, None) then Error(401, "message", AlreadyEnrolled)
      else Ok(t)
  }

  /** The answer of `update` for the row with id `enrollId`. */
  function UpdateOutcome(table: seq<Enrollment>, students: map<int, Students.Student>, plans: map<int, Plan>,
                         cal: Calendar, enrollId: int, req: Request, now: int): (r: Response<Revision>)
    ensures !r.Aborted?
    ensures r.Ok? ==>
      && UpdateSchema(req)
      && r.body.index < |table| && table[r.body.index].id == enrollId
      && var e, was := r.body.record, table[r.body.index];
      && e.id == was.id && e.canceledAt == was.canceledAt
      && e.studentId == req.studentId.value && e.studentId in students
      && e.planId == req.planId.value && e.planId in plans
      && e.start == cal.endOfDay(req.startDate.value) && now <= e.start
      && e.end == cal.addMonths(e.start, plans[e.planId].length)
      && e.price == plans[e.planId].price * plans[e.planId].length
      && forall i :: 0 <= i < |table| && table[i].id != enrollId ==> !Conflicts(table[i], e.studentId, e.start, e.end)
  {
    if !UpdateSchema(req) then Error(400, "error", ValidationFailed)
    else match IndexOf(table, enrollId)
      case None => Error(401, "error", EnrollmentNotFound)
      case Some(k) =>
        if req.studentId.value !in students then Error(401, "message", StudentNotFound)
        else if req.planId.value !in plans then Error(401, "message", PlanNotFound)
        else
          var t := Derive(cal, req.studentId.value, req.planId.value, plans[req.planId.value], req.startDate.value);
          if t.start < now then Error(400, "error", DateInPast)
          else if ConflictFound(table, t, Some(enrollId)) then Error(401, "message", AlreadyEnrolled)
          else Ok(Revision(k, Apply(table[k], t)))
  }

  /** The answer of `delete`: the position of the row to cancel. */
  function CancelOutcome(table: seq<Enrollment>, enrollId: int): (r: Response<nat>)
    ensures IdsIncreasing(table) ==>
              (r.Ok? <==> exists i :: 0 <= i < |table| && table[i].id == enrollId && table[i].Active())
    ensures r.Error? && r.status == 400 ==>
              exists i :: 0 <= i < |table| && table[i].id == enrollId && !table[i].Active()
    ensures IdsIncreasing(table) && (exists i :: 0 <= i < |table| && table[i].id == enrollId && !table[i].Active()) ==>
              r == Error(400, "error", AlreadyCanceled)
    ensures r.Ok? ==> r.body < |table| && table[r.body].id == enrollId && table[r.body].Active()
    ensures (forall i :: 0 <= i < |table| ==> table[i].id != enrollId) <==> r == Error(401, "error", EnrollmentNotFound)
  {
    match IndexOf(table, enrollId)
    case None => Error(401, "error", EnrollmentNotFound)
    case Some(k) =>
      if !table[k].Active() then Error(400, "error", AlreadyCanceled)
      else Ok(k)
  }

  /** The checks run in a fixed order: once one fails, the inputs that only later checks
      consult (the other tables, the calendar, the clock) do not change the answer. */
  lemma StoreErrorPrecedence(table: seq<Enrollment>, students: map<int, Students.Student>, plans: map<int, Plan>,
                             cal: Calendar, req: Request, now: int,
                             table': seq<Enrollment>, students': map<int, Students.Student>,
                             plans': map<int, Plan>, cal': Calendar, now': int)
    ensures !StoreSchema(req) ==>
              StoreOutcome(table, students, plans, cal, req, now) == Error(400, "error", ValidationFailed)
              == StoreOutcome(table', students', plans', cal', req, now')
    ensures StoreSchema(req) && (req.studentId.Absent? || req.studentId.value !in students) ==>
              StoreOutcome(table, students, plans, cal, req, now) == Error(401, "message", StudentNotFound)
              == StoreOutcome(table', students, plans', cal', req, now')
    ensures StoreSchema(req) && req.studentId.Present? && req.studentId.value in students
            && (req.planId.Absent? || req.planId.value !in plans) ==>
              StoreOutcome(table, students, plans, cal, req, now) == Error(401, "message", PlanNotFound)
              == StoreOutcome(table', students, plans, cal', req, now')
    ensures StoreSchema(req) && req.studentId.Present? && req.studentId.value in students
            && req.planId.Present? && req.planId.value in plans && req.startDate.Absent? ==>
              StoreOutcome(table, students, plans, cal, req, now) == Aborted
    ensures StoreOutcome(table, students, plans, cal, req, now) == Error(400, "error", DateInPast) ==>
              StoreOutcome(table', students, plans, cal, req, now) == Error(400, "error", DateInPast)
    ensures StoreSchema(req) && req.studentId.Present? && req.studentId.value in students
            && req.planId.Present? && req.planId.value in plans && req.startDate.Present? ==>
              var t := Derive(cal, req.studentId.value, req.planId.value, plans[req.planId.value], req.startDate.value);
              (t.start < now ==> StoreOutcome(table, students, plans, cal, req, now) == Error(400, "error", DateInPast))
              && (now <= t.start && (exists i :: 0 <= i < |table| && Conflicts(table[i], t.studentId, t.start, t.end)) ==>
                    StoreOutcome(table, students, plans, cal, req, now) == Error(401, "message", AlreadyEnrolled))
              && (now <= t.start && (forall i :: 0 <= i < |table| ==> !Conflicts(table[i], t.studentId, t.start, t.end)) ==>
                    StoreOutcome(table, students, plans, cal, req, now) == Ok(t))
  {
  }

  /** Update runs the same checks as create, with the lookup of the row itself after
      validation, and its overlap query skips only rows with the updated id. */
  lemma UpdateErrorPrecedence(table: seq<Enrollment>, students: map<int, Students.Student>, plans: map<int, Plan>,
                              cal: Calendar, enrollId: int, req: Request, now: int)
    ensures !UpdateSchema(req) ==>
              UpdateOutcome(table, students, plans, cal, enrollId, req, now) == Error(400, "error", ValidationFailed)
    ensures UpdateSchema(req) && IndexOf(table, enrollId).None? ==>
              UpdateOutcome(table, students, plans, cal, enrollId, req, now) == Error(401, "error", EnrollmentNotFound)
    ensures UpdateSchema(req) && IndexOf(table, enrollId).Some? && req.studentId.value !in students ==>
              UpdateOutcome(table, students, plans, cal, enrollId, req, now) == Error(401, "message", StudentNotFound)
    ensures UpdateSchema(req) && IndexOf(table, enrollId).Some? && req.studentId.value in students
            && req.planId.value !in plans ==>
              UpdateOutcome(table, students, plans, cal, enrollId, req, now) == Error(401, "message", PlanNotFound)
    ensures UpdateSchema(req) && IndexOf(table, enrollId).Some? && req.studentId.value in students
            && req.planId.value in plans ==>
              var t := Derive(cal, req.studentId.value, req.planId.value, plans[req.planId.value], req.startDate.value);
              (t.start < now ==> UpdateOutcome(table, students, plans, cal, enrollId, req, now) == Error(400, "error", DateInPast))
              && (now <= t.start
                  && (exists i :: 0 <= i < |table| && table[i].id != enrollId && Conflicts(table[i], t.studentId, t.start, t.end)) ==>
                    UpdateOutcome(table, students, plans, cal, enrollId, req, now) == Error(401, "message", AlreadyEnrolled))
              && (now <= t.start
                  && (forall i :: 0 <= i < |table| && table[i].id != enrollId ==> !Conflicts(table[i], t.studentId, t.start, t.end)) ==>
                    var k := IndexOf(table, enrollId).value;
                    UpdateOutcome(table, students, plans, cal, enrollId, req, now) == Ok(Revision(k, Apply(table[k], t))))
  {
  }

  // ---------------------------------------------------------------------------
  // What the overlap query means

  /** Instant `t` lies in the half-open period [x.start, x.end). */
  predicate Covers(x: Enrollment, t: int)
  {
    x.start <= t < x.end
  }

  /** For a non-empty existing period, the query treats it as half-open [start, end) and the
      new one as closed [start, end]: it fires exactly when the two share an instant. A
      zero-length existing period covers no instant, yet still conflicts whenever its single
      point lies after the new start and no later than the new end. */
  lemma ConflictMeansSharedInstant(x: Enrollment, studentId: int, start: int, end: int)
    requires x.start <= x.end && start <= end
    ensures x.start < x.end ==>
              (Conflicts(x, studentId, start, end) <==>
                 x.studentId == studentId && x.Active() && exists t :: Covers(x, t) && start <= t <= end)
    ensures x.start == x.end ==>
              (Conflicts(x, studentId, start, end) <==>
                 x.studentId == studentId && x.Active() && start < x.start <= end)
  {
    if x.start < x.end && Conflicts(x, studentId, start, end) {
      var t := if x.start < start then start else x.start;
      assert Covers(x, t) && start <= t <= end;
    }
  }

  /** An active period ending exactly when the new one starts is no conflict; one starting
      exactly when the new one ends is. */
  lemma ConflictBoundaries(x: Enrollment, studentId: int, start: int, end: int)
    requires x.studentId == studentId && x.Active() && x.start < x.end && start <= end
    ensures x.end == start ==> !Conflicts(x, studentId, start, end)
    ensures x.start == end ==> Conflicts(x, studentId, start, end)
  {
  }

  /** Separated non-empty periods share no instant, and conversely. */
  lemma SeparatedMeansDisjoint(a: Enrollment, b: Enrollment)
    requires a.start < a.end && b.start < b.end
    ensures Separated(a, b) <==> !exists t :: Covers(a, t) && Covers(b, t)
  {
    if !Separated(a, b) {
      var t := if a.start < b.start then b.start else a.start;
      assert Covers(a, t) && Covers(b, t);
    }
  }

  /** A row the query lets through is separated from the new period. */
  lemma NoConflictSeparates(x: Enrollment, e: Enrollment)
    requires x.studentId == e.studentId && x.Active()
    requires !Conflicts(x, e.studentId, e.start, e.end)
    ensures Separated(x, e) && Separated(e, x)
  {
  }

  // ---------------------------------------------------------------------------
  // Create, update and cancel keep the invariant

  lemma StoreKeepsConsistent(table: seq<Enrollment>, students: map<int, Students.Student>, plans: map<int, Plan>,
                             cal: Calendar, req: Request, now: int, nextId: int)
    requires Forward(cal) && Consistent(table, nextId)
    requires StoreOutcome(table, students, plans, cal, req, now).Ok?
    ensures Consistent(table + [Record(nextId, StoreOutcome(table, students, plans, cal, req, now).body)], nextId + 1)
  {
  }

  lemma UpdateKeepsConsistent(table: seq<Enrollment>, students: map<int, Students.Student>, plans: map<int, Plan>,
                              cal: Calendar, enrollId: int, req: Request, now: int, nextId: int)
    requires Forward(cal) && Consistent(table, nextId)
    requires UpdateOutcome(table, students, plans, cal, enrollId, req, now).Ok?
    ensures var v := UpdateOutcome(table, students, plans, cal, enrollId, req, now).body;
            Consistent(table[v.index := v.record], nextId)
  {
  }

  lemma CancelKeepsConsistent(table: seq<Enrollment>, enrollId: int, now: int, nextId: int)
    requires Consistent(table, nextId)
    requires CancelOutcome(table, enrollId).Ok?
    ensures var k := CancelOutcome(table, enrollId).body;
            Consistent(table[k := table[k].(canceledAt := Some(now))], nextId)
  {
  }

  // ---------------------------------------------------------------------------
  // The manager

  /** The confirmation e-mail for a new enrollment of `student` in `plan`. */
  function Notice(student: Students.Student, plan: Plan, t: Terms): Mail
  {
    Mail(student.name, student.email, plan.title, plan.length, plan.price, t.start, t.end, t.price)
  }

  class EnrollmentManager {
    /** The student and plan rows the manager looks up; it never changes them. */
    const students: map<int, Students.Student>
    const plans: map<int, Plan>
    const cal: Calendar
    var table: seq<Enrollment>
    var nextId: int
    /** The confirmation e-mail jobs handed to the queue, oldest first. */
    var outbox: seq<Mail>

    ghost predicate Valid()
      reads this
    {
      Forward(cal) && Consistent(table, nextId)
    }

    constructor (students: map<int, Students.Student>, plans: map<int, Plan>, cal: Calendar)
      requires Forward(cal)
      ensures Valid()
      ensures this.students == students && this.plans == plans && this.cal == cal
      ensures table == [] && outbox == [] && nextId == 1
    {
      this.students := students;
      this.plans := plans;
      this.cal := cal;
      table := [];
      nextId := 1;
      outbox := [];
    }

    /** `GET /enrollments`: the whole table, but an empty table is answered as an error. */
    function Index(): (r: Response<seq<Enrollment>>)
      reads this
      ensures r.Ok? <==> table != []
      ensures r.Ok? ==> r.body == table
      ensures !r.Ok? ==> r == Error(400, "error", NoEnrollments)
    {
      if |table| == 0 then Error(400, "error", NoEnrollments) else Ok(table)
    }

    /** `POST /enrollments`. */
    method Store(req: Request, now: int) returns (r: Response<Enrollment>)
      requires Valid()
      modifies this
      ensures Valid()
      ensures var d := StoreOutcome(old(table), students, plans, cal, req, now);
              if d.Ok? then
                && r == Ok(Record(old(nextId), d.body))
                && table == old(table) + [r.body]
                && nextId == old(nextId) + 1
                && outbox == old(outbox) + [Notice(students[d.body.studentId], plans[d.body.planId], d.body)]
              else
                r == d.Relay() && table == old(table) && nextId == old(nextId) && outbox == old(outbox)
    {
      if !StoreSchema(req) {
        return Error(400, "error", ValidationFailed);
      }
      if req.studentId.Absent? || req.studentId.value !in students {
        return Error(401, "message", StudentNotFound);
      }
      var student := students[req.studentId.value];
      if req.planId.Absent? || req.planId.value !in plans {
        return Error(401, "message", PlanNotFound);
      }
      var plan := plans[req.planId.value];
      if req.startDate.Absent? {
        return Aborted;
      }
      var terms := Derive(cal, req.studentId.value, req.planId.value, plan, req.startDate.value);
      if terms.start < now {
        return Error(400, "error", DateInPast);
      }
      if ConflictFound(table, terms, None) {
        return Error(401, "message", AlreadyEnrolled);
      }
      var e := Record(nextId, terms);
      StoreKeepsConsistent(table, students, plans, cal, req, now, nextId);
      table := table + [e];
      nextId := nextId + 1;
      outbox := outbox + [Notice(student, plan, terms)];
      return Ok(e);
    }

    /** `PUT /enrollments/:enrollId`. */
    method Update(enrollId: int, req: Request, now: int) returns (r: Response<Enrollment>)
      requires Valid()
      modifies this
      ensures Valid()
      ensures var d := UpdateOutcome(old(table), students, plans, cal, enrollId, req, now);
              if d.Ok? then r == Ok(d.body.record) && table == old(table)[d.body.index := d.body.record]
              else r == d.Relay() && table == old(table)
      ensures nextId == old(nextId) && outbox == old(outbox)
    {
      if !UpdateSchema(req) {
        return Error(400, "error", ValidationFailed);
      }
      var k := IndexOf(table, enrollId);
      if k.None? {
        return Error(401, "error", EnrollmentNotFound);
      }
      if req.studentId.value !in students {
        return Error(401, "message", StudentNotFound);
      }
      if req.planId.value !in plans {
        return Error(401, "message", PlanNotFound);
      }
      var terms := Derive(cal, req.studentId.value, req.planId.value, plans[req.planId.value], req.startDate.value);
      if terms.start < now {
        return Error(400, "error", DateInPast);
      }
      if ConflictFound(table, terms, Some(enrollId)) {
        return Error(401, "message", AlreadyEnrolled);
      }
      var e := Apply(table[k.value], terms);
      UpdateKeepsConsistent(table, students, plans, cal, enrollId, req, now, nextId);
      table := table[k.value := e];
      return Ok(e);
    }

    /** `DELETE /enrollments/:enrollId`: a soft cancel that stamps the row with `now`. */
    method Delete(enrollId: int, now: int) returns (r: Response<string>)
      requires Valid()
      modifies this
      ensures Valid()
      ensures var d := CancelOutcome(old(table), enrollId);
              if d.Ok? then
                && r == Ok("Matrícula cancelada")
                && table == old(table)[d.body := old(table)[d.body].(canceledAt := Some(now))]
              else r == d.Relay() && table == old(table)
      ensures nextId == old(nextId) && outbox == old(outbox)
    {
      var k := IndexOf(table, enrollId);
      if k.None? {
        return Error(401, "error", EnrollmentNotFound);
      }
      if !table[k.value].Active() {
        return Error(400, "error", AlreadyCanceled);
      }
      CancelKeepsConsistent(table, enrollId, now, nextId);
      table := table[k.value := table[k.value].(canceledAt := Some(now))];
      return Ok("Matrícula cancelada");
    }
  }
}
