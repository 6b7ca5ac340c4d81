/** The student directory: creating, listing page by page and updating student rows,
    with e-mail addresses kept unique across the table. */
module Students {
  import opened Http
  import opened Tables

  /** A student row; its six columns are exactly what create and update answer with. */
  datatype Student = Student(id: int, name: string, email: string, age: int, weight: int, height: int)

  /** The body of a create or update request. */
  datatype Request = Request(name: Field<string>, email: Field<string>, age: Field<int>,
                             weight: Field<int>, height: Field<int>)

  /** A successful update: the position of the row and its new value. */
  datatype Revision = Revision(index: nat, record: Student)

  /** Rows per page of the listing. */
  const PageSize: nat := 20

  const EmailInUse := "Email já cadastrado"

  // ---------------------------------------------------------------------------
  // Schemas

  /** Create: every field is required, a required string must not be empty, and the
      email must be well-formed. */
  predicate StoreSchema(req: Request, isEmail: string -> bool)
  {
    && req.name.Present? && req.name.value != ""
    && req.email.Present? && req.email.value != "" && isEmail(req.email.value)
    && req.age.Present? && req.weight.Present? && req.height.Present?
  }

  /** Update: every field is optional, but a field that is sent must be well-typed and a
      sent email well-formed. */
  predicate UpdateSchema(req: Request, isEmail: string -> bool)
  {
    && !req.name.Invalid? && !req.email.Invalid? && !req.age.Invalid?
    && !req.weight.Invalid? && !req.height.Invalid?
    && (req.email.Present? ==> isEmail(req.email.value))
  }

  // ---------------------------------------------------------------------------
  // Table invariant and lookups

  /** No two rows share an email address. */
  ghost predicate UniqueEmails(table: seq<Student>)
  {
    forall i, j :: 0 <= i < |table| && 0 <= j < |table| && i != j ==> table[i].email != table[j].email
  }

  /** Ids are handed out in increasing order and are all below the next one to hand out. */
  ghost predicate IdsBelow(table: seq<Student>, nextId: int)
  {
    && (forall i :: 0 <= i < |table| ==> table[i].id < nextId)
    && IdsIncreasing(table)
  }

  /** Ids grow along the table, so no two rows share one (the primary key). */
  ghost predicate IdsIncreasing(table: seq<Student>)
  {
    forall i, j :: 0 <= i < j < |table| ==> table[i].id < table[j].id
  }

  /** `Student.findByPk(id)`. */
  function IndexOf(table: seq<Student>, id: int): Option<nat>
  {
    Find(table, (s: Student) => s.id == id)
  }

  /** `Student.findOne({ where: { email } })` finds a row. */
  predicate EmailTaken(table: seq<Student>, email: string)
  {
    Find(table, (s: Student) => s.email == email).Some?
  }

  /** The row after `student.update(body)`: every sent field overwrites its column. */
  function Patch(s: Student, req: Request): Student
  {
    Student(s.id, req.name.GetOr(s.name), req.email.GetOr(s.email),
            req.age.GetOr(s.age), req.weight.GetOr(s.weight), req.height.GetOr(s.height))
  }

  // ---------------------------------------------------------------------------
  // What create and update decide

  /** The answer of `store` on `table`, where `id` is the id the data store assigns next. */
  function StoreOutcome(table: seq<Student>, isEmail: string -> bool, id: int, req: Request): (r: Response<Student>)
    ensures r.Ok? <==> StoreSchema(req, isEmail) && forall i :: 0 <= i < |table| ==> table[i].email != req.email.value
    ensures r.Ok? ==> r.body == Student(id, req.name.value, req.email.value, req.age.value, req.weight.value, req.height.value)
    ensures !StoreSchema(req, isEmail) ==> r == Error(400, "error", ValidationFailed)
    ensures StoreSchema(req, isEmail) && !r.Ok? ==> r == Error(400, "error", EmailInUse)
  {
    if !StoreSchema(req, isEmail) then Error(400, "error", ValidationFailed)
    else if EmailTaken(table, req.email.value) then Error(400, "error", EmailInUse)
    else Ok(Student(id, req.name.value, req.email.value, req.age.value, req.weight.value, req.height.value))
  }

  /** The answer of `update` for the row with id `studentId`. */
  function UpdateOutcome(table: seq<Student>, isEmail: string -> bool, studentId: int, req: Request): (r: Response<Revision>)
    ensures !r.Aborted?
    ensures !UpdateSchema(req, isEmail) ==> r == Error(400, "error", ValidationFailed)
    ensures UpdateSchema(req, isEmail) && (forall i :: 0 <= i < |table| ==> table[i].id != studentId) ==>
              r == Error(401, "error", "Estudante não encontrado")
    ensures r.Ok? ==> UpdateSchema(req, isEmail) && r.body.index < |table| && table[r.body.index].id == studentId
    ensures r.Ok? ==> r.body.record == Patch(table[r.body.index], req)
    ensures r.Ok? ==> r.body.record.email == table[r.body.index].email
                      || forall i :: 0 <= i < |table| ==> table[i].email != r.body.record.email
    ensures forall k :: IdsIncreasing(table) && UpdateSchema(req, isEmail) && 0 <= k < |table| && table[k].id == studentId ==>
              && (r == Error(401, "error", EmailInUse) <==>
                    req.email.Present? && req.email.value != table[k].email
                    && exists i :: 0 <= i < |table| && table[i].email == req.email.value)
              && (r.Ok? || r == Error(401, "error", EmailInUse))
              && (r.Ok? ==> r == Ok(Revision(k, Patch(table[k], req))))
    ensures r.Error? && r.status == 401 && r.message == EmailInUse ==>
              req.email.Present? && exists i :: 0 <= i < |table| && table[i].email == req.email.value
  {
    if !UpdateSchema(req, isEmail) then Error(400, "error", ValidationFailed)
    else match IndexOf(table, studentId)
      case None => Error(401, "error", "Estudante não encontrado")
      case Some(k) =>
        if req.email.Present? && req.email.value != table[k].email && EmailTaken(table, req.email.value)
        then Error(401, "error", EmailInUse)
        else Ok(Revision(k, Patch(table[k], req)))
  }

  /** A successful create keeps emails unique and ids increasing. */
  lemma StoreKeepsInvariant(table: seq<Student>, isEmail: string -> bool, nextId: int, req: Request)
    requires UniqueEmails(table) && IdsBelow(table, nextId)
    requires StoreOutcome(table, isEmail, nextId, req).Ok?
    ensures var t' := table + [StoreOutcome(table, isEmail, nextId, req).body];
            UniqueEmails(t') && IdsBelow(t', nextId + 1)
  {
  }

  /** A successful update keeps emails unique and ids unchanged. */
  lemma UpdateKeepsInvariant(table: seq<Student>, isEmail: string -> bool, studentId: int, req: Request, nextId: int)
    requires UniqueEmails(table) && IdsBelow(table, nextId)
    requires UpdateOutcome(table, isEmail, studentId, req).Ok?
    ensures var v := UpdateOutcome(table, isEmail, studentId, req).body;
            var t' := table[v.index := v.record];
            UniqueEmails(t') && IdsBelow(t', nextId)
  {
  }

  // ---------------------------------------------------------------------------
  // Listing: ordering by name, case-insensitive search, pagination

  /** Ascending order of names, character by character. */
  predicate NameLeq(a: string, b: string)
  {
    if a == [] then true
    else if b == [] then false
    else if a[0] != b[0] then a[0] < b[0]
    else NameLeq(a[1..], b[1..])
  }

  lemma {:induction false} NameLeqTotal(a: string, b: string)
    ensures NameLeq(a, b) || NameLeq(b, a)
  {
    if a != [] && b != [] && a[0] == b[0] {
      NameLeqTotal(a[1..], b[1..]);
    }
  }

  lemma {:induction false} NameLeqTransitive(a: string, b: string, c: string)
    requires NameLeq(a, b) && NameLeq(b, c)
    ensures NameLeq(a, c)
  {
    if a != [] && b != [] && c != [] && a[0] == b[0] && b[0] == c[0] {
      NameLeqTransitive(a[1..], b[1..], c[1..]);
    }
  }

  ghost predicate SortedByName(s: seq<Student>)
  {
    forall i, j :: 0 <= i < j < |s| ==> NameLeq(s[i].name, s[j].name)
  }

  /** A name below every row of a sorted list can head it. */
  lemma ConsSorted(a: Student, s: seq<Student>)
    requires SortedByName(s)
    requires forall y :: y in s ==> NameLeq(a.name, y.name)
    ensures SortedByName([a] + s)
  {
    forall i, j | 0 <= i < j < |[a] + s|
      ensures NameLeq(([a] + s)[i].name, ([a] + s)[j].name)
    {
      if i > 0 { assert ([a] + s)[i] == s[i - 1]; }
      assert ([a] + s)[j] == s[j - 1];
    }
  }

  /** A lower bound of `t` and of `x` bounds every row of a list holding t's rows and x. */
  lemma BoundKept(b: string, x: Student, t: seq<Student>, r: seq<Student>)
    requires multiset(r) == multiset(t) + multiset{x}
    requires NameLeq(b, x.name)
    requires forall j :: 0 <= j < |t| ==> NameLeq(b, t[j].name)
    ensures forall y :: y in r ==> NameLeq(b, y.name)
  {
    forall y | y in r ensures NameLeq(b, y.name) {
      assert y in multiset(r);
      if y != x {
        assert y in multiset(t);
        var j :| 0 <= j < |t| && t[j] == y;
      }
    }
  }

  /** `s` with `x` placed before the first row whose name is not below x's. */
  function InsertByName(x: Student, s: seq<Student>): (r: seq<Student>)
    requires SortedByName(s)
    ensures SortedByName(r)
    ensures multiset(r) == multiset(s) + multiset{x}
  {
    if s == [] then [x]
    else if NameLeq(x.name, s[0].name) then
      assert forall y :: y in s ==> NameLeq(x.name, y.name) by {
        forall j | 0 <= j < |s| ensures NameLeq(x.name, s[j].name) {
          if j > 0 { NameLeqTransitive(x.name, s[0].name, s[j].name); }
        }
      }
      ConsSorted(x, s);
      [x] + s
    else
      assert s == [s[0]] + s[1..];
      var rest := InsertByName(x, s[1..]);
      NameLeqTotal(x.name, s[0].name);
      assert forall j :: 0 <= j < |s[1..]| ==> NameLeq(s[0].name, s[1..][j].name) by {
        forall j | 0 <= j < |s[1..]| ensures NameLeq(s[0].name, s[1..][j].name) {
          assert s[1..][j] == s[j + 1];
        }
      }
      BoundKept(s[0].name, x, s[1..], rest);
      ConsSorted(s[0], rest);
      [s[0]] + rest
  }

  /** The rows of `s` in ascending order of name: `order: ['name']`. */
  function SortByName(s: seq<Student>): (r: seq<Student>)
    ensures SortedByName(r)
    ensures multiset(r) == multiset(s)
    ensures forall x :: x in r <==> x in s
  {
    if s == [] then []
    else
      assert s == [s[0]] + s[1..];
      var r := InsertByName(s[0], SortByName(s[1..]));
      assert forall x :: x in r <==> x in s by {
        forall x ensures x in r <==> x in s {
          assert x in r <==> x in multiset(r);
          assert x in s <==> x in multiset(s);
        }
      }
      r
  }

  /** ASCII letters lowered; every other character unchanged. */
  function LowerChar(c: char): char
  {
    if 'A' <= c <= 'Z' then (c as int + 32) as char else c
  }

  function Lower(s: string): (r: string)
    ensures |r| == |s|
    ensures forall i :: 0 <= i < |s| ==> r[i] == LowerChar(s[i])
  {
    seq(|s|, i requires 0 <= i < |s| => LowerChar(s[i]))
  }

  /** `needle` occurs in `hay` at some position. */
  predicate Contains(hay: string, needle: string)
  {
    exists i :: 0 <= i <= |hay| && needle <= hay[i..]
  }

  /** `name iLike '%q%'`: q occurs in name, ignoring the case of letters. */
  predicate NameMatches(name: string, q: string)
  {
    Contains(Lower(name), Lower(q))
  }

  /** The search ignores the case of letters on both sides: queries, or names, that agree
      once lowered match alike, and lowering either one first changes nothing. */
  lemma QueryCaseIrrelevant(name: string, q: string, name': string, q': string)
    ensures Lower(q) == Lower(q') ==> NameMatches(name, q) == NameMatches(name, q')
    ensures Lower(name) == Lower(name') ==> NameMatches(name, q) == NameMatches(name', q)
    ensures NameMatches(name, Lower(q)) == NameMatches(name, q)
    ensures NameMatches(Lower(name), q) == NameMatches(name, q)
  {
    LowerIdempotent(q);
    LowerIdempotent(name);
  }

  lemma LowerIdempotent(s: string)
    ensures Lower(Lower(s)) == Lower(s)
  {
    var l := Lower(s);
    assert forall i :: 0 <= i < |l| ==> Lower(l)[i] == l[i];
  }

  /** The rows whose name matches `q`, in table order. */
  function FilterByName(s: seq<Student>, q: string): (r: seq<Student>)
    ensures |r| <= |s|
    ensures multiset(r) <= multiset(s)
    ensures forall x :: x in r <==> x in s && NameMatches(x.name, q)
  {
    if s == [] then []
    else
      assert s == [s[0]] + s[1..];
      assert multiset(s) == multiset{s[0]} + multiset(s[1..]);
      var rest := FilterByName(s[1..], q);
      if NameMatches(s[0].name, q) then [s[0]] + rest else rest
  }

  /** `limit: 20, offset: offset` applied to `s`. */
  function Window<T>(s: seq<T>, offset: nat): (r: seq<T>)
    ensures |r| <= PageSize
    ensures forall i :: 0 <= i < |r| ==> offset + i < |s| && r[i] == s[offset + i]
    ensures |r| < PageSize ==> offset + |r| >= |s|
    ensures forall x :: x in r ==> x in s
  {
    if offset >= |s| then []
    else if |s| - offset <= PageSize then s[offset..]
    else s[offset..offset + PageSize]
  }

  /** `(page - 1) * 20`, with `page` defaulting to 1. */
  function Offset(page: Option<int>): int
  {
    ((if page.Some? then page.value else 1) - 1) * PageSize
  }

  /** `!q` is false: a non-empty query string was sent. */
  predicate Filtering(q: Field<string>)
  {
    q.Present? && q.value != ""
  }

  // ---------------------------------------------------------------------------
  // The directory

  class StudentDirectory {
    /** The email syntax check of the schema validator. */
    const isEmail: string -> bool
    var table: seq<Student>
    var nextId: int

    ghost predicate Valid()
      reads this
    {
      UniqueEmails(table) && IdsBelow(table, nextId)
    }

    constructor (isEmail: string -> bool)
      ensures Valid()
      ensures this.isEmail == isEmail && table == [] && nextId == 1
    {
      this.isEmail := isEmail;
      table := [];
      nextId := 1;
    }

    /** `POST /students`. */
    method Store(req: Request) returns (r: Response<Student>)
      requires Valid()
      modifies this
      ensures Valid()
      ensures r == StoreOutcome(old(table), isEmail, old(nextId), req)
      ensures if r.Ok? then table == old(table) + [r.body] && nextId == old(nextId) + 1
              else table == old(table) && nextId == old(nextId)
    {
      if !StoreSchema(req, isEmail) {
        return Error(400, "error", ValidationFailed);
      }
      if EmailTaken(table, req.email.value) {
        return Error(400, "error", EmailInUse);
      }
      var student := Student(nextId, req.name.value, req.email.value, req.age.value, req.weight.value, req.height.value);
      StoreKeepsInvariant(table, isEmail, nextId, req);
      table := table + [student];
      nextId := nextId + 1;
      return Ok(student);
    }

    /** `GET /students?q=&page=`. */
    function Index(q: Field<string>, page: Option<int>): (r: Response<seq<Student>>)
      reads this
      ensures r.Error? <==> q.Invalid?
      ensures r.Error? ==> r == Error(400, "error", ValidationFailed)
      ensures r.Aborted? <==> !q.Invalid? && Offset(page) < 0
      ensures r.Ok? ==> |r.body| <= PageSize && forall x :: x in r.body ==> x in table
      ensures r.Ok? && !Filtering(q) ==> SortedByName(r.body) && r.body == Window(SortByName(table), Offset(page))
      ensures r.Ok? && Filtering(q) ==>
                (forall x :: x in r.body ==> NameMatches(x.name, q.value))
                && r.body == Window(FilterByName(table, q.value), Offset(page))
    {
      if q.Invalid? then Error(400, "error", ValidationFailed)
      else if Offset(page) < 0 then Aborted
      else
        var rows := if Filtering(q) then FilterByName(table, q.value) else SortByName(table);
        Ok(Window(rows, Offset(page)))
    }

    /** `PUT /students/:studentId`. */
    method Update(studentId: int, req: Request) returns (r: Response<Student>)
      requires Valid()
      modifies this
      ensures Valid()
      ensures var d := UpdateOutcome(old(table), isEmail, studentId, req);
              if d.Ok? then r == Ok(d.body.record) && table == old(table)[d.body.index := d.body.record]
              else r == d.Relay() && table == old(table)
      ensures nextId == old(nextId)
    {
      if !UpdateSchema(req, isEmail) {
        return Error(400, "error", ValidationFailed);
      }
      var k := IndexOf(table, studentId);
      if k.None? {
        return Error(401, "error", "Estudante não encontrado");
      }
      var student := table[k.value];
      if req.email.Present? && req.email.value != student.email && EmailTaken(table, req.email.value) {
        return Error(401, "error", EmailInUse);
      }
      var updated := Patch(student, req);
      UpdateKeepsInvariant(table, isEmail, studentId, req, nextId);
      table := table[k.value := updated];
      return Ok(updated);
    }
  }
}
