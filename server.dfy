/** The in-memory mock REST backend: a store of employee records seeded with
    ten fixed rows, and the five route handlers under /api/employees. */
module MockServer {
  import opened Employees
  import opened Table
  import opened Timestamps

  /** A PATCH body: the fields to change; an absent field stays as it is. */
  datatype EmployeePatch = EmployeePatch(name: Option<string>, position: Option<string>, department: Option<string>)

  datatype ErrorBody = ErrorBody(error: string)

  /** A route's reply: a record, or a bare status with an optional error body. */
  datatype Response = Record(employee: Employee) | Reply(status: nat, body: Option<ErrorBody>)

  const NotFound: Response := Reply(404, Some(ErrorBody("Employee not found")))
  const NoContent: Response := Reply(204, None)

  /** The ten fixture rows, in the order the seeds block creates them. */
  function SeedRows(): (r: seq<Employee>)
    ensures |r| == 10
  {
    [ Employee("1", "John Doe", "Software Engineer", "IT"),
      Employee("2", "Jane Smith", "Product Manager", "Product"),
      Employee("3", "Alice Johnson", "UX Designer", "Design"),
      Employee("4", "Robert Brown", "QA Engineer", "Quality"),
      Employee("5", "Emily Davis", "Data Scientist", "Data"),
      Employee("6", "Michael Wilson", "HR Manager", "HR"),
      Employee("7", "Sarah Taylor", "Marketing Specialist", "Marketing"),
      Employee("8", "Chris Evans", "DevOps Engineer", "Operations"),
      Employee("9", "Sophia Moore", "Frontend Developer", "Development"),
      Employee("10", "Daniel Clark", "Backend Developer", "Development") ]
  }

  /** Seed row `k` has id `k + 1` written in decimal: "1" to "10" in order. */
  lemma SeedNumbered(k: nat)
    requires k < 10
    ensures |SeedRows()| == 10
    ensures SeedRows()[k].id == NatToString(k + 1)
  {
    if k == 9 {
      assert NatToString(10) == NatToString(1) + [DigitChar(0)];
    }
  }

  /** The seed ids are a key. */
  lemma SeedUnique()
    ensures UniqueIds(SeedRows())
  {
    forall i, j | 0 <= i < j < |SeedRows()|
      ensures SeedRows()[i].id != SeedRows()[j].id
    {
      SeedNumbered(i);
      SeedNumbered(j);
      NatToStringInjective(i + 1, j + 1);
    }
  }

  /** The seeds block's `k`-th create sees a fresh id and extends the
      seeded prefix by one row. */
  lemma SeedStep(k: nat)
    requires k < 10
    ensures |SeedRows()| == 10
    ensures Fresh(SeedRows()[..k], SeedRows()[k].id)
    ensures SeedRows()[..k] + [SeedRows()[k]] == SeedRows()[..k + 1]
  {
    SeedUnique();
    PrefixFresh(SeedRows(), k);
  }

  /** Seed row "3" is Alice Johnson, UX Designer in Design. */
  lemma SeedAlice()
    ensures Find(SeedRows(), "3") == Some(Employee("3", "Alice Johnson", "UX Designer", "Design"))
  {
    SeedUnique();
    IndexOfUnique(SeedRows(), 2);
  }

  /** Merges the fields present in `p` into `e`; `employee.update(attrs)`. */
  function Merge(e: Employee, p: EmployeePatch): (r: Employee)
    ensures r.id == e.id
    ensures forall f :: Present(p, f) ==> FieldOf(r, f) == PatchValue(p, f)
    ensures forall f :: !Present(p, f) ==> FieldOf(r, f) == FieldOf(e, f)
  {
    e.(name := p.name.GetOr(e.name),
       position := p.position.GetOr(e.position),
       department := p.department.GetOr(e.department))
  }

  predicate Present(p: EmployeePatch, f: Field)
  {
    match f
    case Name => p.name.Some?
    case Position => p.position.Some?
    case Department => p.department.Some?
  }

  function PatchValue(p: EmployeePatch, f: Field): string
    requires Present(p, f)
  {
    match f
    case Name => p.name.value
    case Position => p.position.value
    case Department => p.department.value
  }

  /** The PATCH body that carries every field of `e`, as the view sends it. */
  function FullPatch(e: Employee): (p: EmployeePatch)
    ensures forall f :: Present(p, f) && PatchValue(p, f) == FieldOf(e, f)
  {
    EmployeePatch(Some(e.name), Some(e.position), Some(e.department))
  }

  /** Patching with a full record of the same id yields that record. */
  lemma MergeFull(e: Employee, x: Employee)
    requires x.id == e.id
    ensures Merge(e, FullPatch(x)) == x
  {
  }

  /** Patching twice with the same body is patching once. */
  lemma MergeIdempotent(e: Employee, p: EmployeePatch)
    ensures Merge(Merge(e, p), p) == Merge(e, p)
  {
  }

  /** An empty PATCH body changes nothing. */
  lemma MergeEmpty(e: Employee)
    ensures Merge(e, EmployeePatch(None, None, None)) == e
  {
  }

  /** The mock server's employee collection. */
  class EmployeeStore {
    var rows: seq<Employee>

    ghost predicate Valid()
      reads this
    {
      UniqueIds(rows)
    }

    /** `makeServer`: an empty store, then the seeds block's ten creates. */
    constructor ()
      ensures Valid() && rows == SeedRows()
    {
      rows := [];
      new;
      SeedRow(0);
      SeedRow(1);
      SeedRow(2);
      SeedRow(3);
      SeedRow(4);
      SeedRow(5);
      SeedRow(6);
      SeedRow(7);
      SeedRow(8);
      SeedRow(9);
      assert rows == SeedRows()[..10];
    }

    /** One line of the seeds block: `server.create` of seed row `k`. */
    method SeedRow(k: nat)
      requires Valid() && k < 10 && rows == SeedRows()[..k]
      modifies this
      ensures Valid() && rows == SeedRows()[..k + 1]
    {
      SeedStep(k);
      var _ := Create(SeedRows()[k]);
    }

    /** GET /employees: every stored record, in store order. */
    method All() returns (r: seq<Employee>)
      ensures r == rows
    {
      r := rows;
    }

    /** GET /employees/:id: the record with that id, or None. */
    method Get(id: string) returns (r: Option<Employee>)
      requires Valid()
      ensures r.Some? ==> r.value in rows && r.value.id == id
      ensures r.None? ==> Fresh(rows, id)
      ensures forall k :: 0 <= k < |rows| && rows[k].id == id ==> r == Some(rows[k])
    {
      r := Find(rows, id);
      forall k | 0 <= k < |rows| && rows[k].id == id
        ensures r == Some(rows[k])
      {
        IndexOfUnique(rows, k);
      }
    }

    /** POST /employees: stores the posted record and returns it. */
    method Create(attrs: Employee) returns (r: Employee)
      requires Valid() && Fresh(rows, attrs.id)
      modifies this
      ensures Valid()
      ensures rows == old(rows) + [attrs]
      ensures r == attrs
    {
      AppendFresh(rows, attrs);
      rows := rows + [attrs];
      r := attrs;
    }

    /** PATCH /employees/:id: merges `attrs` into the record found, or 404. */
    method Patch(id: string, attrs: EmployeePatch) returns (r: Response)
      requires Valid()
      modifies this
      ensures Valid()
      ensures old(IndexOf(rows, id)).None? ==> r == NotFound && rows == old(rows)
      ensures old(IndexOf(rows, id)).Some? ==>
        var i := old(IndexOf(rows, id)).value;
        && rows == old(rows)[i := Merge(old(rows)[i], attrs)]
        && r == Record(rows[i])
    {
      var found := IndexOf(rows, id);
      if found.Some? {
        var i := found.value;
        var updated := Merge(rows[i], attrs);
        ReplaceFound(rows, updated, i);
        rows := rows[i := updated];
        return Record(updated);
      }
      return NotFound;
    }

    /** DELETE /employees/:id: removes the record found and answers 204, or 404. */
    method Delete(id: string) returns (r: Response)
      requires Valid()
      modifies this
      ensures Valid()
      ensures old(IndexOf(rows, id)).None? ==> r == NotFound && rows == old(rows)
      ensures old(IndexOf(rows, id)).Some? ==>
        rows == RemoveAt(old(rows), old(IndexOf(rows, id)).value) && r == NoContent
      ensures Fresh(rows, id)
    {
      var found := IndexOf(rows, id);
      if found.Some? {
        RemoveFound(rows, id, found.value);
        rows := RemoveAt(rows, found.value);
        return NoContent;
      }
      return NotFound;
    }
  }
}
