/** The view driving the mock server: each submit or delete sends its
    request to the store, feeds the store's answer back to the view, and
    (for create and update) refreshes the view's list from the store. */
module Session {
  import opened Employees
  import opened Table
  import opened Timestamps
  import opened MockServer
  import opened EmployeeView

  /** The answer the view's HTTP client hands on: the record on success,
      nothing when the status is an error. */
  function Delivered(r: Response): (d: Option<Employee>)
    ensures d.Some? <==> r.Record?
    ensures d.Some? ==> d.value == r.employee
  {
    if r.Record? then Some(r.employee) else None
  }

  /** Submit in Creating mode, then refresh: the store gains the draft under
      the timestamp's id, and the view shows exactly the store's rows. */
  method CreateAndRefresh(store: EmployeeStore, view: EmployeeList, now: nat)
    requires store.Valid() && view.editingEmployee.None?
    requires Fresh(store.rows, NatToString(now))
    modifies store, view
    ensures store.Valid()
    ensures store.rows == old(store.rows) + [WithId(old(view.newEmployee), NatToString(now))]
    ensures Find(store.rows, NatToString(now)) == Some(WithId(old(view.newEmployee), NatToString(now)))
    ensures view.employees == store.rows
    ensures view.newEmployee == EmptyDraft && view.editingEmployee == None
  {
    var body := WithId(view.newEmployee, NatToString(now));
    var created := store.Create(body);
    AppendFresh(old(store.rows), body);
    var request := view.Submit(now, Some(created));
    assert request == PostRequest(body);
    var list := store.All();
    view.Refresh(list);
  }

  /** Submit in Editing mode, then refresh: a known id takes the edit copy's
      fields and edit mode ends; an unknown id (a 404) changes nothing but
      the view's list, which the refresh still brings in line. */
  method UpdateAndRefresh(store: EmployeeStore, view: EmployeeList)
    requires store.Valid() && view.editingEmployee.Some?
    modifies store, view
    ensures store.Valid()
    ensures view.employees == store.rows
    ensures view.newEmployee == old(view.newEmployee)
    ensures old(IndexOf(store.rows, view.editingEmployee.value.id)).Some? ==>
      && store.rows == old(store.rows)[old(IndexOf(store.rows, view.editingEmployee.value.id)).value := old(view.editingEmployee.value)]
      && view.editingEmployee == None
    ensures old(IndexOf(store.rows, view.editingEmployee.value.id)).None? ==>
      store.rows == old(store.rows) && view.editingEmployee == old(view.editingEmployee)
  {
    var editing := view.editingEmployee.value;
    var found := IndexOf(store.rows, editing.id);
    if found.Some? {
      MergeFull(store.rows[found.value], editing);
    }
    var answer := store.Patch(editing.id, FullPatch(editing));
    var request := view.Submit(0, Delivered(answer));
    assert request == PatchRequest(editing.id, editing);
    var list := store.All();
    view.Refresh(list);
  }

  /** Delete, which the view does not follow with a refresh: a view that
      showed the store's rows still does afterwards, and the id is gone. */
  method DeleteInSync(store: EmployeeStore, view: EmployeeList, id: string)
    requires store.Valid() && view.employees == store.rows
    modifies store, view
    ensures store.Valid()
    ensures view.employees == store.rows
    ensures Find(store.rows, id) == None
    ensures view.newEmployee == old(view.newEmployee) && view.editingEmployee == old(view.editingEmployee)
  {
    var found := IndexOf(store.rows, id);
    if found.Some? {
      RemoveByIdUnique(store.rows, id, found.value);
    }
    var answer := store.Delete(id);
    var request := view.HandleDeleteEmployee(id, answer == NoContent);
  }

  /** Seeded store, PATCH "3" with only a new department: the other fields
      of Alice Johnson's record stay. */
  method PatchAliceScenario() returns (r: Response)
    ensures r == Record(Employee("3", "Alice Johnson", "UX Designer", "Design Systems"))
  {
    var store := new EmployeeStore();
    SeedUnique();
    IndexOfUnique(SeedRows(), 2);
    r := store.Patch("3", EmployeePatch(None, None, Some("Design Systems")));
  }

  /** Seeded store, create with id "999": the list has eleven rows, the
      last being the created one. */
  method CreateScenario() returns (list: seq<Employee>)
    ensures |list| == 11
    ensures list[10] == Employee("999", "Test User", "Intern", "Ops")
  {
    var store := new EmployeeStore();
    var created := Employee("999", "Test User", "Intern", "Ops");
    SeedUnique();
    forall k | 0 <= k < 10
      ensures SeedRows()[k].id != "999"
    {
      SeedNumbered(k);
    }
    var _ := store.Create(created);
    list := store.All();
  }

  /** Seeded store, delete "1": nine rows remain and none has id "1". */
  method DeleteScenario() returns (r: Response, list: seq<Employee>)
    ensures r == NoContent
    ensures |list| == 9 && Fresh(list, "1")
  {
    var store := new EmployeeStore();
    SeedUnique();
    IndexOfUnique(SeedRows(), 0);
    r := store.Delete("1");
    list := store.All();
  }

  /** Seeded store, delete an id it never had: 404 and nothing changes. */
  method DeleteUnknownScenario() returns (r: Response, list: seq<Employee>)
    ensures r == NotFound && list == SeedRows()
  {
    var store := new EmployeeStore();
    forall k | 0 <= k < 10
      ensures SeedRows()[k].id != "0"
    {
      SeedNumbered(k);
    }
    r := store.Delete("0");
    list := store.All();
  }
}
