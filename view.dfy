/** The employee management view: its three state cells and the handlers
    that update them. Each handler is one atomic step; the server's answer
    (None when the request failed) and the clock reading are inputs. */
module EmployeeView {
  import opened Employees
  import opened Table
  import opened Timestamps

  const EmptyDraft: Draft := Draft("", "", "")

  /** Creating while no employee is being edited, Editing otherwise. */
  datatype Mode = Creating | Editing

  /** The `mode` argument of the field-change handler. */
  datatype ChangeMode = New | Edit

  /** The request a handler sends to the server. */
  datatype Request = PostRequest(body: Employee) | PatchRequest(id: string, body: Employee) | DeleteRequest(id: string)

  /** The draft with an id attached: the body of the create request. */
  function WithId(d: Draft, id: string): (e: Employee)
    ensures e.id == id
    ensures forall f :: FieldOf(e, f) == DraftFieldOf(d, f)
  {
    Employee(id, d.name, d.position, d.department)
  }

  /** Writes one named field of a record; the id and the other fields stay. */
  function SetField(e: Employee, f: Field, v: string): (r: Employee)
    ensures r.id == e.id
    ensures FieldOf(r, f) == v
    ensures forall g :: g != f ==> FieldOf(r, g) == FieldOf(e, g)
  {
    match f
    case Name => e.(name := v)
    case Position => e.(position := v)
    case Department => e.(department := v)
  }

  /** Writes one named field of the draft; the other fields stay. */
  function SetDraftField(d: Draft, f: Field, v: string): (r: Draft)
    ensures DraftFieldOf(r, f) == v
    ensures forall g :: g != f ==> DraftFieldOf(r, g) == DraftFieldOf(d, g)
  {
    match f
    case Name => d.(name := v)
    case Position => d.(position := v)
    case Department => d.(department := v)
  }

  /** Writing a field back with its own value changes nothing. */
  lemma SetFieldSame(e: Employee, f: Field)
    ensures SetField(e, f, FieldOf(e, f)) == e
  {
  }

  /** A later write of the same field wins. */
  lemma SetFieldTwice(e: Employee, f: Field, v: string, w: string)
    ensures SetField(SetField(e, f, v), f, w) == SetField(e, f, w)
  {
  }

  class EmployeeList {
    var employees: seq<Employee>
    var newEmployee: Draft
    var editingEmployee: Option<Employee>

    /** The initial state: no rows yet, an empty draft, Creating mode. */
    constructor ()
      ensures employees == [] && newEmployee == EmptyDraft && editingEmployee == None
      ensures CurrentMode() == Creating
    {
      employees := [];
      newEmployee := EmptyDraft;
      editingEmployee := None;
    }

    function CurrentMode(): (m: Mode)
      reads this
      ensures m == Editing <==> editingEmployee.Some?
    {
      if editingEmployee.Some? then Editing else Creating
    }

    /** The value the form shows for field `f`: the edit copy's while
        editing, the draft's otherwise. */
    function FormValue(f: Field): (v: string)
      reads this
      ensures CurrentMode() == Editing ==> v == FieldOf(editingEmployee.value, f)
      ensures CurrentMode() == Creating ==> v == DraftFieldOf(newEmployee, f)
    {
      if editingEmployee.Some? then FieldOf(editingEmployee.value, f) else DraftFieldOf(newEmployee, f)
    }

    /** fetchEmployees, once its answer has arrived: the list becomes it. */
    method Refresh(list: seq<Employee>)
      modifies this
      ensures employees == list
      ensures newEmployee == old(newEmployee) && editingEmployee == old(editingEmployee)
    {
      employees := list;
    }

    /** handleCreateEmployee: posts the draft under the id `now` spells; on
        success appends the returned record and resets the draft. */
    method HandleCreateEmployee(now: nat, response: Option<Employee>) returns (request: Request)
      modifies this
      ensures request == PostRequest(WithId(old(newEmployee), NatToString(now)))
      ensures editingEmployee == old(editingEmployee)
      ensures response.Some? ==> employees == old(employees) + [response.value] && newEmployee == EmptyDraft
      ensures response.None? ==> employees == old(employees) && newEmployee == old(newEmployee)
    {
      var employeeWithId := WithId(newEmployee, NatToString(now));
      request := PostRequest(employeeWithId);
      if response.Some? {
        employees := employees + [response.value];
        newEmployee := EmptyDraft;
      }
    }

    /** handleUpdateEmployee: with nothing being edited, does nothing;
        otherwise sends the edit copy and, on success, replaces by id and
        leaves Editing mode. */
    method HandleUpdateEmployee(response: Option<Employee>) returns (request: Option<Request>)
      modifies this
      ensures newEmployee == old(newEmployee)
      ensures old(editingEmployee).None? ==> request == None && employees == old(employees) && editingEmployee == None
      ensures old(editingEmployee).Some? ==>
        request == Some(PatchRequest(old(editingEmployee).value.id, old(editingEmployee).value))
      ensures old(editingEmployee).Some? && response.Some? ==>
        employees == ReplaceById(old(employees), response.value) && editingEmployee == None
      ensures old(editingEmployee).Some? && response.None? ==>
        employees == old(employees) && editingEmployee == old(editingEmployee)
    {
      if editingEmployee.None? {
        return None;
      }
      var editing := editingEmployee.value;
      request := Some(PatchRequest(editing.id, editing));
      if response.Some? {
        employees := ReplaceById(employees, response.value);
        editingEmployee := None;
      }
    }

    /** handleDeleteEmployee: sends the delete and, when it succeeded,
        drops every row with that id. */
    method HandleDeleteEmployee(id: string, succeeded: bool) returns (request: Request)
      modifies this
      ensures request == DeleteRequest(id)
      ensures employees == if succeeded then RemoveById(old(employees), id) else old(employees)
      ensures newEmployee == old(newEmployee) && editingEmployee == old(editingEmployee)
    {
      request := DeleteRequest(id);
      if succeeded {
        employees := RemoveById(employees, id);
      }
    }

    /** handleChange: in New mode writes the draft's field; in Edit mode
        writes the edit copy's field, if there is an edit copy. */
    method HandleChange(f: Field, value: string, mode: ChangeMode)
      modifies this
      ensures employees == old(employees)
      ensures mode == New ==>
        newEmployee == SetDraftField(old(newEmployee), f, value) && editingEmployee == old(editingEmployee)
      ensures mode == Edit ==> newEmployee == old(newEmployee)
      ensures mode == Edit && old(editingEmployee).Some? ==>
        editingEmployee == Some(SetField(old(editingEmployee).value, f, value))
      ensures mode == Edit && old(editingEmployee).None? ==> editingEmployee == None
    {
      if mode == New {
        newEmployee := SetDraftField(newEmployee, f, value);
      } else if mode == Edit && editingEmployee.Some? {
        editingEmployee := Some(SetField(editingEmployee.value, f, value));
      }
    }

    /** A form input's onChange: handleChange in the mode the form is in.
        Exactly the shown value of that field changes. */
    method FormInput(f: Field, value: string)
      modifies this
      ensures employees == old(employees)
      ensures CurrentMode() == old(CurrentMode())
      ensures FormValue(f) == value
      ensures forall g :: g != f ==> FormValue(g) == old(FormValue(g))
      ensures old(CurrentMode()) == Creating ==> editingEmployee == old(editingEmployee)
      ensures old(CurrentMode()) == Editing ==> newEmployee == old(newEmployee)
      ensures old(CurrentMode()) == Editing ==> editingEmployee.value.id == old(editingEmployee).value.id
    {
      HandleChange(f, value, if editingEmployee.Some? then Edit else New);
    }

    /** The row's Edit button: the edit copy becomes that row. */
    method BeginEdit(emp: Employee)
      modifies this
      ensures editingEmployee == Some(emp) && CurrentMode() == Editing
      ensures employees == old(employees) && newEmployee == old(newEmployee)
    {
      editingEmployee := Some(emp);
    }

    /** The form's submit: update while editing, create otherwise. */
    method Submit(now: nat, response: Option<Employee>) returns (request: Request)
      modifies this
      ensures old(CurrentMode()) == Editing ==>
        request == PatchRequest(old(editingEmployee).value.id, old(editingEmployee).value)
      ensures old(CurrentMode()) == Creating ==>
        request == PostRequest(WithId(old(newEmployee), NatToString(now)))
      ensures old(CurrentMode()) == Editing && response.Some? ==>
        employees == ReplaceById(old(employees), response.value) && editingEmployee == None
      ensures old(CurrentMode()) == Creating && response.Some? ==>
        employees == old(employees) + [response.value] && newEmployee == EmptyDraft
      ensures old(CurrentMode()) == Editing ==> newEmployee == old(newEmployee)
      ensures old(CurrentMode()) == Creating ==> editingEmployee == None
      ensures response.None? ==>
        employees == old(employees) && newEmployee == old(newEmployee) && editingEmployee == old(editingEmployee)
    {
      if editingEmployee.Some? {
        var sent := HandleUpdateEmployee(response);
        request := sent.value;
      } else {
        request := HandleCreateEmployee(now, response);
      }
    }
  }
}
