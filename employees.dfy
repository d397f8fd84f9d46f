/** The one entity of the application, shared by the mock server and the view. */
module Employees {

  /** A value that may be absent: a lookup that found nothing, a request that failed. */
  datatype Option<+T> = None | Some(value: T) {
    function GetOr(default: T): T
    {
      match this
      case Some(v) => v
      case None => default
    }
  }

  /** An employee record as both the server and the view hold it. */
  datatype Employee = Employee(id: string, name: string, position: string, department: string)

  /** The view's create draft: an employee without an id. */
  datatype Draft = Draft(name: string, position: string, department: string)

  /** The three editable fields, named as the form's inputs name them. */
  datatype Field = Name | Position | Department

  function FieldOf(e: Employee, f: Field): string
  {
    match f
    case Name => e.name
    case Position => e.position
    case Department => e.department
  }

  function DraftFieldOf(d: Draft, f: Field): string
  {
    match f
    case Name => d.name
    case Position => d.position
    case Department => d.department
  }
}
