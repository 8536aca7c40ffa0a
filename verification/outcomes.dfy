/**
  How a console command ends: the value it produces, or the reason it
  stops early and leaves the data as it was.
 */
module Outcomes {
  datatype Outcome<T> =
    | NotFound        // a name lookup found nothing
    | EmptyName       // the entered name is blank
    | AlreadyExists   // a salad of that name exists
    | BadChoice       // the menu choice is not one of the offered ones
    | BadNumber       // a numeric input does not parse (`NumberFormatException`)
    | Done(value: T)
}
