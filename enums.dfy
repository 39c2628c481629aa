/** The two-square vacuum world's vocabulary: its squares, what a square
    can look like, and the agent's actions. */
module Enums {

  datatype Location = A | B
  datatype Status = Clean | Dirty
  datatype Action = Suck | Right | Left | NoOp

  /** What the agent perceives: where it is and how that square looks. */
  type Percept = (Location, Status)

  type LocationMap = map<Location, Status>
}
