/** What one arithmetic instruction does to the tape: change the current cell or move the pointer. */
module Effects {
  datatype Effect =
    | CellAdd(delta: int)
    | PointerAdd(delta: int)
}
