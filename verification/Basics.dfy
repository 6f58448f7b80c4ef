/** What the other modules share. */
module Basics {
  datatype Option<+T> = None | Some(value: T)

  type Byte = x: int | 0 <= x < 256

  /** A number not in use. */
  ghost function Unused(ids: set<nat>): (id: nat)
    ensures id !in ids && forall j | j in ids :: j < id
    decreases ids
  {
    if ids == {} then 0
    else
      var j :| j in ids;
      var id := Unused(ids - {j});
      assert forall i | i in ids :: i == j || i in ids - {j};
      if id <= j then j + 1 else id
  }
}
