/** Memory never runs out. */
module Addresses {
  ghost function AboveAll(s: set<nat>): (b: nat)
    ensures b > 0 && forall x :: x in s ==> x < b
  {
    if s == {} then 1 else
      var x :| x in s;
      var b := AboveAll(s - {x});
      assert forall y :: y in s ==> y == x || y in s - {x};
      if x < b then b else x + 1
  }
}
