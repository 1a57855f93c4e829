/** Counting the unset flags of a boolean sequence: the number of vertices a
    breadth-first search has not visited yet, which bounds how many more it
    can visit. */
module Counting {

  /** The number of unset flags. */
  function CountFalse(flags: seq<bool>): (r: nat)
    ensures r <= |flags|
  {
    if flags == [] then 0 else CountFalse(flags[..|flags| - 1]) + (if flags[|flags| - 1] then 0 else 1)
  }

  lemma {:induction false} CountFalseAllFalse(flags: seq<bool>)
    requires forall i :: 0 <= i < |flags| ==> !flags[i]
    ensures CountFalse(flags) == |flags|
  {
    if flags != [] {
      CountFalseAllFalse(flags[..|flags| - 1]);
    }
  }

  /** Visiting one more vertex leaves one fewer unvisited. */
  lemma {:induction false} CountFalseVisit(flags: seq<bool>, w: nat)
    requires w < |flags| && !flags[w]
    ensures CountFalse(flags[w := true]) == CountFalse(flags) - 1
  {
    var n := |flags| - 1;
    if w < n {
      assert flags[w := true][..n] == flags[..n][w := true];
      CountFalseVisit(flags[..n], w);
    } else {
      assert flags[w := true][..n] == flags[..n];
    }
  }

  /** Flags that imply other flags leave at least as many unset; exactly as
      many only when the two agree everywhere. */
  lemma {:induction false} CountFalseSubset(a: seq<bool>, b: seq<bool>)
    requires |a| == |b| && forall i :: 0 <= i < |a| && a[i] ==> b[i]
    ensures CountFalse(a) >= CountFalse(b)
    ensures CountFalse(a) == CountFalse(b) ==> forall i :: 0 <= i < |a| && b[i] ==> a[i]
  {
    if a != [] {
      var n := |a| - 1;
      CountFalseSubset(a[..n], b[..n]);
      if CountFalse(a) == CountFalse(b) {
        forall i | 0 <= i < |a| && b[i] ensures a[i] {
          if i < n {
            assert a[..n][i] == a[i] && b[..n][i] == b[i];
          }
        }
      }
    }
  }
}
