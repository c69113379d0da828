/** A loop that moves a position about below a bound, and when it leaves. */
module Orbits {
  import opened Bytes
  import opened Counting

  /** The position before round `k`, counted from 0; None once the loop has left: it leaves at a position from
      `n` on, or when the step yields none. */
  function Position(step: nat -> Option<nat>, n: nat, x: nat, k: nat): (r: Option<nat>)
    ensures r.Some? ==> r.value < n
    decreases k
  {
    if x >= n then None
    else if k == 0 then Some(x)
    else match step(x) case None => None case Some(y) => Position(step, n, y, k - 1)
  }

  predicate SamePosition(step: nat -> Option<nat>, n: nat, x: nat, i: nat, j: nat) {
    Position(step, n, x, i).Some? && Position(step, n, x, i) == Position(step, n, x, j)
  }

  lemma {:induction false} PositionAdd(step: nat -> Option<nat>, n: nat, x: nat, i: nat, j: nat)
    ensures Position(step, n, x, i + j)
         == match Position(step, n, x, i) case None => None case Some(y) => Position(step, n, y, j)
    decreases i
  {
    if i > 0 && x < n && step(x).Some? {
      PositionAdd(step, n, step(x).value, i - 1, j);
    }
  }

  lemma OneMore(step: nat -> Option<nat>, n: nat, x: nat, k: nat)
    ensures Position(step, n, x, k + 1).Some? ==>
      Position(step, n, x, k).Some? && step(Position(step, n, x, k).value) == Position(step, n, x, k + 1)
  {
    PositionAdd(step, n, x, k, 1);
  }

  /** Having left, the loop does not come back. */
  lemma StaysLeft(step: nat -> Option<nat>, n: nat, x: nat, i: nat, k: nat)
    requires Position(step, n, x, i).None? && i <= k
    ensures Position(step, n, x, k).None?
  {
    PositionAdd(step, n, x, i, k - i);
  }

  /** A loop that stands twice at the same position never leaves. */
  lemma {:induction false} RepeatSpins(step: nat -> Option<nat>, n: nat, x: nat, i: nat, j: nat, k: nat)
    requires i < j && SamePosition(step, n, x, i, j)
    ensures Position(step, n, x, k).Some?
    decreases k
  {
    if k <= j {
      if Position(step, n, x, k).None? {
        StaysLeft(step, n, x, k, j);
      }
    } else {
      PositionAdd(step, n, x, i, k - j);
      PositionAdd(step, n, x, j, k - j);
      RepeatSpins(step, n, x, i, j, i + (k - j));
    }
  }

  lemma SomeBelow(s: seq<nat>, n: nat)
    requires forall i :: 0 <= i < |s| ==> s[i] < n
    ensures s != [] ==> n > 0
  {
    if s != [] {
      assert s[0] >= 0;
    }
  }

  /** Numbers below `n` that all differ are at most `n`. */
  lemma {:induction false} Pigeonhole(s: seq<nat>, n: nat)
    requires forall i :: 0 <= i < |s| ==> s[i] < n
    requires forall i, j :: 0 <= i < j < |s| ==> s[i] != s[j]
    ensures |s| <= n
    decreases n
  {
    if n == 0 {
      SomeBelow(s, n);
    } else if n - 1 in s {
      var k :| 0 <= k < |s| && s[k] == n - 1;
      Pigeonhole(Remove(s, k), n - 1);
    } else {
      assert forall i :: 0 <= i < |s| ==> s[i] in s;
      Pigeonhole(s, n - 1);
    }
  }

  lemma AllDiffer(step: nat -> Option<nat>, n: nat, x: nat)
    requires forall i: nat, j: nat :: i < j ==> !SamePosition(step, n, x, i, j)
    ensures Position(step, n, x, n).None?
  {
    if Position(step, n, x, n).Some? {
      forall i: nat | i <= n ensures Position(step, n, x, i).Some? {
        if Position(step, n, x, i).None? {
          StaysLeft(step, n, x, i, n);
        }
      }
      var s := seq(n + 1, i requires 0 <= i < n + 1 => Position(step, n, x, i).value);
      forall i, j | 0 <= i < j < |s| ensures s[i] != s[j] {
        assert !SamePosition(step, n, x, i, j);
      }
      Pigeonhole(s, n);
    }
  }

  /** The loop leaves after finitely many rounds exactly when it never stands twice at the same position. */
  lemma LeavesIff(step: nat -> Option<nat>, n: nat, x: nat)
    ensures (exists k: nat :: Position(step, n, x, k).None?) <==> Position(step, n, x, n).None?
    ensures Position(step, n, x, n).None? <==> forall i: nat, j: nat :: i < j ==> !SamePosition(step, n, x, i, j)
  {
    if i: nat, j: nat :| i < j && SamePosition(step, n, x, i, j) {
      forall k: nat ensures Position(step, n, x, k).Some? {
        RepeatSpins(step, n, x, i, j, k);
      }
    } else {
      AllDiffer(step, n, x);
    }
  }
}
