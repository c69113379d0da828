/** How many elements of a sequence satisfy a predicate. */
module Counting {

  function One(b: bool): nat {
    if b then 1 else 0
  }

  function Count<T>(s: seq<T>, p: T -> bool): nat {
    if s == [] then 0 else One(p(s[0])) + Count(s[1..], p)
  }

  function Remove<T>(s: seq<T>, k: nat): (r: seq<T>)
    requires k < |s|
    ensures |r| == |s| - 1
  {
    s[..k] + s[k + 1..]
  }

  lemma {:induction false} CountSplit<T>(a: seq<T>, b: seq<T>, p: T -> bool)
    ensures Count(a + b, p) == Count(a, p) + Count(b, p)
  {
    if a == [] {
      assert a + b == b;
    } else {
      assert (a + b)[1..] == a[1..] + b;
      CountSplit(a[1..], b, p);
    }
  }

  lemma CountAppend<T>(s: seq<T>, x: T, p: T -> bool)
    ensures Count(s + [x], p) == Count(s, p) + One(p(x))
  {
    CountSplit(s, [x], p);
    assert [x][1..] == [];
  }

  lemma {:induction false} CountRemove<T>(s: seq<T>, k: nat, p: T -> bool)
    requires k < |s|
    ensures Count(s, p) == Count(Remove(s, k), p) + One(p(s[k]))
    decreases k
  {
    if k == 0 {
      assert Remove(s, 0) == s[1..];
    } else {
      CountRemove(s[1..], k - 1, p);
      assert Remove(s, k)[0] == s[0] && Remove(s, k)[1..] == Remove(s[1..], k - 1);
    }
  }

  lemma CountUpdate<T>(s: seq<T>, k: nat, x: T, p: T -> bool)
    requires k < |s|
    ensures Count(s[k := x], p) + One(p(s[k])) == Count(s, p) + One(p(x))
  {
    CountRemove(s, k, p);
    CountRemove(s[k := x], k, p);
    assert Remove(s[k := x], k) == Remove(s, k);
  }

  lemma {:induction false} CountZero<T>(s: seq<T>, p: T -> bool)
    ensures Count(s, p) == 0 <==> forall k :: 0 <= k < |s| ==> !p(s[k])
  {
    if s != [] {
      CountZero(s[1..], p);
      assert forall k :: 0 <= k < |s| ==> s[k] == if k == 0 then s[0] else s[1..][k - 1];
    }
  }

  lemma {:induction false} AllCounted<T>(s: seq<T>, p: T -> bool)
    ensures Count(s, p) <= |s|
    ensures Count(s, p) == |s| ==> forall i :: 0 <= i < |s| ==> p(s[i])
  {
    if s != [] {
      AllCounted(s[1..], p);
    }
  }

  lemma TwoCounted<T>(s: seq<T>, i: nat, j: nat, p: T -> bool)
    requires i < j < |s| && p(s[i]) && p(s[j])
    ensures Count(s, p) >= 2
  {
    CountRemove(s, j, p);
    CountZero(Remove(s, j), p);
    assert Remove(s, j)[i] == s[i];
  }
}
