/** The leaderboard of src/services/cg_router.c: the ten best active users, kept in a short list. */
module Leaderboard {
  import opened Bytes
  import opened Users

  const TOP: nat := 10

  // ----- the ranking -----

  /** More points, or as many and an earlier slot. */
  predicate Above(users: seq<User>, i: nat, j: nat) {
    i < |users| && j < |users|
    && (users[i].points > users[j].points || (users[i].points == users[j].points && i < j))
  }

  predicate Ordered(users: seq<User>, s: seq<nat>) {
    forall k, l :: 0 <= k < l < |s| ==> Above(users, s[k], s[l])
  }

  /** The stable descending order by points of the active users below slot `n`. */
  ghost predicate IsRanking(users: seq<User>, n: nat, s: seq<nat>) {
    Ordered(users, s) && forall i: nat :: i in s <==> i < n && i < |users| && users[i].active
  }

  /** The first place whose holder has fewer points. */
  function Place(users: seq<User>, s: seq<nat>, points: int): (j: nat)
    requires forall k :: 0 <= k < |s| ==> s[k] < |users|
    ensures j <= |s|
    ensures forall k :: 0 <= k < j ==> users[s[k]].points >= points
    ensures j < |s| ==> users[s[j]].points < points
  {
    if s == [] || users[s[0]].points < points then 0 else 1 + Place(users, s[1..], points)
  }

  function Put(s: seq<nat>, j: nat, i: nat): seq<nat>
    requires j <= |s|
  {
    s[..j] + [i] + s[j..]
  }

  function Ranked(users: seq<User>, n: nat): (s: seq<nat>)
    requires n <= |users|
    ensures forall k :: 0 <= k < |s| ==> s[k] < n
  {
    if n == 0 then []
    else
      var s := Ranked(users, n - 1);
      if users[n - 1].active then Put(s, Place(users, s, users[n - 1].points), n - 1) else s
  }

  lemma PutMembers(s: seq<nat>, j: nat, i: nat)
    requires j <= |s|
    ensures forall x :: x in Put(s, j, i) <==> x == i || x in s
  {
    assert s == s[..j] + s[j..];
  }

  function PutAt(s: seq<nat>, j: nat, i: nat, k: nat): (x: nat)
    requires j <= |s| && k <= |s|
    ensures x == Put(s, j, i)[k]
  {
    if k < j then s[k] else if k == j then i else s[k - 1]
  }

  lemma PutPair(users: seq<User>, s: seq<nat>, i: nat, j: nat, k: nat, l: nat)
    requires i < |users| && Ordered(users, s) && k < l <= |s| && j <= |s|
    requires forall m :: 0 <= m < |s| ==> s[m] < i
    requires forall m :: 0 <= m < j ==> users[s[m]].points >= users[i].points
    requires j < |s| ==> users[s[j]].points < users[i].points
    ensures Above(users, PutAt(s, j, i, k), PutAt(s, j, i, l))
  {
    if k > j {
      assert Above(users, s[k - 1], s[l - 1]);
    } else if k == j {
      assert j < l - 1 ==> Above(users, s[j], s[l - 1]);
    } else if l < j {
      assert Above(users, s[k], s[l]);
    } else if l > j && k < l - 1 {
      assert Above(users, s[k], s[l - 1]);
    }
  }

  lemma PutOrdered(users: seq<User>, s: seq<nat>, i: nat)
    requires i < |users| && Ordered(users, s) && forall k :: 0 <= k < |s| ==> s[k] < i
    ensures Ordered(users, Put(s, Place(users, s, users[i].points), i))
  {
    var j := Place(users, s, users[i].points);
    var r := Put(s, j, i);
    forall k, l | 0 <= k < l < |r| ensures Above(users, r[k], r[l]) {
      PutPair(users, s, i, j, k, l);
      assert r[k] == PutAt(s, j, i, k) && r[l] == PutAt(s, j, i, l);
    }
  }

  lemma RankingPut(users: seq<User>, n: nat, s: seq<nat>)
    requires n < |users| && users[n].active && IsRanking(users, n, s) && forall k :: 0 <= k < |s| ==> s[k] < n
    ensures IsRanking(users, n + 1, Put(s, Place(users, s, users[n].points), n))
  {
    PutOrdered(users, s, n);
    PutMembers(s, Place(users, s, users[n].points), n);
  }

  lemma {:induction false} RankedIs(users: seq<User>, n: nat)
    requires n <= |users|
    ensures IsRanking(users, n, Ranked(users, n))
  {
    if n > 0 {
      RankedIs(users, n - 1);
      if users[n - 1].active {
        RankingPut(users, n - 1, Ranked(users, n - 1));
      }
    }
  }

  lemma NoRepeat(users: seq<User>, s: seq<nat>, k: nat)
    requires Ordered(users, s) && k < |s|
    ensures s[k] !in s[k + 1..]
  {
    forall l | k < l < |s| ensures s[l] != s[k] {
      assert Above(users, s[k], s[l]);
    }
  }

  lemma TailMember(s: seq<nat>, i: nat)
    requires s != []
    ensures i in s <==> i == s[0] || i in s[1..]
  {
    assert s == [s[0]] + s[1..];
  }

  lemma Nonempty(s: seq<nat>, t: seq<nat>)
    requires forall i: nat :: i in s <==> i in t
    ensures s != [] ==> t != []
  {
    if s != [] {
      assert s[0] in t;
    }
  }

  lemma HeadAbove(users: seq<User>, s: seq<nat>, i: nat)
    requires Ordered(users, s) && i in s
    ensures i == s[0] || Above(users, s[0], i)
  {
  }

  /** The ranking is determined by its description. */
  lemma {:induction false} RankingUnique(users: seq<User>, s: seq<nat>, t: seq<nat>)
    requires Ordered(users, s) && Ordered(users, t) && forall i: nat :: i in s <==> i in t
    ensures s == t
    decreases |s|
  {
    if s == [] {
      Nonempty(t, s);
    } else {
      Nonempty(s, t);
      HeadAbove(users, s, t[0]);
      HeadAbove(users, t, s[0]);
      NoRepeat(users, s, 0);
      NoRepeat(users, t, 0);
      forall i: nat ensures i in s[1..] <==> i in t[1..] {
        TailMember(s, i);
        TailMember(t, i);
      }
      RankingUnique(users, s[1..], t[1..]);
    }
  }

  // ----- the first ten -----

  function Cut(s: seq<nat>): seq<nat> {
    s[..Min(|s|, TOP)]
  }

  lemma {:induction false} PlaceInPrefix(users: seq<User>, s: seq<nat>, m: nat, points: int)
    requires m <= |s| && forall k :: 0 <= k < |s| ==> s[k] < |users|
    ensures Place(users, s[..m], points) == Min(Place(users, s, points), m)
  {
    if m > 0 {
      assert s[..m][1..] == s[1..][..m - 1];
      PlaceInPrefix(users, s[1..], m - 1, points);
    }
  }

  lemma CutPut(s: seq<nat>, j: nat, i: nat)
    requires j <= |s|
    ensures Cut(Put(s, j, i)) == Cut(Put(Cut(s), Min(j, |Cut(s)|), i))
  {
  }

  /** The list of ten needs no more than its own entries to take in the next user. */
  lemma CutRanked(users: seq<User>, n: nat)
    requires n < |users| && users[n].active
    ensures var top := Cut(Ranked(users, n));
      Cut(Ranked(users, n + 1)) == Cut(Put(top, Place(users, top, users[n].points), n))
  {
    var s := Ranked(users, n);
    CutPut(s, Place(users, s, users[n].points), n);
    PlaceInPrefix(users, s, |Cut(s)|, users[n].points);
  }

  lemma PrefixMembers(s: seq<nat>, m: nat)
    requires m <= |s|
    ensures forall l :: 0 <= l < m ==> s[l] in s[..m]
  {
    assert forall l :: 0 <= l < m ==> s[l] == s[..m][l];
  }

  lemma BelowPrefix(users: seq<User>, s: seq<nat>, m: nat, i: nat)
    requires Ordered(users, s) && m <= |s| && i in s && i !in s[..m]
    ensures m < |s| && forall k :: 0 <= k < m ==> Above(users, s[k], i)
  {
    PrefixMembers(s, m);
  }

  /** Who is on the board: the listed users stand in order, all are active, every active user who is not listed
      stands below every one who is, and the board has a free place only if all active users are on it. */
  lemma BoardIs(users: seq<User>)
    ensures var top := Cut(Ranked(users, |users|));
      && Ordered(users, top) && |top| <= TOP
      && (forall i :: i in top ==> i < |users| && users[i].active)
      && (forall i: nat :: i < |users| && users[i].active && i !in top ==>
            |top| == TOP && forall k :: 0 <= k < |top| ==> Above(users, top[k], i))
  {
    var s := Ranked(users, |users|);
    RankedIs(users, |users|);
    var top := Cut(s);
    forall i: nat | i < |users| && users[i].active && i !in top
      ensures |top| == TOP && forall k :: 0 <= k < |top| ==> Above(users, top[k], i)
    {
      BelowPrefix(users, s, |top|, i);
      assert forall k :: 0 <= k < |top| ==> top[k] == s[k];
    }
  }

  // ----- the list in place -----

  /** The ten pointers: those of the list, then null. */
  function Slots(s: seq<nat>): (r: seq<Option<nat>>) {
    seq(TOP, k requires 0 <= k < TOP => if k < |s| then Some(s[k]) else None)
  }

  lemma PlaceAt(users: seq<User>, s: seq<nat>, points: int, j: nat)
    requires j <= |s| && forall k :: 0 <= k < |s| ==> s[k] < |users|
    requires forall k :: 0 <= k < j ==> users[s[k]].points >= points
    requires j < |s| ==> users[s[j]].points < points
    ensures Place(users, s, points) == j
  {
  }

  /** The shift of the tail by one place, the last falling out, and the newcomer in the gap. */
  method Shift(top: array<Option<nat>>, j: nat, i: nat)
    requires top.Length == TOP && j < TOP
    modifies top
    ensures top[..] == old(top[..j]) + [Some(i)] + old(top[j..9])
  {
    var k := 9;
    while k > j
      invariant j <= k <= 9
      invariant top[..k + 1] == old(top[..k + 1])
      invariant forall m :: k < m < TOP ==> top[m] == old(top[m - 1])
    {
      assert top[k - 1] == top[..k + 1][k - 1];
      top[k] := top[k - 1];
      assert top[..k] == old(top[..k + 1])[..k];
      k := k - 1;
    }
    top[j] := Some(i);
  }

  lemma SlotsPut(s: seq<nat>, j: nat, i: nat)
    requires j <= |s| <= TOP && j < TOP
    ensures Slots(Cut(Put(s, j, i))) == Slots(s)[..j] + [Some(i)] + Slots(s)[j..9]
  {
    var r := Slots(s)[..j] + [Some(i)] + Slots(s)[j..9];
    forall k | 0 <= k < TOP ensures Slots(Cut(Put(s, j, i)))[k] == r[k] {
      if k <= |s| {
        assert Put(s, j, i)[k] == PutAt(s, j, i, k);
      }
    }
  }

  /** One active user is compared with the list from the top. */
  method Consider(users: array<User>, top: array<Option<nat>>, i: nat, ghost s: seq<nat>)
    requires i < users.Length && top.Length == TOP && |s| <= TOP && top[..] == Slots(s)
    requires forall k :: 0 <= k < |s| ==> s[k] < users.Length
    modifies top
    ensures top[..] == Slots(Cut(Put(s, Place(users[..], s, users[i].points), i)))
  {
    var j := 0;
    while j < TOP
      invariant j <= |s| && j <= TOP && top[..] == Slots(s)
      invariant forall k :: 0 <= k < j ==> users[s[k]].points >= users[i].points
    {
      assert top[j] == Slots(s)[j];
      if top[j].None? || users[i].points > users[top[j].value].points {
        PlaceAt(users[..], s, users[i].points, j);
        SlotsPut(s, j, i);
        Shift(top, j, i);
        return;
      }
      j := j + 1;
    }
    PlaceAt(users[..], s, users[i].points, TOP);
    assert Cut(Put(s, TOP, i)) == s;
  }

  /** The selection of the leaderboard handler: the first ten of the ranking, then null. */
  method Select(users: array<User>) returns (top: array<Option<nat>>)
    ensures fresh(top) && top[..] == Slots(Cut(Ranked(users[..], users.Length)))
  {
    top := new Option<nat>[TOP](_ => None);
    assert top[..] == Slots([]);
    for i := 0 to users.Length
      invariant users[..] == old(users[..]) && top.Length == TOP
      invariant top[..] == Slots(Cut(Ranked(users[..], i)))
    {
      if users[i].active {
        CutRanked(users[..], i);
        Consider(users, top, i, Cut(Ranked(users[..], i)));
      }
    }
  }
}
