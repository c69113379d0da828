/** What a finished request contains, read off its records from the end instead of folded from the start. */
module RequestContents {
  import opened Bytes
  import opened NameValue
  import opened FastCgi
  import opened Records

  function NamesAndValues(ps: seq<Pair>): seq<Param> {
    if ps == [] then [] else [Param(ps[0].name, ps[0].value)] + NamesAndValues(ps[1..])
  }

  /** From this offset the rounds lead through just these pairs and to the end. */
  predicate Follows(payload: seq<byte>, off: nat, vs: seq<Param>)
    decreases |vs|
  {
    if vs == [] then off >= |payload|
    else
      off < |payload| && Visited(RoundAt(payload, off), vs[0])
      && Follows(payload, RoundAt(payload, off).next, vs[1..])
  }

  predicate Visited(r: Round, v: Param) {
    r.Visit? && r.name == v.name && r.value == v.value
  }

  lemma {:induction false} PairsFollow(payload: seq<byte>, off: nat, ps: seq<Pair>)
    requires forall p | p in ps :: Encodable(p)
    requires off <= |payload| < WRAP && payload[off..] == EncodePairs(ps)
    ensures Follows(payload, off, NamesAndValues(ps))
    decreases |ps|
  {
    if ps != [] {
      PairRoundTrip(payload, off, ps[0], EncodePairs(ps[1..]));
      PairsFollow(payload, off + |EncodePair(ps[0])|, ps[1..]);
      assert NamesAndValues(ps)[1..] == NamesAndValues(ps[1..]);
    }
  }

  lemma {:induction false} FollowedVisits(payload: seq<byte>, off: nat, vs: seq<Param>, k: nat)
    requires Follows(payload, off, vs) && k >= |vs|
    ensures VisitsFrom(payload, off, k) == vs
    decreases |vs|
  {
    if vs != [] {
      FollowedVisits(payload, RoundAt(payload, off).next, vs[1..], k - 1);
    }
  }

  lemma {:induction false} FollowedLeaves(payload: seq<byte>, off: nat, vs: seq<Param>, k: nat)
    requires Follows(payload, off, vs) && k >= |vs|
    ensures LeavesWithin(payload, off, k)
    decreases |vs|
  {
    if vs != [] {
      FollowedLeaves(payload, RoundAt(payload, off).next, vs[1..], k - 1);
    }
  }

  lemma {:induction false} NamesLength(ps: seq<Pair>)
    ensures |NamesAndValues(ps)| == |ps|
  {
    if ps != [] {
      NamesLength(ps[1..]);
    }
  }

  /** The loop visits exactly the encoded pairs, in order, and leaves. */
  lemma PairsRoundTrip(ps: seq<Pair>)
    requires (forall p | p in ps :: Encodable(p)) && |EncodePairs(ps)| < 0x1_0000
    ensures Visits(EncodePairs(ps)) == NamesAndValues(ps)
    ensures LeavesWithin(EncodePairs(ps), 0, |EncodePairs(ps)|)
  {
    var payload := EncodePairs(ps);
    assert payload[0..] == payload;
    PairsAreLong(ps);
    PairsFollow(payload, 0, ps);
    NamesLength(ps);
    FollowedVisits(payload, 0, NamesAndValues(ps), |payload|);
    FollowedLeaves(payload, 0, NamesAndValues(ps), |payload|);
  }

  /** All pairs visited in the PARAMS records of a stream. */
  function AllVisits(rs: seq<Record>): seq<Param> {
    if rs == [] then [] else (if rs[0].typ == PARAMS then Visits(rs[0].content) else []) + AllVisits(rs[1..])
  }

  // ----- the last value counts -----

  function Drop(vs: seq<Param>): seq<Param>
    requires vs != []
  {
    vs[..|vs| - 1]
  }

  function LastUri(vs: seq<Param>, before: seq<byte>): seq<byte> {
    if vs == [] then before
    else if vs[|vs| - 1].name == Ascii("REQUEST_URI") then UriOf(vs[|vs| - 1].value)
    else LastUri(Drop(vs), before)
  }

  function LastVerb(vs: seq<Param>, before: seq<byte>): seq<byte> {
    if vs == [] then before
    else if vs[|vs| - 1].name == Ascii("REQUEST_METHOD") then VerbOf(vs[|vs| - 1].value)
    else LastVerb(Drop(vs), before)
  }

  function LastSession(vs: seq<Param>, before: seq<byte>): seq<byte> {
    if vs == [] then before
    else if vs[|vs| - 1].name == Ascii("HTTP_COOKIE") && SessionOf(vs[|vs| - 1].value).Some? then
      SessionOf(vs[|vs| - 1].value).value
    else LastSession(Drop(vs), before)
  }

  lemma {:induction false} ApplyLast(req: Request, vs: seq<Param>, v: Param)
    ensures ApplyAll(req, vs + [v]) == ApplyPair(ApplyAll(req, vs), v.name, v.value)
    decreases |vs|
  {
    if vs == [] {
      assert ApplyAll(req, [v]) == ApplyAll(ApplyPair(req, v.name, v.value), []);
      assert vs + [v] == [v];
    } else {
      assert (vs + [v])[1..] == vs[1..] + [v];
      ApplyLast(ApplyPair(req, vs[0].name, vs[0].value), vs[1..], v);
    }
  }

  lemma {:induction false} ApplyJoin(req: Request, vs: seq<Param>, ws: seq<Param>)
    ensures ApplyAll(req, vs + ws) == ApplyAll(ApplyAll(req, vs), ws)
    decreases |vs|
  {
    if vs == [] {
      assert vs + ws == ws;
    } else {
      assert (vs + ws)[1..] == vs[1..] + ws;
      ApplyJoin(ApplyPair(req, vs[0].name, vs[0].value), vs[1..], ws);
    }
  }

  lemma NamesDiffer()
    ensures Ascii("REQUEST_URI") != Ascii("HTTP_COOKIE")
    ensures |Ascii("REQUEST_METHOD")| == 14
  {
    assert Ascii("REQUEST_URI")[0] == 'R' as int && Ascii("HTTP_COOKIE")[0] == 'H' as int;
  }

  /** The visited pairs leave the last URI, the last method and the last session, and nothing else. */
  lemma {:induction false} LastWins(req: Request, vs: seq<Param>)
    ensures ApplyAll(req, vs)
         == req.(uri := LastUri(vs, req.uri), verb := LastVerb(vs, req.verb), session := LastSession(vs, req.session))
    decreases |vs|
  {
    if vs != [] {
      NamesDiffer();
      LastWins(req, Drop(vs));
      assert vs == Drop(vs) + [vs[|vs| - 1]];
      ApplyLast(req, Drop(vs), vs[|vs| - 1]);
    }
  }

  // ----- the body -----

  /** The contents of the STDIN records of a stream. */
  function Bodies(rs: seq<Record>): seq<seq<byte>> {
    if rs == [] then []
    else (if rs[0].typ == STDIN && rs[0].content != [] then [rs[0].content] else []) + Bodies(rs[1..])
  }

  /** The buffer after the given body pieces: a piece that does not fit is left out. */
  function Accumulate(buffer: seq<byte>, pieces: seq<seq<byte>>): seq<byte>
    decreases |pieces|
  {
    if pieces == [] then buffer
    else Accumulate(if |buffer| + |pieces[0]| < MAX_STDIN then buffer + pieces[0] else buffer, pieces[1..])
  }

  lemma {:induction false} AccumulateLength(buffer: seq<byte>, pieces: seq<seq<byte>>)
    requires |buffer| < MAX_STDIN
    ensures |Accumulate(buffer, pieces)| < MAX_STDIN
    decreases |pieces|
  {
    if pieces != [] {
      AccumulateLength(if |buffer| + |pieces[0]| < MAX_STDIN then buffer + pieces[0] else buffer, pieces[1..]);
    }
  }

  /** The buffer holds the whole body exactly when the body is shorter than the buffer. */
  lemma {:induction false} BodyCompleteIff(buffer: seq<byte>, pieces: seq<seq<byte>>)
    requires |buffer| < MAX_STDIN
    ensures Accumulate(buffer, pieces) == buffer + Concat(pieces) <==> |buffer| + |Concat(pieces)| < MAX_STDIN
    decreases |pieces|
  {
    if pieces == [] {
      assert buffer + [] == buffer;
    } else {
      AccumulateLength(buffer, pieces);
      if |buffer| + |pieces[0]| < MAX_STDIN {
        BodyCompleteIff(buffer + pieces[0], pieces[1..]);
        assert buffer + pieces[0] + Concat(pieces[1..]) == buffer + Concat(pieces);
      }
    }
  }

  // ----- the whole request -----

  lemma {:induction false} StepsAreLast(req: Request, rs: seq<Record>)
    requires forall r | r in rs :: ValidRecord(r) && r.typ != BEGIN_REQUEST
    ensures AfterRecords(req, rs) == ApplyAll(req, AllVisits(rs)).(stdin := Accumulate(req.stdin, Bodies(rs)))
    decreases |rs|
  {
    if rs != [] {
      var next := AfterRecord(req, rs[0]);
      StepsAreLast(next, rs[1..]);
      LastWins(req, AllVisits(rs));
      LastWins(next, AllVisits(rs[1..]));
      var here := if rs[0].typ == PARAMS then Visits(rs[0].content) else [];
      assert AllVisits(rs) == here + AllVisits(rs[1..]);
      if rs[0].typ == PARAMS {
        ApplyJoin(req, here, AllVisits(rs[1..]));
        LastWins(req, here);
        assert Bodies(rs) == Bodies(rs[1..]);
      } else {
        assert AllVisits(rs) == AllVisits(rs[1..]);
        if rs[0].typ == STDIN && rs[0].content != [] {
          assert Bodies(rs)[1..] == Bodies(rs[1..]);
        } else {
          assert Bodies(rs) == Bodies(rs[1..]);
        }
      }
    }
  }

  /** The request that a BEGIN record and the records behind it make up, whatever was in the slot before:
      only a missing REQUEST_URI or REQUEST_METHOD lets an earlier request show through. */
  lemma RequestContentsAre(req: Request, begin: Record, rs: seq<Record>)
    requires ValidRecord(begin) && begin.typ == BEGIN_REQUEST && |begin.content| > 2
    requires forall r | r in rs :: ValidRecord(r) && r.typ != BEGIN_REQUEST
    ensures AfterRecords(req, [begin] + rs)
         == Request(LastUri(AllVisits(rs), req.uri), LastVerb(AllVisits(rs), req.verb), LastSession(AllVisits(rs), []),
                    Load16(begin.id1, begin.id0), begin.content[2] % 2 == 1, Accumulate([], Bodies(rs)))
  {
    assert ([begin] + rs)[1..] == rs;
    var next := AfterRecord(req, begin);
    StepsAreLast(next, rs);
    LastWins(next, AllVisits(rs));
  }

  predicate Named(vs: seq<Param>, name: seq<byte>) {
    exists v :: v in vs && v.name == name
  }

  lemma NamedLast(vs: seq<Param>, name: seq<byte>)
    requires vs != []
    ensures Named(vs, name) <==> vs[|vs| - 1].name == name || Named(Drop(vs), name)
  {
    assert vs == Drop(vs) + [vs[|vs| - 1]];
  }

  lemma {:induction false} LastOrBefore(vs: seq<Param>, x: seq<byte>, y: seq<byte>)
    ensures if Named(vs, Ascii("REQUEST_URI")) then LastUri(vs, x) == LastUri(vs, y) else LastUri(vs, x) == x
    ensures if Named(vs, Ascii("REQUEST_METHOD")) then LastVerb(vs, x) == LastVerb(vs, y) else LastVerb(vs, x) == x
    decreases |vs|
  {
    if vs != [] {
      NamedLast(vs, Ascii("REQUEST_URI"));
      NamedLast(vs, Ascii("REQUEST_METHOD"));
      LastOrBefore(Drop(vs), x, y);
    }
  }

  /** Nothing of an earlier request on the slot shows through. */
  ghost predicate Independent(begin: Record, rs: seq<Record>)
    requires ValidRecord(begin) && forall r | r in rs :: ValidRecord(r)
  {
    forall req, req' :: AfterRecords(req, [begin] + rs) == AfterRecords(req', [begin] + rs)
  }

  /** A request is independent of the earlier ones on its slot exactly when it names its URI and its method. */
  lemma IndependentIff(begin: Record, rs: seq<Record>)
    requires ValidRecord(begin) && begin.typ == BEGIN_REQUEST && |begin.content| > 2
    requires forall r | r in rs :: ValidRecord(r) && r.typ != BEGIN_REQUEST
    ensures Independent(begin, rs)
       <==> Named(AllVisits(rs), Ascii("REQUEST_URI")) && Named(AllVisits(rs), Ascii("REQUEST_METHOD"))
  {
    forall req, req' | Named(AllVisits(rs), Ascii("REQUEST_URI")) && Named(AllVisits(rs), Ascii("REQUEST_METHOD"))
      ensures AfterRecords(req, [begin] + rs) == AfterRecords(req', [begin] + rs)
    {
      RequestContentsAre(req, begin, rs);
      RequestContentsAre(req', begin, rs);
      LastOrBefore(AllVisits(rs), req.uri, req'.uri);
      LastOrBefore(AllVisits(rs), req.verb, req'.verb);
    }
    var a := Request([], [], [], 0, false, []);
    var b := Request([1], [1], [], 0, false, []);
    RequestContentsAre(a, begin, rs);
    RequestContentsAre(b, begin, rs);
    LastOrBefore(AllVisits(rs), [], [1]);
    LastOrBefore(AllVisits(rs), [1], []);
  }

  // ----- what the text fields hold -----

  /** The longest beginning of a value of at most `limit` bytes in which no stop stands. */
  predicate CutAt(u: seq<byte>, value: seq<byte>, limit: nat, stops: set<byte>) {
    u <= value && |u| <= limit && (forall b | b in u :: b !in stops)
    && (|u| < |value| && |u| < limit ==> value[|u|] in stops)
  }

  lemma CutUnique(u: seq<byte>, v: seq<byte>, value: seq<byte>, limit: nat, stops: set<byte>)
    requires CutAt(u, value, limit, stops) && CutAt(v, value, limit, stops)
    ensures u == v
  {
    Unstopped(u, value, limit, stops);
    Unstopped(v, value, limit, stops);
  }

  lemma Unstopped(u: seq<byte>, value: seq<byte>, limit: nat, stops: set<byte>)
    requires CutAt(u, value, limit, stops)
    ensures forall i :: 0 <= i < |u| ==> value[i] !in stops
  {
    forall i | 0 <= i < |u| ensures value[i] !in stops {
      assert u[i] in u;
    }
  }

  const QUERY: byte := '?' as byte

  lemma UriIsCut(value: seq<byte>)
    ensures CutAt(UriOf(value), value, 127, {0, QUERY})
  {
    var head := value[..Min(|value|, 127)];
    var path := Before(head, QUERY);
    assert CString(path) <= path;
    assert forall b | b in CString(path) :: b in path;
    if |CString(path)| < |path| {
      assert path[|CString(path)|] == head[|CString(path)|];
    }
  }

  lemma VerbIsCut(value: seq<byte>)
    ensures CutAt(VerbOf(value), value, 15, {0})
  {
  }

  /** The records' PARAMS contents are encodings of the list's pairs, in order, with no pair across two records. */
  ghost predicate Carries(rs: seq<Record>, ps: seq<Pair>)
    decreases |rs|
  {
    if rs == [] then ps == []
    else if rs[0].typ != PARAMS then Carries(rs[1..], ps)
    else exists k :: CarriesFirst(rs, ps, k)
  }

  ghost predicate CarriesFirst(rs: seq<Record>, ps: seq<Pair>, k: int)
    requires rs != []
    decreases |rs|, 0
  {
    0 <= k <= |ps| && (forall p | p in ps[..k] :: Encodable(p)) && rs[0].content == EncodePairs(ps[..k])
    && |rs[0].content| < 0x1_0000 && Carries(rs[1..], ps[k..])
  }

  lemma {:induction false} NamesJoin(ps: seq<Pair>, qs: seq<Pair>)
    ensures NamesAndValues(ps + qs) == NamesAndValues(ps) + NamesAndValues(qs)
  {
    if ps == [] {
      assert ps + qs == qs;
    } else {
      assert (ps + qs)[1..] == ps[1..] + qs;
      NamesJoin(ps[1..], qs);
    }
  }

  lemma {:induction false} CarriedVisits(rs: seq<Record>, ps: seq<Pair>)
    requires Carries(rs, ps)
    ensures AllVisits(rs) == NamesAndValues(ps)
    decreases |rs|
  {
    if rs != [] {
      if rs[0].typ == PARAMS {
        var k :| CarriesFirst(rs, ps, k);
        PairsRoundTrip(ps[..k]);
        CarriedVisits(rs[1..], ps[k..]);
        NamesJoin(ps[..k], ps[k..]);
        assert ps[..k] + ps[k..] == ps;
      } else {
        CarriedVisits(rs[1..], ps);
      }
    }
  }

  /** The pair at `i` is the last with its name. */
  predicate LastNamed(ps: seq<Pair>, i: nat) {
    i < |ps| && forall j :: i < j < |ps| ==> ps[j].name != ps[i].name
  }

  lemma {:induction false} NameAt(ps: seq<Pair>, i: nat)
    requires i < |ps|
    ensures |NamesAndValues(ps)| == |ps| && NamesAndValues(ps)[i] == Param(ps[i].name, ps[i].value)
  {
    if |ps| > 1 {
      NameAt(ps[1..], if i > 0 then i - 1 else 0);
    } else {
      assert NamesAndValues(ps[1..]) == [];
    }
  }

  lemma NamesDrop(ps: seq<Pair>)
    requires ps != []
    ensures var vs := NamesAndValues(ps);
      vs != [] && Drop(vs) == NamesAndValues(ps[..|ps| - 1])
      && vs[|vs| - 1] == Param(ps[|ps| - 1].name, ps[|ps| - 1].value)
  {
    var last := [ps[|ps| - 1]];
    assert ps == ps[..|ps| - 1] + last;
    NamesJoin(ps[..|ps| - 1], last);
    assert NamesAndValues(last) == [Param(last[0].name, last[0].value)];
  }

  lemma {:induction false} LastUriAt(ps: seq<Pair>, i: nat, before: seq<byte>)
    requires LastNamed(ps, i)
    ensures ps[i].name == Ascii("REQUEST_URI") ==> LastUri(NamesAndValues(ps), before) == UriOf(ps[i].value)
    ensures ps[i].name == Ascii("REQUEST_METHOD") ==> LastVerb(NamesAndValues(ps), before) == VerbOf(ps[i].value)
    decreases |ps|
  {
    NamesDrop(ps);
    if i < |ps| - 1 {
      LastUriAt(ps[..|ps| - 1], i, before);
    }
  }

  /** The request after the records of an encoded pair list: its URI is the last REQUEST_URI cut at 127 bytes, at the
      first `?` and at the first NUL, its method the last REQUEST_METHOD cut at 15 bytes and at the first NUL. */
  lemma FieldsAreCut(req: Request, begin: Record, rs: seq<Record>, ps: seq<Pair>, i: nat)
    requires ValidRecord(begin) && begin.typ == BEGIN_REQUEST && |begin.content| > 2
    requires (forall r | r in rs :: ValidRecord(r) && r.typ != BEGIN_REQUEST) && Carries(rs, ps) && LastNamed(ps, i)
    ensures var after := AfterRecords(req, [begin] + rs);
      (ps[i].name == Ascii("REQUEST_URI") ==> CutAt(after.uri, ps[i].value, 127, {0, QUERY}))
      && (ps[i].name == Ascii("REQUEST_METHOD") ==> CutAt(after.verb, ps[i].value, 15, {0}))
  {
    RequestContentsAre(req, begin, rs);
    CarriedVisits(rs, ps);
    LastUriAt(ps, i, req.uri);
    LastUriAt(ps, i, req.verb);
    UriIsCut(ps[i].value);
    VerbIsCut(ps[i].value);
  }

  /** A path of less than 127 bytes is stored without the query behind it; a value without query is stored up to
      127 bytes. */
  lemma UriIsPath(req: Request, begin: Record, rs: seq<Record>, ps: seq<Pair>, i: nat,
                  path: seq<byte>, query: seq<byte>)
    requires ValidRecord(begin) && begin.typ == BEGIN_REQUEST && |begin.content| > 2
    requires (forall r | r in rs :: ValidRecord(r) && r.typ != BEGIN_REQUEST) && Carries(rs, ps) && LastNamed(ps, i)
    requires ps[i].name == Ascii("REQUEST_URI") && 0 !in path && QUERY !in path
    ensures ps[i].value == path + [QUERY] + query && |path| < 127 ==> AfterRecords(req, [begin] + rs).uri == path
    ensures ps[i].value == path ==> AfterRecords(req, [begin] + rs).uri == path[..Min(|path|, 127)]
  {
    FieldsAreCut(req, begin, rs, ps, i);
    var uri := AfterRecords(req, [begin] + rs).uri;
    if ps[i].value == path + [QUERY] + query && |path| < 127 {
      assert (path + [QUERY] + query)[..|path|] == path;
      CutUnique(uri, path, ps[i].value, 127, {0, QUERY});
    }
    if ps[i].value == path {
      assert forall b | b in path[..Min(|path|, 127)] :: b in path;
      CutUnique(uri, path[..Min(|path|, 127)], path, 127, {0, QUERY});
    }
  }
}
