/** The profile and leaderboard replies of src/services/cg_router.c: their text, the JSON object that it is, and
    the bounds that keep it inside the handlers' buffers. */
module Replies {
  import opened Bytes
  import opened Division
  import opened Decimal
  import opened Json
  import opened JsonValue
  import opened ReplyWords
  import opened Users
  import opened Leaderboard

  // ----- the profile -----

  /** A literal that ends with an opening quote, a string and its closing quote, then the rest. */
  function StrText(lit: seq<byte>, s: seq<byte>, rest: seq<byte>): seq<byte> {
    lit + (Escape(s) + [QUOTE] + rest)
  }

  function NumText(lit: seq<byte>, n: nat, rest: seq<byte>): seq<byte> {
    lit + (Text(n) + rest)
  }

  function HashesText(hashes: seq<u64>, first: bool, rest: seq<byte>): seq<byte> {
    if hashes == [] then rest
    else NumText(Comma(first) + [QUOTE], hashes[0], [QUOTE] + HashesText(hashes[1..], false, rest))
  }

  /** The whole reply: the header, then one literal after the other with the user's fields between them. */
  function ProfileText(w: Words, u: User): seq<byte> {
    StrText(w.header + NameKey(w), u.name, AfterName(w, u))
  }

  function AfterName(w: Words, u: User): seq<byte> {
    NumText(PointsKey(w), u.points, AfterPoints(w, u))
  }

  function AfterPoints(w: Words, u: User): seq<byte> {
    NumText(CountKey(w), |u.completed|, AfterCount(w, u))
  }

  function AfterCount(w: Words, u: User): seq<byte> {
    StrText(DescriptionKey(w), u.description, AfterDescription(w, u))
  }

  function AfterDescription(w: Words, u: User): seq<byte> {
    HashesKey(w) + HashesText(u.completed, true, END)
  }

  // ----- what the profile says -----

  function HashValues(hashes: seq<u64>): seq<Value> {
    if hashes == [] then [] else [Str(Text(hashes[0]))] + HashValues(hashes[1..])
  }

  /** The profile as a JSON object. */
  function ProfileValue(w: Words, u: User): Value {
    Obj([Member(w.status, Str(w.success)),
         Member(w.username, Str(u.name)),
         Member(w.guest, Bool(false)),
         Member(w.points, Num(u.points)),
         Member(w.count, Num(|u.completed|)),
         Member(w.description, Str(u.description)),
         Member(w.hashes, List(HashValues(u.completed)))])
  }

  lemma DigitsArePlain(n: nat)
    ensures Escape(Text(n)) == Text(n) && Kept(Text(n)) == Text(n)
  {
    PlainKept(Text(n));
  }

  lemma {:induction false} HashesAreItems(hashes: seq<u64>, first: bool, rest: seq<byte>)
    ensures HashesText(hashes, first, [CLOSE] + rest) == ItemsText(HashValues(hashes), first, rest)
  {
    if hashes != [] {
      var digits, more := Text(hashes[0]), HashesText(hashes[1..], false, [CLOSE] + rest);
      HashesAreItems(hashes[1..], false, rest);
      DigitsArePlain(hashes[0]);
      assert HashValues(hashes)[1..] == HashValues(hashes[1..]);
      assert Comma(first) + [QUOTE] + (digits + ([QUOTE] + more))
          == Comma(first) + ([QUOTE] + (digits + [QUOTE] + more));
    }
  }

  lemma HashesPart(name: seq<byte>, hashes: seq<u64>)
    requires Plain(name)
    ensures Key(COMMA, name, [OPEN]) + HashesText(hashes, true, END)
         == MembersText([Member(name, List(HashValues(hashes)))], false, [])
  {
    var m := Member(name, List(HashValues(hashes)));
    HashesAreItems(hashes, true, [CLOSE_BRACE]);
    assert [CLOSE] + [CLOSE_BRACE] == END && [CLOSE_BRACE] + [] == [CLOSE_BRACE];
    MemberPart(m, [OPEN], HashesText(hashes, true, END), [], []);
    assert [m] + [] == [m];
  }

  lemma StrPart(name: seq<byte>, s: seq<byte>, more: seq<byte>, ms: seq<Member>)
    requires Plain(name) && more == MembersText(ms, false, [])
    ensures StrText(Key(COMMA, name, [QUOTE]), s, more) == MembersText([Member(name, Str(s))] + ms, false, [])
  {
    MemberPart(Member(name, Str(s)), [QUOTE], Escape(s) + [QUOTE] + more, ms, []);
  }

  lemma NumPart(name: seq<byte>, n: nat, more: seq<byte>, ms: seq<Member>)
    requires Plain(name) && more == MembersText(ms, false, [])
    ensures NumText(Key(COMMA, name, []), n, more) == MembersText([Member(name, Num(n))] + ms, false, [])
  {
    assert [] + (Text(n) + more) == Text(n) + more;
    MemberPart(Member(name, Num(n)), [], Text(n) + more, ms, []);
  }

  lemma GuestPart(w: Words, n: nat, more: seq<byte>, ms: seq<Member>)
    requires WordsOk(w) && more == MembersText(ms, false, [])
    ensures NumText(PointsKey(w), n, more)
         == MembersText([Member(w.guest, Bool(false))] + ([Member(w.points, Num(n))] + ms), false, [])
  {
    var tail := NumText(Key(COMMA, w.points, []), n, more);
    NumPart(w.points, n, more, ms);
    MemberPart(Member(w.guest, Bool(false)), Ascii("false"), tail, [Member(w.points, Num(n))] + ms, []);
    assert Key(COMMA, w.guest, Ascii("false")) + Key(COMMA, w.points, []) + (Text(n) + more)
        == Key(COMMA, w.guest, Ascii("false")) + tail;
  }

  lemma AfterNameIs(w: Words, u: User) returns (ms: seq<Member>)
    requires WordsOk(w)
    ensures AfterName(w, u) == MembersText(ms, false, [])
    ensures ms == [Member(w.guest, Bool(false)), Member(w.points, Num(u.points)), Member(w.count, Num(|u.completed|)),
                   Member(w.description, Str(u.description)), Member(w.hashes, List(HashValues(u.completed)))]
  {
    ms := [Member(w.hashes, List(HashValues(u.completed)))];
    HashesPart(w.hashes, u.completed);
    StrPart(w.description, u.description, AfterDescription(w, u), ms);
    ms := [Member(w.description, Str(u.description))] + ms;
    NumPart(w.count, |u.completed|, AfterCount(w, u), ms);
    ms := [Member(w.count, Num(|u.completed|))] + ms;
    GuestPart(w, u.points, AfterPoints(w, u), ms);
    ms := [Member(w.guest, Bool(false))] + ([Member(w.points, Num(u.points))] + ms);
  }

  lemma ProfileIsValue(w: Words, u: User)
    requires WordsOk(w)
    ensures ProfileText(w, u) == w.header + ValueText(ProfileValue(w, u), [])
  {
    var ms := AfterNameIs(w, u);
    var tail := StrText(Key(COMMA, w.username, [QUOTE]), u.name, AfterName(w, u));
    StrPart(w.username, u.name, AfterName(w, u), ms);
    StatusPart(w, tail, [Member(w.username, Str(u.name))] + ms);
    HeadGrouped(w.header, StatusKey(w), Key(COMMA, w.username, [QUOTE]), Escape(u.name) + [QUOTE] + AfterName(w, u));
    assert ProfileValue(w, u).members
        == [Member(w.status, Str(w.success))] + ([Member(w.username, Str(u.name))] + ms);
  }

  lemma HeadGrouped(header: seq<byte>, a: seq<byte>, b: seq<byte>, rest: seq<byte>)
    ensures header + (a + b) + rest == header + (a + (b + rest))
  {
  }

  /** The user without the dropped control bytes in its texts. */
  function KeptUser(u: User): User {
    u.(name := Kept(u.name), description := Kept(u.description))
  }

  lemma {:induction false} HashesKept(hashes: seq<u64>)
    ensures KeptItems(HashValues(hashes)) == HashValues(hashes)
  {
    if hashes != [] {
      DigitsArePlain(hashes[0]);
      HashesKept(hashes[1..]);
      assert HashValues(hashes)[1..] == HashValues(hashes[1..]);
    }
  }

  /** The member without the dropped control bytes. */
  function KeptMember(m: Member): Member {
    Member(Kept(m.name), KeptValue(m.val))
  }

  lemma {:induction false} MembersKept(ms: seq<Member>, ks: seq<Member>)
    requires |ms| == |ks| && forall i :: 0 <= i < |ms| ==> ks[i] == KeptMember(ms[i])
    ensures KeptMembers(ms) == ks
  {
    if ms != [] {
      MembersKept(ms[1..], ks[1..]);
      assert ks == [ks[0]] + ks[1..];
    }
  }

  lemma TextKept(name: seq<byte>, s: seq<byte>)
    requires Plain(name)
    ensures KeptMember(Member(name, Str(s))) == Member(name, Str(Kept(s)))
  {
    PlainKept(name);
  }

  lemma FactKept(name: seq<byte>, v: Value)
    requires Plain(name) && (v.Num? || v.Bool?)
    ensures KeptMember(Member(name, v)) == Member(name, v)
  {
    PlainKept(name);
  }

  lemma ListKept(name: seq<byte>, vs: seq<Value>, ks: seq<Value>)
    requires Plain(name) && KeptItems(vs) == ks
    ensures KeptMember(Member(name, List(vs))) == Member(name, List(ks))
  {
    PlainKept(name);
  }

  lemma StatusKept(w: Words)
    requires WordsOk(w)
    ensures KeptMember(Member(w.status, Str(w.success))) == Member(w.status, Str(w.success))
  {
    TextKept(w.status, w.success);
    PlainKept(w.success);
  }

  lemma ProfileKept(w: Words, u: User)
    requires WordsOk(w)
    ensures KeptValue(ProfileValue(w, u)) == ProfileValue(w, KeptUser(u))
  {
    var ms, ks := ProfileValue(w, u).members, ProfileValue(w, KeptUser(u)).members;
    StatusKept(w);
    TextKept(w.username, u.name);
    FactKept(w.guest, Bool(false));
    FactKept(w.points, Num(u.points));
    FactKept(w.count, Num(|u.completed|));
    TextKept(w.description, u.description);
    HashesKept(u.completed);
    ListKept(w.hashes, HashValues(u.completed), HashValues(u.completed));
    MembersKept(ms, ks);
  }

  /** Whatever the user wrote in the name and the description, the reply is the header and one JSON object with
      these seven members: that user's data. */
  lemma ProfileReadsBack(w: Words, u: User)
    requires WordsOk(w)
    ensures w.header <= ProfileText(w, u)
    ensures ReadValue(ProfileText(w, u)[|w.header|..]) == Some((ProfileValue(w, KeptUser(u)), []))
  {
    ProfileIsValue(w, u);
    ProfileKept(w, u);
    TextReadsBack(ProfileValue(w, u));
    BehindHeader(w.header, ValueText(ProfileValue(w, u), []));
  }

  lemma BehindHeader(header: seq<byte>, body: seq<byte>)
    ensures header <= header + body && (header + body)[|header|..] == body
  {
  }

  // ----- the leaderboard -----

  datatype Entry = Entry(name: seq<byte>, points: int)

  function EntryOf(u: User): Entry {
    Entry(u.name, u.points)
  }

  function Entries(users: seq<User>, s: seq<nat>): (es: seq<Entry>)
    requires forall k :: 0 <= k < |s| ==> s[k] < |users|
    ensures |es| == |s|
  {
    if s == [] then [] else [EntryOf(users[s[0]])] + Entries(users, s[1..])
  }

  predicate EntryOk(e: Entry) {
    |e.name| <= NAME_MAX && 0 <= e.points < 0x1_0000_0000
  }

  predicate EntriesOk(es: seq<Entry>) {
    forall k :: 0 <= k < |es| ==> EntryOk(es[k])
  }

  function EntryText(w: Words, e: Entry, first: bool, rest: seq<byte>): seq<byte>
    requires EntryOk(e)
  {
    StrText(Comma(first) + EntryKey(w), e.name, NumText(EntryPointsKey(w), e.points, [CLOSE_BRACE] + rest))
  }

  function EntriesText(w: Words, es: seq<Entry>, first: bool, rest: seq<byte>): seq<byte>
    requires EntriesOk(es)
  {
    if es == [] then rest
    else EntryText(w, es[0], first, EntriesText(w, es[1..], false, rest))
  }

  function BoardText(w: Words, es: seq<Entry>): seq<byte>
    requires EntriesOk(es)
  {
    w.header + BoardKey(w) + EntriesText(w, es, true, END)
  }

  // ----- what the leaderboard says -----

  function EntryValue(w: Words, e: Entry): Value
    requires EntryOk(e)
  {
    Obj([Member(w.username, Str(e.name)), Member(w.score, Num(e.points))])
  }

  function EntryValues(w: Words, es: seq<Entry>): seq<Value>
    requires EntriesOk(es)
  {
    if es == [] then [] else [EntryValue(w, es[0])] + EntryValues(w, es[1..])
  }

  /** The leaderboard as a JSON object. */
  function BoardValue(w: Words, es: seq<Entry>): Value
    requires EntriesOk(es)
  {
    Obj([Member(w.status, Str(w.success)), Member(w.board, List(EntryValues(w, es)))])
  }

  lemma EntryIsValue(w: Words, e: Entry, first: bool, rest: seq<byte>)
    requires WordsOk(w) && EntryOk(e)
    ensures EntryText(w, e, first, rest) == Comma(first) + ValueText(EntryValue(w, e), rest)
  {
    var name, score := Member(w.username, Str(e.name)), Member(w.score, Num(e.points));
    var last := NumText(EntryPointsKey(w), e.points, [CLOSE_BRACE] + rest);
    var digits := Text(e.points) + ([CLOSE_BRACE] + rest);
    assert [] + digits == digits;
    MemberPart(score, [], digits, [], rest);
    assert [score] + [] == [score];
    ObjectPart(name, [QUOTE], Escape(e.name) + [QUOTE] + last, [score], rest);
    assert [name] + [score] == [name, score];
    FirstGrouped(Comma(first), EntryKey(w), Escape(e.name) + [QUOTE] + last);
  }

  lemma FirstGrouped(a: seq<byte>, b: seq<byte>, rest: seq<byte>)
    ensures a + b + rest == a + (b + rest)
  {
  }

  lemma {:induction false} EntriesAreItems(w: Words, es: seq<Entry>, first: bool, rest: seq<byte>)
    requires WordsOk(w) && EntriesOk(es)
    ensures EntriesText(w, es, first, [CLOSE] + rest) == ItemsText(EntryValues(w, es), first, rest)
  {
    if es != [] {
      EntriesAreItems(w, es[1..], false, rest);
      EntryIsValue(w, es[0], first, EntriesText(w, es[1..], false, [CLOSE] + rest));
      assert EntryValues(w, es)[1..] == EntryValues(w, es[1..]);
    }
  }

  lemma BoardIsValue(w: Words, es: seq<Entry>)
    requires WordsOk(w) && EntriesOk(es)
    ensures BoardText(w, es) == w.header + ValueText(BoardValue(w, es), [])
  {
    var list, rest := Member(w.board, List(EntryValues(w, es))), EntriesText(w, es, true, END);
    EntriesAreItems(w, es, true, [CLOSE_BRACE]);
    assert [CLOSE] + [CLOSE_BRACE] == END && [CLOSE_BRACE] + [] == [CLOSE_BRACE];
    MemberPart(list, [OPEN], rest, [], []);
    assert [list] + [] == [list];
    StatusPart(w, Key(COMMA, w.board, [OPEN]) + rest, [list]);
    assert [Member(w.status, Str(w.success))] + [list] == [Member(w.status, Str(w.success)), list];
    HeadGrouped(w.header, StatusKey(w), Key(COMMA, w.board, [OPEN]), rest);
  }

  lemma {:induction false} KeptLength(s: seq<byte>)
    ensures |Kept(s)| <= |s|
  {
    if s != [] {
      KeptLength(s[1..]);
    }
  }

  function KeptEntries(es: seq<Entry>): (r: seq<Entry>)
    requires EntriesOk(es)
    ensures EntriesOk(r)
  {
    if es == [] then [] else KeptLength(es[0].name); [es[0].(name := Kept(es[0].name))] + KeptEntries(es[1..])
  }

  lemma EntryKept(w: Words, e: Entry, k: Entry)
    requires WordsOk(w) && EntryOk(e) && EntryOk(k) && k == e.(name := Kept(e.name))
    ensures KeptValue(EntryValue(w, e)) == EntryValue(w, k)
  {
    var ms := EntryValue(w, e).members;
    TextKept(w.username, e.name);
    FactKept(w.score, Num(e.points));
    MembersKept(ms, EntryValue(w, k).members);
  }

  lemma {:induction false} EntriesKept(w: Words, es: seq<Entry>)
    requires WordsOk(w) && EntriesOk(es)
    ensures KeptItems(EntryValues(w, es)) == EntryValues(w, KeptEntries(es))
  {
    if es != [] {
      var k := KeptEntries(es);
      EntriesKept(w, es[1..]);
      EntryKept(w, es[0], k[0]);
      assert EntryValues(w, es)[1..] == EntryValues(w, es[1..]) && k[1..] == KeptEntries(es[1..]);
    }
  }

  lemma BoardKept(w: Words, es: seq<Entry>)
    requires WordsOk(w) && EntriesOk(es)
    ensures KeptValue(BoardValue(w, es)) == BoardValue(w, KeptEntries(es))
  {
    var ms := BoardValue(w, es).members;
    EntriesKept(w, es);
    StatusKept(w);
    ListKept(w.board, EntryValues(w, es), EntryValues(w, KeptEntries(es)));
    MembersKept(ms, BoardValue(w, KeptEntries(es)).members);
  }

  /** The leaderboard reply is the header and one JSON object with the listed names and points, in order. */
  lemma BoardReadsBack(w: Words, es: seq<Entry>)
    requires WordsOk(w) && EntriesOk(es)
    ensures w.header <= BoardText(w, es)
    ensures ReadValue(BoardText(w, es)[|w.header|..]) == Some((BoardValue(w, KeptEntries(es)), []))
  {
    BoardIsValue(w, es);
    BoardKept(w, es);
    TextReadsBack(BoardValue(w, es));
    BehindHeader(w.header, ValueText(BoardValue(w, es), []));
  }

  // ----- the bounds -----

  lemma ShortText(n: nat)
    ensures n < 0x1_0000_0000 ==> |Text(n)| <= 10
    ensures n < LIMIT64 ==> |Text(n)| <= 20
  {
    Pow10Values();
    if n < 0x1_0000_0000 {
      TextLength(n, 10);
    } else if n < LIMIT64 {
      TextLength(n, 20);
    }
  }

  lemma {:induction false} HashesLength(hashes: seq<u64>, first: bool, rest: seq<byte>)
    ensures |HashesText(hashes, first, rest)| <= |rest| + 23 * |hashes|
  {
    if hashes != [] {
      HashesLength(hashes[1..], false, rest);
      ShortText(hashes[0]);
    }
  }

  /** The bounds that every run keeps on a user put the profile inside the handler's 8192 bytes. */
  lemma ProfileFits(w: Words, u: User)
    requires WordsOk(w) && UserOk(u)
    ensures |ProfileText(w, u)| <= 8192
  {
    HashesLength(u.completed, true, END);
    ShortText(|u.completed|);
    ShortText(u.points);
  }

  lemma EntryLength(w: Words, e: Entry, first: bool, rest: seq<byte>)
    requires WordsOk(w) && EntryOk(e)
    ensures |EntryText(w, e, first, rest)| <= |rest| + 155
  {
    ShortText(e.points);
  }

  lemma {:induction false} EntriesLength(w: Words, es: seq<Entry>, first: bool, rest: seq<byte>)
    requires WordsOk(w) && EntriesOk(es)
    ensures |EntriesText(w, es, first, rest)| <= |rest| + 155 * |es|
  {
    if es != [] {
      EntriesLength(w, es[1..], false, rest);
      EntryLength(w, es[0], first, EntriesText(w, es[1..], false, rest));
    }
  }

  /** Ten entries put the leaderboard inside the handler's 2048 bytes. */
  lemma BoardFits(w: Words, es: seq<Entry>)
    requires WordsOk(w) && EntriesOk(es) && |es| <= TOP
    ensures |BoardText(w, es)| <= 2048
  {
    EntriesLength(w, es, true, END);
  }

  lemma {:induction false} EntriesAre(users: seq<User>, s: seq<nat>)
    requires (forall k :: 0 <= k < |s| ==> s[k] < |users|) && forall i :: 0 <= i < |users| ==> UserOk(users[i])
    ensures EntriesOk(Entries(users, s))
  {
    if s != [] {
      EntriesAre(users, s[1..]);
    }
  }

  /** What the leaderboard of a pool lists. */
  function Board(users: seq<User>): (es: seq<Entry>)
    requires forall i :: 0 <= i < |users| ==> UserOk(users[i])
    ensures EntriesOk(es) && |es| <= TOP
  {
    EntriesAre(users, Cut(Ranked(users, |users|)));
    Entries(users, Cut(Ranked(users, |users|)))
  }

  /** After any run of the user pool, every profile and the leaderboard fit their buffers. */
  lemma RepliesFit(w: Words, p: Pool, ops: seq<UserOp>)
    requires WordsOk(w) && PoolOk(p)
    ensures PoolOk(Users.ApplyAll(p, ops))
    ensures forall u | u in Users.ApplyAll(p, ops).users :: |ProfileText(w, u)| <= 8192
    ensures |BoardText(w, Board(Users.ApplyAll(p, ops).users))| <= 2048
  {
    RunKeeps(p, ops);
    var users := Users.ApplyAll(p, ops).users;
    forall u | u in users ensures |ProfileText(w, u)| <= 8192 {
      ProfileFits(w, u);
    }
    BoardFits(w, Board(users));
  }

  // ----- building the text -----

  /** Literal, escaped string, and the quote that opens the next literal. */
  method AppendStrField(buf: array<byte>, p: nat, lit: seq<byte>, s: seq<byte>, ghost rest: seq<byte>) returns (q: nat)
    requires p + |StrText(lit, s, rest)| <= buf.Length
    modifies buf
    ensures q + |rest| == p + |StrText(lit, s, rest)|
    ensures buf[..q] + rest == old(buf[..p]) + StrText(lit, s, rest)
  {
    ghost var done := buf[..p];
    q := AppendStr(buf, p, lit);
    q := AppendJsonEscaped(buf, q, s);
    q := AppendStr(buf, q, [QUOTE]);
    assert done + lit + Escape(s) + [QUOTE] + rest == done + (lit + (Escape(s) + [QUOTE] + rest));
  }

  method AppendNumField(buf: array<byte>, p: nat, lit: seq<byte>, n: u64, ghost rest: seq<byte>) returns (q: nat)
    requires p + |NumText(lit, n, rest)| <= buf.Length
    modifies buf
    ensures q + |rest| == p + |NumText(lit, n, rest)|
    ensures buf[..q] + rest == old(buf[..p]) + NumText(lit, n, rest)
  {
    ghost var done := buf[..p];
    q := AppendStr(buf, p, lit);
    q := AppendUint(buf, q, n);
    assert done + lit + Text(n) + rest == done + (lit + (Text(n) + rest));
  }

  method AppendLiteral(buf: array<byte>, p: nat, lit: seq<byte>, ghost rest: seq<byte>) returns (q: nat)
    requires p + |lit + rest| <= buf.Length
    modifies buf
    ensures q + |rest| == p + |lit + rest|
    ensures buf[..q] + rest == old(buf[..p]) + (lit + rest)
  {
    ghost var done := buf[..p];
    q := AppendStr(buf, p, lit);
    assert done + lit + rest == done + (lit + rest);
  }

  /** The loop over the completed hashes. */
  method AppendHashes(buf: array<byte>, p: nat, hashes: seq<u64>, ghost rest: seq<byte>) returns (q: nat)
    requires p + |HashesText(hashes, true, rest)| <= buf.Length
    modifies buf
    ensures q + |rest| == p + |HashesText(hashes, true, rest)|
    ensures buf[..q] + rest == old(buf[..p]) + HashesText(hashes, true, rest)
  {
    q := p;
    ghost var goal := buf[..p] + HashesText(hashes, true, rest);
    assert hashes[0..] == hashes;
    for i := 0 to |hashes|
      invariant q + |HashesText(hashes[i..], i == 0, rest)| == |goal|
      invariant buf[..q] + HashesText(hashes[i..], i == 0, rest) == goal
    {
      ghost var more := HashesText(hashes[i + 1..], false, rest);
      assert hashes[i..][1..] == hashes[i + 1..];
      q := AppendNumField(buf, q, Comma(i == 0) + [QUOTE], hashes[i], [QUOTE] + more);
      q := AppendLiteral(buf, q, [QUOTE], more);
    }
  }

  method AppendFromCount(w: Words, buf: array<byte>, p: nat, u: User) returns (q: nat)
    requires UserOk(u) && p + |AfterPoints(w, u)| <= buf.Length
    modifies buf
    ensures q == p + |AfterPoints(w, u)| && buf[..q] == old(buf[..p]) + AfterPoints(w, u)
  {
    q := AppendNumField(buf, p, CountKey(w), |u.completed|, AfterCount(w, u));
    q := AppendStrField(buf, q, DescriptionKey(w), u.description, AfterDescription(w, u));
    q := AppendLiteral(buf, q, HashesKey(w), HashesText(u.completed, true, END));
    q := AppendHashes(buf, q, u.completed, END);
    assert END + [] == END;
    q := AppendLiteral(buf, q, END, []);
    assert buf[..q] + [] == buf[..q];
  }

  /** The profile of a registered user, built in the handler's buffer. */
  method ProfileReply(w: Words, u: User) returns (resp: array<byte>, len: nat)
    requires WordsOk(w) && UserOk(u)
    ensures fresh(resp) && resp.Length == 8192 && len <= 8192 && resp[..len] == ProfileText(w, u)
  {
    ProfileFits(w, u);
    resp := new byte[8192];
    len := AppendStrField(resp, 0, w.header + NameKey(w), u.name, AfterName(w, u));
    len := AppendNumField(resp, len, PointsKey(w), u.points, AfterPoints(w, u));
    len := AppendFromCount(w, resp, len, u);
  }

  method AppendEntry(w: Words, buf: array<byte>, p: nat, e: Entry, first: bool, ghost rest: seq<byte>) returns (q: nat)
    requires EntryOk(e) && p + |EntryText(w, e, first, rest)| <= buf.Length
    modifies buf
    ensures q + |rest| == p + |EntryText(w, e, first, rest)|
    ensures buf[..q] + rest == old(buf[..p]) + EntryText(w, e, first, rest)
  {
    ghost var last := NumText(EntryPointsKey(w), e.points, [CLOSE_BRACE] + rest);
    q := AppendStrField(buf, p, Comma(first) + EntryKey(w), e.name, last);
    q := AppendNumField(buf, q, EntryPointsKey(w), e.points, [CLOSE_BRACE] + rest);
    q := AppendLiteral(buf, q, [CLOSE_BRACE], rest);
  }

  /** The loop over the list, up to its first null. */
  method AppendEntries(w: Words, buf: array<byte>, p: nat, users: array<User>, top: array<Option<nat>>,
                       ghost s: seq<nat>, ghost rest: seq<byte>) returns (q: nat)
    requires buf as object != top as object && buf as object != users as object
    requires top.Length == TOP && |s| <= TOP && top[..] == Slots(s)
    requires forall k :: 0 <= k < |s| ==> s[k] < users.Length
    requires EntriesOk(Entries(users[..], s)) && p + |EntriesText(w, Entries(users[..], s), true, rest)| <= buf.Length
    modifies buf
    ensures q + |rest| == p + |EntriesText(w, Entries(users[..], s), true, rest)|
    ensures buf[..q] + rest == old(buf[..p]) + EntriesText(w, Entries(users[..], s), true, rest)
  {
    q := p;
    ghost var es := Entries(users[..], s);
    ghost var goal := buf[..p] + EntriesText(w, es, true, rest);
    var i := 0;
    assert es[0..] == es;
    while i < TOP && top[i].Some?
      invariant i <= |es| && q + |EntriesText(w, es[i..], i == 0, rest)| == |goal|
      invariant buf[..q] + EntriesText(w, es[i..], i == 0, rest) == goal
    {
      EntryListed(users[..], top[..], s, i);
      EntriesUnfold(w, es, i, rest);
      q := AppendEntry(w, buf, q, EntryOf(users[top[i].value]), i == 0, EntriesText(w, es[i + 1..], false, rest));
      i := i + 1;
    }
    assert i < TOP ==> top[..][i] == Slots(s)[i];
  }

  lemma EntryListed(users: seq<User>, top: seq<Option<nat>>, s: seq<nat>, i: nat)
    requires i < TOP && top == Slots(s) && top[i].Some? && forall k :: 0 <= k < |s| ==> s[k] < |users|
    ensures i < |s| && top[i].value < |users| && Entries(users, s)[i] == EntryOf(users[top[i].value])
  {
    EntryAt(users, s, i);
  }

  lemma EntriesUnfold(w: Words, es: seq<Entry>, i: nat, rest: seq<byte>)
    requires EntriesOk(es) && i < |es|
    ensures EntriesText(w, es[i..], i == 0, rest)
         == EntryText(w, es[i], i == 0, EntriesText(w, es[i + 1..], false, rest))
  {
    assert es[i..][1..] == es[i + 1..];
  }

  lemma {:induction false} EntryAt(users: seq<User>, s: seq<nat>, i: nat)
    requires i < |s| && forall k :: 0 <= k < |s| ==> s[k] < |users|
    ensures Entries(users, s)[i] == EntryOf(users[s[i]])
  {
    if i > 0 {
      EntryAt(users, s[1..], i - 1);
    }
  }

  /** The leaderboard handler: the text lists the first ten of the ranking of all active users. */
  method LeaderboardReply(w: Words, users: array<User>) returns (resp: array<byte>, len: nat)
    requires WordsOk(w) && forall i :: 0 <= i < users.Length ==> UserOk(users[i])
    ensures fresh(resp) && resp.Length == 2048 && len <= 2048 && resp[..len] == BoardText(w, Board(users[..]))
  {
    ghost var es := Board(users[..]);
    BoardFits(w, es);
    var top := Select(users);
    resp := new byte[2048];
    assert w.header + BoardKey(w) + EntriesText(w, es, true, END) == BoardText(w, es);
    len := AppendLiteral(resp, 0, w.header + BoardKey(w), EntriesText(w, es, true, END));
    len := AppendEntries(w, resp, len, users, top, Cut(Ranked(users[..], users.Length)), END);
    assert END + [] == END;
    len := AppendLiteral(resp, len, END, []);
    assert resp[..len] + [] == resp[..len];
  }
}
