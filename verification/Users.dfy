/** The user pool of src/data/cg_userdb.c, and the profile and completion updates that
    src/services/cg_router.c makes to it. */
module Users {
  import opened Bytes
  import opened Counting
  import opened Division

  const POOL_SIZE: nat := 1024
  const NAME_MAX: nat := 31
  const DESCRIPTION_MAX: nat := 2047
  const HASHES_MAX: nat := 32

  /** An entry; text fields are the C strings in its buffers, `completed` the first `completed_count` hashes. */
  datatype User = User(id: nat, name: seq<byte>, description: seq<byte>, passHash: nat,
                       points: u32, completed: seq<u64>, active: bool)

  datatype Pool = Pool(users: seq<User>, count: nat)

  predicate Distinct(s: seq<u64>) {
    forall i, j :: 0 <= i < j < |s| ==> s[i] != s[j]
  }

  predicate UserOk(u: User) {
    |u.name| <= NAME_MAX && |u.description| <= DESCRIPTION_MAX && |u.completed| <= HASHES_MAX && Distinct(u.completed)
  }

  function Active(): User -> bool {
    (u: User) => u.active
  }

  /** What every operation keeps: bounded fields, slot ids, and the count of active entries. */
  ghost predicate PoolOk(p: Pool) {
    |p.users| == POOL_SIZE && p.count == Count(p.users, Active())
    && forall i :: 0 <= i < |p.users| ==> UserOk(p.users[i]) && (p.users[i].active ==> p.users[i].id == i + 1)
  }

  function FindName(users: seq<User>, name: seq<byte>): (r: Option<nat>)
    ensures r.Some? ==> r.value < |users| && users[r.value].active && users[r.value].name == name
    ensures r.None? ==> forall i :: 0 <= i < |users| && users[i].active ==> users[i].name != name
  {
    if users == [] then None
    else if users[0].active && users[0].name == name then Some(0)
    else match FindName(users[1..], name) case None => None case Some(i) => Some(i + 1)
  }

  function FindId(users: seq<User>, id: nat): (r: Option<nat>)
    ensures r.Some? ==> r.value < |users| && users[r.value].active && users[r.value].id == id
    ensures r.None? ==> forall i :: 0 <= i < |users| && users[i].active ==> users[i].id != id
  {
    if users == [] then None
    else if users[0].active && users[0].id == id then Some(0)
    else match FindId(users[1..], id) case None => None case Some(i) => Some(i + 1)
  }

  function FirstInactive(users: seq<User>): (r: Option<nat>)
    ensures r.Some? ==> r.value < |users| && !users[r.value].active
    ensures r.None? ==> forall i :: 0 <= i < |users| ==> users[i].active
  {
    if users == [] then None
    else if !users[0].active then Some(0)
    else match FirstInactive(users[1..]) case None => None case Some(i) => Some(i + 1)
  }

  function Truncated(s: seq<byte>, n: nat): seq<byte> {
    s[..Min(|s|, n)]
  }

  /** `cg_userdb_create` with the password's hash: the result code and the pool. */
  function CreateUser(p: Pool, name: seq<byte>, passHash: nat): (r: (int, Pool))
    ensures |r.1.users| == |p.users|
  {
    if FindName(p.users, name).Some? then (1, p)
    else match FirstInactive(p.users)
      case None => (2, p)
      case Some(i) => (0, Pool(p.users[i := User(i + 1, Truncated(name, NAME_MAX), [], passHash, 0, [], true)],
          p.count + 1))
  }

  /** `cg_userdb_delete`. */
  function DeleteUser(p: Pool, id: nat): (r: (int, Pool))
    ensures |r.1.users| == |p.users|
  {
    match FindId(p.users, id)
    case None => (1, p)
    case Some(i) => (0, Pool(p.users[i := p.users[i].(active := false)], if p.count > 0 then p.count - 1 else 0))
  }

  /** The profile update: a description is cut to its field. */
  function Describe(p: Pool, id: nat, text: seq<byte>): (r: Pool)
    ensures |r.users| == |p.users|
  {
    match FindId(p.users, id)
    case None => p
    case Some(i) => p.(users := p.users[i := p.users[i].(description := Truncated(text, DESCRIPTION_MAX))])
  }

  /** A solved challenge: points are added, and its hash is recorded unless it is there or the record is full. */
  function Solve(u: User, hash: u64, earned: u32): User {
    u.(points := (u.points as int + earned as int) % 0x1_0000_0000,
       completed := if hash in u.completed || |u.completed| >= HASHES_MAX then u.completed else u.completed + [hash])
  }

  function SolveFor(p: Pool, id: nat, hash: u64, earned: u32): (r: Pool)
    ensures |r.users| == |p.users|
  {
    match FindId(p.users, id)
    case None => p
    case Some(i) => p.(users := p.users[i := Solve(p.users[i], hash, earned)])
  }

  datatype UserOp =
    | Register(name: seq<byte>, passHash: nat)
    | Remove(id: nat)
    | Update(id: nat, text: seq<byte>)
    | Complete(id: nat, hash: u64, earned: u32)

  function Apply(p: Pool, op: UserOp): (r: Pool)
    ensures |r.users| == |p.users|
  {
    match op
    case Register(name, passHash) => CreateUser(p, name, passHash).1
    case Remove(id) => DeleteUser(p, id).1
    case Update(id, text) => Describe(p, id, text)
    case Complete(id, hash, earned) => SolveFor(p, id, hash, earned)
  }

  function ApplyAll(p: Pool, ops: seq<UserOp>): (r: Pool)
    ensures |r.users| == |p.users|
    decreases |ops|
  {
    if ops == [] then p else ApplyAll(Apply(p, ops[0]), ops[1..])
  }

  lemma ApplyKeeps(p: Pool, op: UserOp)
    requires PoolOk(p)
    ensures PoolOk(Apply(p, op))
  {
    var p' := Apply(p, op);
    var at := match op
      case Register(name, _) => if FindName(p.users, name).Some? then None else FirstInactive(p.users)
      case Remove(id) => FindId(p.users, id)
      case Update(id, _) => FindId(p.users, id)
      case Complete(id, _, _) => FindId(p.users, id);
    if at.Some? {
      ReplacedKeeps(p, p', at.value, p'.users[at.value]);
    }
  }

  /** One entry is replaced, and the count follows. */
  lemma ReplacedKeeps(p: Pool, p': Pool, i: nat, u: User)
    requires PoolOk(p) && i < POOL_SIZE && UserOk(u) && (u.active ==> u.id == i + 1)
    requires p'.users == p.users[i := u]
    requires p'.count == if u.active && !p.users[i].active then p.count + 1
                         else if !u.active && p.users[i].active && p.count > 0 then p.count - 1 else p.count
    ensures PoolOk(p')
  {
    CountUpdate(p.users, i, u, Active());
    CountZero(p.users, Active());
  }

  /** Over every run of registrations, deletions, updates and completions the fields keep their bounds, the
      recorded hashes stay distinct, ids are slot numbers, and the count is the number of active users. */
  lemma {:induction false} RunKeeps(p: Pool, ops: seq<UserOp>)
    requires PoolOk(p)
    ensures PoolOk(ApplyAll(p, ops))
    decreases |ops|
  {
    if ops != [] {
      ApplyKeeps(p, ops[0]);
      RunKeeps(Apply(p, ops[0]), ops[1..]);
    }
  }

  /** A user is found by id exactly in the slot with that number. */
  lemma FindIdIsSlot(p: Pool, id: nat)
    requires PoolOk(p)
    ensures FindId(p.users, id) == if 0 < id <= POOL_SIZE && p.users[id - 1].active then Some(id - 1) else None
  {
  }

  predicate NamesDistinct(users: seq<User>) {
    forall i, j :: 0 <= i < j < |users| && users[i].active && users[j].active ==> users[i].name != users[j].name
  }

  /** Registration compares the whole name but stores 31 characters of it: active names stay distinct exactly
      when what is stored is not an active name already, as it never is for a name that fits. */
  lemma RegisterDistinctIff(p: Pool, name: seq<byte>, passHash: nat)
    requires PoolOk(p) && NamesDistinct(p.users) && CreateUser(p, name, passHash).0 == 0
    ensures NamesDistinct(CreateUser(p, name, passHash).1.users) <==> FindName(p.users, Truncated(name, NAME_MAX)).None?
    ensures |name| <= NAME_MAX ==> NamesDistinct(CreateUser(p, name, passHash).1.users)
  {
    var i, stored := FirstInactive(p.users).value, Truncated(name, NAME_MAX);
    var users := CreateUser(p, name, passHash).1.users;
    match FindName(p.users, stored)
    case Some(j) => assert users[j] == p.users[j] && users[i].name == users[j].name && i != j;
    case None =>
    assert |name| <= NAME_MAX ==> stored == name;
  }

  // ----- what becomes of a user -----

  /** The points of the challenges that user `id` solves in a run. */
  function Earned(ops: seq<UserOp>, id: nat): nat {
    if ops == [] then 0
    else (if ops[0].Complete? && ops[0].id == id then ops[0].earned else 0) + Earned(ops[1..], id)
  }

  /** The hashes of those challenges, in order. */
  function Solved(ops: seq<UserOp>, id: nat): seq<u64> {
    if ops == [] then []
    else (if ops[0].Complete? && ops[0].id == id then [ops[0].hash] else []) + Solved(ops[1..], id)
  }

  /** The hashes already there, then each new one where it first comes up. */
  function FirstTimes(there: seq<u64>, hashes: seq<u64>): seq<u64>
    decreases |hashes|
  {
    if hashes == [] then there
    else FirstTimes(if hashes[0] in there then there else there + [hashes[0]], hashes[1..])
  }

  /** The last description that the user sets, or the one before. */
  function LastText(ops: seq<UserOp>, id: nat, before: seq<byte>): seq<byte>
    decreases |ops|
  {
    if ops == [] then before
    else LastText(ops[1..], id, if ops[0].Update? && ops[0].id == id then ops[0].text else before)
  }

  predicate Deletes(ops: seq<UserOp>, id: nat) {
    exists op :: op in ops && op == Remove(id)
  }

  lemma {:induction false} FirstTimesBegin(there: seq<u64>, hashes: seq<u64>)
    ensures there <= FirstTimes(there, hashes)
    decreases |hashes|
  {
    if hashes != [] {
      FirstTimesBegin(if hashes[0] in there then there else there + [hashes[0]], hashes[1..]);
    }
  }

  /** Exactly the old and the solved ones, and none twice. */
  lemma {:induction false} FirstTimesAre(there: seq<u64>, hashes: seq<u64>)
    ensures forall h :: h in FirstTimes(there, hashes) <==> h in there || h in hashes
    ensures Distinct(there) ==> Distinct(FirstTimes(there, hashes))
    decreases |hashes|
  {
    if hashes != [] {
      FirstTimesAre(if hashes[0] in there then there else there + [hashes[0]], hashes[1..]);
      assert forall h :: h in hashes <==> h == hashes[0] || h in hashes[1..];
    }
  }

  function Recorded(hashes: seq<u64>): seq<u64> {
    hashes[..Min(|hashes|, HASHES_MAX)]
  }

  /** A full record takes nothing more in. */
  lemma FullStays(there: seq<u64>, hashes: seq<u64>, h: u64)
    requires |there| == HASHES_MAX
    ensures Recorded(FirstTimes(there, hashes)) == there == Recorded(FirstTimes(there + [h], hashes))
  {
    FirstTimesBegin(there, hashes);
    FirstTimesBegin(there + [h], hashes);
    assert (there + [h])[..HASHES_MAX] == there;
  }

  /** User `u` before an operation, `v` behind it. */
  predicate Stepped(u: User, v: User, op: UserOp) {
    v.id == u.id && v.name == u.name && v.passHash == u.passHash
    && v.description == (if op.Update? && op.id == u.id then op.text[..Min(|op.text|, 2047)] else u.description)
    && v.points == (if op.Complete? && op.id == u.id then (u.points + op.earned) % 0x1_0000_0000 else u.points)
    && v.completed == (if op.Complete? && op.id == u.id && op.hash !in u.completed && |u.completed| < HASHES_MAX
                       then u.completed + [op.hash] else u.completed)
  }

  /** What one operation makes of an active user that it does not delete. */
  lemma UserStep(p: Pool, op: UserOp, i: nat)
    requires PoolOk(p) && i < POOL_SIZE && p.users[i].active && op != Remove(i + 1)
    ensures Apply(p, op).users[i].active && Stepped(p.users[i], Apply(p, op).users[i], op)
  {
    match op
    case Register(_, _) =>
    case Remove(id) => FindIdIsSlot(p, id);
    case Update(id, _) => FindIdIsSlot(p, id);
    case Complete(id, _, _) => FindIdIsSlot(p, id);
  }

  lemma PointsAdd(points: u32, earned: nat, more: nat)
    ensures ((points + earned) % 0x1_0000_0000 + more) % 0x1_0000_0000 == (points + (earned + more)) % 0x1_0000_0000
  {
  }

  /** What is true of a user after a run: `u` before it, `u'` behind it. */
  predicate Became(u: User, u': User, ops: seq<UserOp>) {
    u'.active && u'.id == u.id && u'.name == u.name && u'.passHash == u.passHash
    && u'.points == (u.points + Earned(ops, u.id)) % 0x1_0000_0000
    && u'.completed == Recorded(FirstTimes(u.completed, Solved(ops, u.id)))
    && u'.description == (var text := LastText(ops, u.id, u.description); text[..Min(|text|, 2047)])
  }

  /** Over any run of all users' operations that does not delete the user: the points are the old ones and all that
      this user's solved challenges are worth, modulo 2^32; the recorded hashes are the old ones and this user's in
      order of first solving, up to 32; the description is the last one set, up to 2047 bytes; name and password stay.
      What other users do changes none of it. */
  lemma {:induction false} UserAfter(p: Pool, ops: seq<UserOp>, i: nat)
    requires PoolOk(p) && i < POOL_SIZE && p.users[i].active && !Deletes(ops, i + 1)
    ensures Became(p.users[i], ApplyAll(p, ops).users[i], ops)
    decreases |ops|
  {
    if ops == [] {
      BecameNow(p.users[i]);
    } else {
      var op, more := ops[0], ops[1..];
      var q, v := FirstStep(p, ops, i);
      UserAfter(q, more, i);
      BecameFirst(p.users[i], v, ApplyAll(q, more).users[i], op, more);
      assert ops == [op] + more;
    }
  }

  lemma BecameNow(u: User)
    requires UserOk(u) && u.active
    ensures Became(u, u, [])
  {
    assert u.description[..|u.description|] == u.description;
    assert Recorded(u.completed) == u.completed;
  }

  /** The first operation of a run. */
  lemma FirstStep(p: Pool, ops: seq<UserOp>, i: nat) returns (q: Pool, v: User)
    requires PoolOk(p) && i < POOL_SIZE && p.users[i].active && ops != [] && !Deletes(ops, i + 1)
    ensures q == Apply(p, ops[0]) && v == q.users[i] && PoolOk(q) && v.active && !Deletes(ops[1..], i + 1)
    ensures Stepped(p.users[i], v, ops[0])
  {
    assert ops[0] in ops && forall o | o in ops[1..] :: o in ops;
    UserStep(p, ops[0], i);
    ApplyKeeps(p, ops[0]);
    q := Apply(p, ops[0]);
    v := q.users[i];
  }

  lemma BecameFirst(u: User, v: User, w: User, op: UserOp, ops: seq<UserOp>)
    requires UserOk(u) && Became(v, w, ops)
    requires Stepped(u, v, op)
    ensures Became(u, w, [op] + ops)
  {
    BecamePoints(u, v, op, ops);
    BecameHashes(u, v, op, ops);
    BecameText(u, v, w, op, ops);
  }

  lemma BecamePoints(u: User, v: User, op: UserOp, ops: seq<UserOp>)
    requires Stepped(u, v, op)
    ensures (v.points + Earned(ops, u.id)) % 0x1_0000_0000 == (u.points + Earned([op] + ops, u.id)) % 0x1_0000_0000
  {
    assert ([op] + ops)[1..] == ops;
    if op.Complete? && op.id == u.id {
      PointsAdd(u.points, op.earned, Earned(ops, u.id));
    }
  }

  lemma BecameHashes(u: User, v: User, op: UserOp, ops: seq<UserOp>)
    requires UserOk(u) && Stepped(u, v, op)
    ensures Recorded(FirstTimes(v.completed, Solved(ops, u.id)))
         == Recorded(FirstTimes(u.completed, Solved([op] + ops, u.id)))
  {
    assert ([op] + ops)[1..] == ops;
    var hs := Solved(ops, u.id);
    if op.Complete? && op.id == u.id {
      assert ([op.hash] + hs)[1..] == hs;
      if |u.completed| == HASHES_MAX {
        FullStays(u.completed, hs, op.hash);
      }
    } else {
      assert [] + hs == hs;
    }
  }

  lemma BecameText(u: User, v: User, w: User, op: UserOp, ops: seq<UserOp>)
    requires UserOk(u) && Stepped(u, v, op) && Became(v, w, ops)
    ensures var text := LastText([op] + ops, u.id, u.description); w.description == text[..Min(|text|, 2047)]
  {
    assert ([op] + ops)[1..] == ops;
    var before := if op.Update? && op.id == u.id then op.text else u.description;
    TextCut(ops, u.id, before, v.description);
  }

  /** Cutting the description before a run changes nothing of the cut description behind it. */
  lemma {:induction false} TextCut(ops: seq<UserOp>, id: nat, before: seq<byte>, cut: seq<byte>)
    requires cut == before[..Min(|before|, 2047)]
    ensures var a, b := LastText(ops, id, before), LastText(ops, id, cut);
      a[..Min(|a|, 2047)] == b[..Min(|b|, 2047)]
    decreases |ops|
  {
    if ops != [] {
      if ops[0].Update? && ops[0].id == id {
        TextCut(ops[1..], id, ops[0].text, ops[0].text[..Min(|ops[0].text|, 2047)]);
      } else {
        TextCut(ops[1..], id, before, cut);
      }
    }
  }

  /** A deletion succeeds exactly for an active user's number. It frees that slot and touches no other user. */
  lemma Removed(p: Pool, id: nat)
    requires PoolOk(p)
    ensures var (code, q) := DeleteUser(p, id);
      (code == 0 <==> 0 < id <= POOL_SIZE && p.users[id - 1].active) && (code != 0 ==> code == 1 && q == p)
      && (code == 0 ==> q.users == p.users[id - 1 := p.users[id - 1].(active := false)] && q.count == p.count - 1)
      && Apply(p, Remove(id)) == q && FindId(q.users, id).None?
  {
    FindIdIsSlot(p, id);
    ApplyKeeps(p, Remove(id));
    FindIdIsSlot(Apply(p, Remove(id)), id);
    if DeleteUser(p, id).0 == 0 {
      CountZero(p.users, Active());
    }
  }

  /** A registration fails exactly when the name is taken or no slot is free. A successful one takes the first free
      slot, and a name that fits is found there, with the password's hash and nothing else. */
  lemma Registered(p: Pool, name: seq<byte>, passHash: nat)
    requires PoolOk(p)
    ensures var (code, q) := CreateUser(p, name, passHash);
      && (code == 1 <==> exists i :: 0 <= i < POOL_SIZE && p.users[i].active && p.users[i].name == name)
      && (code == 2 <==> code != 1 && forall i :: 0 <= i < POOL_SIZE ==> p.users[i].active)
      && (code != 0 ==> q == p) && code in {0, 1, 2}
    ensures CreateUser(p, name, passHash).0 == 0 ==>
              exists i :: RegisteredAt(p, CreateUser(p, name, passHash).1, name, passHash, i)
  {
    var (code, q) := CreateUser(p, name, passHash);
    if code == 0 {
      var i := FirstInactive(p.users).value;
      if |name| <= NAME_MAX {
        assert name[..|name|] == name;
        FoundWhereStored(p.users, q.users, name, i);
      }
      assert RegisteredAt(p, q, name, passHash, i);
    }
  }

  /** Slot `i` was free and now holds a new user; the other slots are as before. */
  predicate RegisteredAt(p: Pool, q: Pool, name: seq<byte>, passHash: nat, i: int) {
    0 <= i < |p.users| == |q.users| && !p.users[i].active
    && (forall j :: 0 <= j < |p.users| && j != i ==> q.users[j] == p.users[j])
    && (var u := q.users[i];
        u.active && u.id == i + 1 && u.passHash == passHash && u.points == 0 && u.completed == [] && u.description == []
        && u.name == name[..Min(|name|, 31)] && (|name| <= 31 ==> FindName(q.users, name) == Some(i)))
  }

  /** A new name is found in the slot that it was put in. */
  lemma FoundWhereStored(users: seq<User>, after: seq<User>, name: seq<byte>, i: nat)
    requires FindName(users, name).None? && i < |users| == |after| && after == users[i := after[i]]
    requires after[i].active && after[i].name == name
    ensures FindName(after, name) == Some(i)
  {
    assert forall j :: 0 <= j < |users| && j != i ==> after[j] == users[j];
    FindNameAt(after, name, i);
  }

  // ----- the pool in place -----

  lemma {:induction false} FindNameAt(users: seq<User>, name: seq<byte>, i: nat)
    requires i < |users| && users[i].active && users[i].name == name
    requires forall j :: 0 <= j < i ==> !(users[j].active && users[j].name == name)
    ensures FindName(users, name) == Some(i)
  {
    if i > 0 {
      FindNameAt(users[1..], name, i - 1);
    }
  }

  lemma {:induction false} FindIdAt(users: seq<User>, id: nat, i: nat)
    requires i < |users| && users[i].active && users[i].id == id
    requires forall j :: 0 <= j < i ==> !(users[j].active && users[j].id == id)
    ensures FindId(users, id) == Some(i)
  {
    if i > 0 {
      FindIdAt(users[1..], id, i - 1);
    }
  }

  lemma {:induction false} FirstInactiveAt(users: seq<User>, i: nat)
    requires i < |users| && !users[i].active && forall j :: 0 <= j < i ==> users[j].active
    ensures FirstInactive(users) == Some(i)
  {
    if i > 0 {
      FirstInactiveAt(users[1..], i - 1);
    }
  }

  /** `struct cg_userdb`. */
  class UserDb {
    const users: array<User>
    var count: nat

    constructor (users: array<User>, count: nat)
      ensures this.users == users && this.count == count
    {
      this.users, this.count := users, count;
    }

    ghost function Value(): Pool
      reads this, users
    {
      Pool(users[..], count)
    }

    /** `cg_userdb_find`. */
    method Find(name: seq<byte>) returns (r: Option<nat>)
      ensures r == FindName(users[..], name)
    {
      for i := 0 to users.Length
        invariant forall j :: 0 <= j < i ==> !(users[j].active && users[j].name == name)
      {
        if users[i].active && users[i].name == name {
          FindNameAt(users[..], name, i);
          return Some(i);
        }
      }
      assert FindName(users[..], name).None?;
      return None;
    }

    /** `cg_userdb_find_by_id`. */
    method FindById(id: nat) returns (r: Option<nat>)
      ensures r == FindId(users[..], id)
    {
      for i := 0 to users.Length
        invariant forall j :: 0 <= j < i ==> !(users[j].active && users[j].id == id)
      {
        if users[i].active && users[i].id == id {
          FindIdAt(users[..], id, i);
          return Some(i);
        }
      }
      assert FindId(users[..], id).None?;
      return None;
    }

    /** `cg_userdb_create`. */
    method Create(name: seq<byte>, passHash: nat) returns (code: int)
      modifies this`count, users
      ensures (code, Value()) == CreateUser(old(Value()), name, passHash)
    {
      var found := Find(name);
      if found.Some? {
        return 1;
      }
      for i := 0 to users.Length
        invariant Value() == old(Value()) && forall j :: 0 <= j < i ==> users[..][j].active
      {
        if !users[i].active {
          FirstInactiveAt(users[..], i);
          users[i] := User(i + 1, Truncated(name, NAME_MAX), [], passHash, 0, [], true);
          count := count + 1;
          return 0;
        }
      }
      assert FirstInactive(users[..]).None?;
      return 2;
    }

    /** `cg_userdb_delete`. */
    method Delete(id: nat) returns (code: int)
      modifies this`count, users
      ensures (code, Value()) == DeleteUser(old(Value()), id)
    {
      var entry := FindById(id);
      if entry.Some? {
        users[entry.value] := users[entry.value].(active := false);
        if count > 0 {
          count := count - 1;
        }
        return 0;
      }
      return 1;
    }

    /** The completion update of a solved challenge, with its search through the recorded hashes. */
    method RecordCompletion(i: nat, hash: u64, earned: u32)
      requires i < users.Length
      modifies users
      ensures users[..] == old(users[..])[i := Solve(old(users[i]), hash, earned)]
    {
      var u := users[i];
      var recorded, k := false, 0;
      while k < |u.completed| && !recorded
        invariant k <= |u.completed| && (recorded <==> hash in u.completed[..k])
      {
        assert u.completed[..k + 1] == u.completed[..k] + [u.completed[k]];
        recorded := u.completed[k] == hash;
        k := k + 1;
      }
      assert u.completed[..|u.completed|] == u.completed;
      var completed := u.completed;
      if !recorded && |completed| < HASHES_MAX {
        completed := completed + [hash];
      }
      users[i] := u.(points := (u.points as int + earned as int) % 0x1_0000_0000, completed := completed);
    }
  }
}
