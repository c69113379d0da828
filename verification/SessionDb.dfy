/** The session store of src/data/cg_sessiondb.c: a pool of entries and the map that indexes it. */
module SessionDb {
  import opened Bytes
  import opened Counting
  import opened HashMap

  const POOL_SIZE: nat := 4096

  datatype Session = Session(id: nat, user: nat, created: nat, seen: nat, active: bool, flags: nat)

  /** The file's contents: the map's rows and count, the header's count, and the pool. */
  datatype Db = Db(rows: seq<Entry<nat>>, mapCount: nat, entryCount: nat, pool: seq<Session>)

  predicate Sized(db: Db) {
    |db.rows| == |db.pool| == POOL_SIZE
  }

  /** The first inactive pool entry: the slot that the scan claims. */
  function FirstInactive(pool: seq<Session>): (r: Option<nat>)
    ensures r.Some? ==> r.value < |pool| && !pool[r.value].active && forall j :: 0 <= j < r.value ==> pool[j].active
    ensures r.None? ==> forall j :: 0 <= j < |pool| ==> pool[j].active
  {
    if pool == [] then None
    else if !pool[0].active then Some(0)
    else match FirstInactive(pool[1..]) case None => None case Some(i) => Some(i + 1)
  }

  function NewSession(user: nat, sid: nat, now: nat): Session {
    Session(sid, user, now % 0x1_0000_0000, now % 0x1_0000_0000, true, 0)
  }

  /** The entry and the index row of a new session in pool slot `i`. */
  function Registered(db: Db, home: nat, i: nat, user: nat, sid: nat, now: nat): (r: Db)
    requires Sized(db) && home < POOL_SIZE && i < POOL_SIZE
    ensures Sized(r)
  {
    Db(Put(db.rows, home, sid, i),
       if Lookup(db.rows, home, sid).Some? then db.mapCount else Up(db.mapCount), Up(db.entryCount),
       db.pool[i := NewSession(user, sid, now)])
  }

  /** `cg_sessiondb_entry_create` with the random id `sid` and the time `now`: result code and new contents. */
  function CreateSession(db: Db, home: nat, user: nat, sid: nat, now: nat): (r: (int, Db))
    requires Sized(db) && home < POOL_SIZE
    ensures Sized(r.1)
  {
    if db.mapCount >= POOL_SIZE || sid == 0 then (1, db)
    else match FirstInactive(db.pool)
      case None => (1, db)
      case Some(i) => (0, Registered(db, home, i, user, sid, now))
  }

  /** `cg_sessiondb_entry_get`: the pool index behind a session id. */
  function FindSession(db: Db, home: nat, sid: nat): Option<nat>
    requires Sized(db) && home < POOL_SIZE
  {
    match Lookup(db.rows, home, sid) case None => None case Some(i) => Some(db.rows[i].val)
  }

  /** `cg_sessiondb_entry_delete`. */
  function DropSession(db: Db, home: nat, sid: nat): (r: Db)
    requires Sized(db) && home < POOL_SIZE
    ensures Sized(r)
  {
    match FindSession(db, home, sid)
    case None => db
    case Some(i) =>
      Db(Erase(db.rows, home, sid), Down(db.mapCount), Down(db.entryCount),
         if i < |db.pool| then db.pool[i := db.pool[i].(active := false)] else db.pool)
  }

  /** What `cg_sessiondb_init` makes of an existing file. */
  function Reopen(db: Db): Db {
    db.(mapCount := db.entryCount)
  }

  function IsActive(): Session -> bool {
    (e: Session) => e.active
  }

  /** Every live id leads to an active entry that carries it. */
  predicate KeysLeadToPool(m: map<nat, nat>, pool: seq<Session>) {
    forall key | key in m :: m[key] < |pool| && pool[m[key]].active && pool[m[key]].id == key
  }

  /** Every active entry is the one its id leads to. */
  predicate PoolIsKeyed(m: map<nat, nat>, pool: seq<Session>) {
    forall i | 0 <= i < |pool| && pool[i].active :: pool[i].id in m && m[pool[i].id] == i
  }

  /** Map and pool agree: a bijection between live ids and active entries, and one count for all. */
  ghost predicate Agree(db: Db, home: nat -> nat) {
    Sized(db) && Table(db.rows, home)
    && db.mapCount == db.entryCount == Count(db.pool, IsActive()) == Count(db.rows, LiveSlot())
    && KeysLeadToPool(Contents(db.rows, home), db.pool) && PoolIsKeyed(Contents(db.rows, home), db.pool)
  }

  /** A lookup finds exactly the active entry with that id. */
  lemma GetFindsActive(db: Db, home: nat -> nat, sid: nat)
    requires Agree(db, home)
    ensures FindSession(db, home(sid), sid).None? <==> sid !in Contents(db.rows, home)
    ensures forall i ::
              FindSession(db, home(sid), sid) == Some(i)
              <==> 0 <= i < |db.pool| && db.pool[i].active && db.pool[i].id == sid
  {
    LookupFindsLive(db.rows, home, sid);
  }

  lemma CountBelow(pool: seq<Session>)
    ensures Count(pool, IsActive()) <= |pool|
    ensures FirstInactive(pool).Some? <==> Count(pool, IsActive()) < |pool|
  {
  }

  /** A create succeeds exactly below the limit and with a nonzero id; otherwise it reports 1 and changes nothing. */
  lemma CreateFindsSlot(db: Db, home: nat -> nat, user: nat, sid: nat, now: nat)
    requires Agree(db, home)
    ensures var (code, db') := CreateSession(db, home(sid), user, sid, now);
      (code == 0 <==> db.mapCount < POOL_SIZE && sid != 0) && (code != 0 ==> code == 1 && db' == db)
  {
    CountBelow(db.pool);
  }

  lemma CreateFresh(db: Db, home: nat -> nat, user: nat, sid: nat, now: nat)
    requires Agree(db, home) && sid != 0 && db.mapCount < POOL_SIZE && HasNever(db.rows) && !HasKey(db.rows, sid)
    ensures var db', i := CreateSession(db, home(sid), user, sid, now).1, FirstInactive(db.pool);
            i.Some? && Table(db'.rows, home) && Contents(db'.rows, home) == Contents(db.rows, home)[sid := i.value]
            && db'.pool == db.pool[i.value := NewSession(user, sid, now)]
            && db'.mapCount == db'.entryCount == Count(db'.pool, IsActive()) == Count(db'.rows, LiveSlot())
  {
    CreateFindsSlot(db, home, user, sid, now);
    var i := FirstInactive(db.pool).value;
    PutRefines(db.rows, home, sid, i);
    RegisteredCounts(db, home, i, user, sid, now);
  }

  /** The counts after the entry and the row of a new session have been filled. */
  lemma RegisteredCounts(db: Db, home: nat -> nat, i: nat, user: nat, sid: nat, now: nat)
    requires Agree(db, home) && db.mapCount < POOL_SIZE && HasNever(db.rows) && !HasKey(db.rows, sid)
    requires i < POOL_SIZE && !db.pool[i].active
    ensures var db' := Registered(db, home(sid), i, user, sid, now);
      db'.mapCount == db'.entryCount == db.mapCount + 1 == Count(db'.pool, IsActive()) == Count(db'.rows, LiveSlot())
  {
    LookupFindsLive(db.rows, home, sid);
    LiveCounted(db.rows, home, sid, i);
    CountUpdate(db.pool, i, NewSession(user, sid, now), IsActive());
    UpFits(db.mapCount, POOL_SIZE);
  }

  lemma CreateFreshAgrees(db: Db, home: nat -> nat, user: nat, sid: nat, now: nat)
    requires Agree(db, home) && sid != 0 && db.mapCount < POOL_SIZE && HasNever(db.rows) && !HasKey(db.rows, sid)
    ensures Agree(CreateSession(db, home(sid), user, sid, now).1, home)
  {
    CreateFresh(db, home, user, sid, now);
    LookupFindsLive(db.rows, home, sid);
    var i := FirstInactive(db.pool).value;
    ClaimKeepsBijection(Contents(db.rows, home), db.pool, sid, i,
        CreateSession(db, home(sid), user, sid, now).1.pool[i]);
  }

  /** A session that was found before is found as it was, and the new one with its user, both times and no flags. */
  lemma CreatedSession(db: Db, home: nat -> nat, user: nat, sid: nat, now: nat, other: nat)
    requires Agree(db, home) && sid != 0 && db.mapCount < POOL_SIZE && HasNever(db.rows) && !HasKey(db.rows, sid)
    ensures var db' := CreateSession(db, home(sid), user, sid, now).1;
      SessionAt(db', home, other)
      == if other == sid then Some(Session(sid, user, now % 0x1_0000_0000, now % 0x1_0000_0000, true, 0))
         else SessionAt(db, home, other)
  {
    var db' := CreateSession(db, home(sid), user, sid, now).1;
    CreateFresh(db, home, user, sid, now);
    CreateFreshAgrees(db, home, user, sid, now);
    LookupFindsLive(db.rows, home, other);
    LookupFindsLive(db'.rows, home, other);
  }

  /** The entry behind a session id. */
  function SessionAt(db: Db, home: nat -> nat, sid: nat): Option<Session>
    requires Sized(db) && home(sid) < POOL_SIZE
  {
    match FindSession(db, home(sid), sid)
    case None => None
    case Some(i) => if i < |db.pool| then Some(db.pool[i]) else None
  }

  lemma ClaimKeepsBijection(m: map<nat, nat>, pool: seq<Session>, sid: nat, i: nat, e: Session)
    requires KeysLeadToPool(m, pool) && PoolIsKeyed(m, pool)
    requires sid !in m && i < |pool| && !pool[i].active && e.active && e.id == sid
    ensures KeysLeadToPool(m[sid := i], pool[i := e]) && PoolIsKeyed(m[sid := i], pool[i := e])
  {
  }

  /** A repeated id leaves two active entries under one key. */
  lemma CreateRepeatDisagrees(db: Db, home: nat -> nat, user: nat, sid: nat, now: nat)
    requires Agree(db, home) && sid != 0 && db.mapCount < POOL_SIZE && HasKey(db.rows, sid)
    ensures !Agree(CreateSession(db, home(sid), user, sid, now).1, home)
  {
    CreateFindsSlot(db, home, user, sid, now);
    LookupFindsLive(db.rows, home, sid);
    var db', i := CreateSession(db, home(sid), user, sid, now).1, FirstInactive(db.pool).value;
    var j := Contents(db.rows, home)[sid];
    assert db'.pool[j] == db.pool[j] && j != i && db'.pool[i].id == db'.pool[j].id == sid;
  }

  /** A create keeps the agreement exactly when the id it drew is not live already. */
  lemma CreateAgreesIff(db: Db, home: nat -> nat, user: nat, sid: nat, now: nat)
    requires Agree(db, home) && sid != 0 && db.mapCount < POOL_SIZE
    requires HasKey(db.rows, sid) || HasNever(db.rows)
    ensures Agree(CreateSession(db, home(sid), user, sid, now).1, home) <==> !HasKey(db.rows, sid)
  {
    if HasKey(db.rows, sid) {
      CreateRepeatDisagrees(db, home, user, sid, now);
    } else {
      CreateFreshAgrees(db, home, user, sid, now);
    }
  }

  /** Deletion keeps the agreement and removes just that session. */
  lemma DeleteAgrees(db: Db, home: nat -> nat, sid: nat)
    requires Agree(db, home)
    ensures Agree(DropSession(db, home(sid), sid), home)
    ensures Contents(DropSession(db, home(sid), sid).rows, home) == Contents(db.rows, home) - {sid}
    ensures forall i :: 0 <= i < POOL_SIZE && (!db.pool[i].active || db.pool[i].id != sid) ==>
              DropSession(db, home(sid), sid).pool[i] == db.pool[i]
  {
    LookupFindsLive(db.rows, home, sid);
    EraseRefines(db.rows, home, sid);
    if HasKey(db.rows, sid) {
      var m := Contents(db.rows, home);
      LiveCounted(db.rows, home, sid, 0);
      CountUpdate(db.pool, m[sid], db.pool[m[sid]].(active := false), IsActive());
      ReleaseKeepsBijection(m, db.pool, sid);
    }
  }

  lemma ReleaseKeepsBijection(m: map<nat, nat>, pool: seq<Session>, sid: nat)
    requires KeysLeadToPool(m, pool) && PoolIsKeyed(m, pool) && sid in m
    ensures var i := m[sid]; var pool' := pool[i := pool[i].(active := false)];
            KeysLeadToPool(m - {sid}, pool') && PoolIsKeyed(m - {sid}, pool')
  {
  }

  /** A remark: the count that reopening takes from the header is the map's, since all counts agree. */
  lemma ReopenRestores(db: Db, home: nat -> nat)
    requires Agree(db, home)
    ensures Reopen(db) == db
  {
  }

  // ----- probes of the store -----

  /** In a full store the lookup of an unknown id never ends. */
  lemma FullStoreProbeEndsIff(db: Db, home: nat -> nat, sid: nat)
    requires Agree(db, home) && db.mapCount == POOL_SIZE
    ensures ProbeEnds(db.rows, home(sid), sid) <==> HasKey(db.rows, sid)
  {
    ProbeEndsIff(db.rows, home, sid);
    AllCounted(db.rows, LiveSlot());
    assert forall i :: 0 <= i < |db.rows| ==> LiveSlot<nat>()(db.rows[i]);
  }

  // ----- runs -----

  datatype StoreOp = Login(user: nat, sid: nat, now: nat) | Logout(sid: nat) | Look(sid: nat) | Restart

  function Apply(db: Db, home: nat -> nat, op: StoreOp): (r: Db)
    requires Sized(db) && (op.Restart? || home(op.sid) < POOL_SIZE)
    ensures Sized(r)
  {
    match op
    case Login(user, sid, now) => CreateSession(db, home(sid), user, sid, now).1
    case Logout(sid) => DropSession(db, home(sid), sid)
    case Look(_) => db
    case Restart => Reopen(db)
  }

  function Logins(ops: seq<StoreOp>): nat {
    if ops == [] then 0 else One(ops[0].Login?) + Logins(ops[1..])
  }

  /** Each create draws a nonzero id that is not live at that point. */
  ghost predicate FreshIds(db: Db, home: nat -> nat, ops: seq<StoreOp>)
    requires Sized(db) && forall key :: home(key) < POOL_SIZE
    decreases |ops|
  {
    ops == [] || ((ops[0].Login? ==> ops[0].sid != 0 && !HasKey(db.rows, ops[0].sid))
                  && FreshIds(Apply(db, home, ops[0]), home, ops[1..]))
  }

  /** Along the run the store agrees with itself, every probe ends, and a create below the limit succeeds. */
  ghost predicate RunsWell(db: Db, home: nat -> nat, ops: seq<StoreOp>)
    decreases |ops|
  {
    Agree(db, home)
    && (ops == [] ||
        ((!ops[0].Restart? ==> ProbeEnds(db.rows, home(ops[0].sid), ops[0].sid))
         && (ops[0].Login? ==>
               (CreateSession(db, home(ops[0].sid), ops[0].user, ops[0].sid, ops[0].now).0 == 0
                <==> Count(db.pool, IsActive()) < POOL_SIZE))
         && RunsWell(Apply(db, home, ops[0]), home, ops[1..])))
  }

  /** With fresh ids and fewer creates than never-used rows, every run keeps map and pool in agreement. */
  lemma {:induction false} RunAgrees(db: Db, home: nat -> nat, ops: seq<StoreOp>)
    requires Agree(db, home) && FreshIds(db, home, ops) && Logins(ops) < Count(db.rows, NeverUsed())
    ensures RunsWell(db, home, ops)
    decreases |ops|
  {
    if ops != [] {
      StepAgrees(db, home, ops[0]);
      RunAgrees(Apply(db, home, ops[0]), home, ops[1..]);
    }
  }

  lemma StepAgrees(db: Db, home: nat -> nat, op: StoreOp)
    requires Agree(db, home) && HasNeverRow(db)
    requires op.Login? ==> op.sid != 0 && !HasKey(db.rows, op.sid)
    ensures Agree(Apply(db, home, op), home)
    ensures !op.Restart? ==> ProbeEnds(db.rows, home(op.sid), op.sid)
    ensures op.Login? ==> (CreateSession(db, home(op.sid), op.user, op.sid, op.now).0 == 0
            <==> Count(db.pool, IsActive()) < POOL_SIZE)
    ensures Count(Apply(db, home, op).rows, NeverUsed()) + One(op.Login?) >= Count(db.rows, NeverUsed())
  {
    HasNeverIff(db.rows);
    match op
    case Login(user, sid, now) =>
      ProbeEndsIff(db.rows, home, sid);
      CreateFindsSlot(db, home, user, sid, now);
      if db.mapCount < POOL_SIZE {
        CreateFreshAgrees(db, home, user, sid, now);
        NeverSpent(db.rows, home, sid, FirstInactive(db.pool).value);
      }
    case Logout(sid) =>
      ProbeEndsIff(db.rows, home, sid);
      DeleteAgrees(db, home, sid);
      NeverSpent(db.rows, home, sid, 0);
    case Look(sid) => ProbeEndsIff(db.rows, home, sid);
    case Restart =>
  }

  predicate HasNeverRow(db: Db) {
    Count(db.rows, NeverUsed()) > 0
  }

  /** What `cg_sessiondb_init` makes of a new file. */
  function NewDb(): Db {
    Db(seq(POOL_SIZE, _ => Entry<nat>.Entry(0, 0, Never)), 0, 0, seq(POOL_SIZE, _ => Session(0, 0, 0, 0, false, 0)))
  }

  lemma NewStoreAgrees(home: nat -> nat)
    requires forall key :: home(key) < POOL_SIZE
    ensures Agree(NewDb(), home) && Count(NewDb().rows, NeverUsed()) == POOL_SIZE
  {
    UnusedAgrees(NewDb(), home);
  }

  lemma UnusedAgrees(db: Db, home: nat -> nat)
    requires Sized(db) && (forall key :: home(key) < POOL_SIZE) && db.mapCount == db.entryCount == 0
    requires (forall e | e in db.rows :: IsNever(e)) && forall e | e in db.pool :: !e.active
    ensures Agree(db, home) && Count(db.rows, NeverUsed()) == POOL_SIZE
  {
    NewRows(db.rows, home);
    NewPool(db.pool);
    assert forall i :: 0 <= i < |db.pool| ==> db.pool[i] in db.pool;
  }

  lemma NewRows(rows: seq<Entry<nat>>, home: nat -> nat)
    requires (forall key :: home(key) < |rows|) && forall e | e in rows :: IsNever(e)
    ensures Table(rows, home) && Contents(rows, home) == map[]
    ensures Count(rows, LiveSlot()) == 0 && Count(rows, NeverUsed()) == |rows|
  {
    AllNever(rows);
    CountZero(rows, LiveSlot());
  }

  lemma NewPool(pool: seq<Session>)
    requires forall e | e in pool :: !e.active
    ensures Count(pool, IsActive()) == 0
  {
    CountZero(pool, IsActive());
    assert forall i :: 0 <= i < |pool| ==> pool[i] in pool;
  }

  /** A new store behaves so for every run with fewer creates than it has rows. */
  lemma NewStoreRunAgrees(home: nat -> nat, ops: seq<StoreOp>)
    requires (forall key :: home(key) < POOL_SIZE) && FreshIds(NewDb(), home, ops) && Logins(ops) < POOL_SIZE
    ensures RunsWell(NewDb(), home, ops)
  {
    NewStoreAgrees(home);
    RunAgrees(NewDb(), home, ops);
  }

  function ApplyAll(db: Db, home: nat -> nat, ops: seq<StoreOp>): (r: Db)
    requires Sized(db) && forall key :: home(key) < POOL_SIZE
    ensures Sized(r)
    decreases |ops|
  {
    if ops == [] then db else ApplyAll(Apply(db, home, ops[0]), home, ops[1..])
  }

  // ----- spending the rows -----

  /** Sessions `k` down to 1 are deleted, and one more lookup is made. */
  function LogoutsFrom(k: nat): seq<StoreOp> {
    if k == 0 then [Look(1)] else [Logout(k)] + LogoutsFrom(k - 1)
  }

  /** Sessions `k + 1` to `n` are created, then all from `n` down are deleted. */
  function SpendFrom(k: nat, n: nat): seq<StoreOp>
    decreases n - k
  {
    if k >= n then LogoutsFrom(n) else [Login(1, k + 1, 0)] + SpendFrom(k + 1, n)
  }

  ghost predicate KeysUpTo(rows: seq<Entry<nat>>, k: nat) {
    forall sid: nat :: HasKey(rows, sid) <==> 1 <= sid <= k
  }

  /** The store agrees and its sessions are 1 to `k`. */
  ghost predicate HoldsUpTo(db: Db, home: nat -> nat, k: nat) {
    Agree(db, home) && db.mapCount == k && KeysUpTo(db.rows, k)
  }

  ghost predicate NoProbeEnds(rows: seq<Entry<nat>>, home: nat -> nat)
    requires forall key :: home(key) < |rows|
  {
    forall sid: nat :: !ProbeEnds(rows, home(sid), sid)
  }

  /** Empty, in agreement, below the limit: and no lookup ends. */
  ghost predicate Spent(db: Db, home: nat -> nat) {
    Agree(db, home) && db.mapCount == 0 && NoProbeEnds(db.rows, home)
  }

  ghost predicate ManyNever(rows: seq<Entry<nat>>, n: int) {
    Count(rows, NeverUsed()) >= n
  }

  lemma KeyAdded(rows: seq<Entry<nat>>, rows': seq<Entry<nat>>, home: nat -> nat, k: nat, i: nat)
    requires Table(rows, home) && Table(rows', home) && KeysUpTo(rows, k)
    requires Contents(rows', home) == Contents(rows, home)[k + 1 := i]
    ensures KeysUpTo(rows', k + 1)
  {
    forall sid: nat ensures HasKey(rows', sid) <==> 1 <= sid <= k + 1 {
      LookupFindsLive(rows, home, sid);
      LookupFindsLive(rows', home, sid);
    }
  }

  lemma KeyRemoved(rows: seq<Entry<nat>>, rows': seq<Entry<nat>>, home: nat -> nat, k: nat)
    requires Table(rows, home) && Table(rows', home) && KeysUpTo(rows, k) && k > 0
    requires Contents(rows', home) == Contents(rows, home) - {k}
    ensures KeysUpTo(rows', k - 1)
  {
    forall sid: nat ensures HasKey(rows', sid) <==> 1 <= sid <= k - 1 {
      LookupFindsLive(rows, home, sid);
      LookupFindsLive(rows', home, sid);
    }
  }

  lemma OneLogin(db: Db, home: nat -> nat, k: nat)
    requires HoldsUpTo(db, home, k) && k < POOL_SIZE && ManyNever(db.rows, POOL_SIZE - k)
    ensures !HasKey(db.rows, k + 1)
    ensures var db' := Apply(db, home, Login(1, k + 1, 0));
      HoldsUpTo(db', home, k + 1) && ManyNever(db'.rows, POOL_SIZE - (k + 1))
  {
    var op := Login(1, k + 1, 0);
    var db' := Apply(db, home, op);
    assert !HasKey(db.rows, k + 1);
    HasNeverIff(db.rows);
    StepAgrees(db, home, op);
    CreateFresh(db, home, 1, k + 1, 0);
    KeyAdded(db.rows, db'.rows, home, k, FirstInactive(db.pool).value);
    LoginCounted(db, home, op);
  }

  lemma LoginCounted(db: Db, home: nat -> nat, op: StoreOp)
    requires Agree(db, home) && db.mapCount < POOL_SIZE && op.Login? && op.sid != 0 && !HasKey(db.rows, op.sid)
    ensures Apply(db, home, op).mapCount == db.mapCount + 1
  {
    CountBelow(db.pool);
    LookupFindsLive(db.rows, home, op.sid);
  }

  lemma OneLogout(db: Db, home: nat -> nat, k: nat)
    requires HoldsUpTo(db, home, k) && k > 0 && !HasNever(db.rows)
    ensures var db' := Apply(db, home, Logout(k)); HoldsUpTo(db', home, k - 1) && !HasNever(db'.rows)
  {
    var db' := DropSession(db, home(k), k);
    assert HasKey(db.rows, k);
    DeleteAgrees(db, home, k);
    LookupFindsLive(db.rows, home, k);
    KeyRemoved(db.rows, db'.rows, home, k);
    HasNeverIff(db.rows);
    HasNeverIff(db'.rows);
    NeverSpent(db.rows, home, k, 0);
  }

  lemma {:induction false} Drain(db: Db, home: nat -> nat, k: nat)
    requires HoldsUpTo(db, home, k) && !HasNever(db.rows)
    ensures Spent(ApplyAll(db, home, LogoutsFrom(k)), home) && FreshIds(db, home, LogoutsFrom(k))
    ensures Logins(LogoutsFrom(k)) == 0 && !RunsWell(db, home, LogoutsFrom(k))
    decreases k
  {
    var ops := LogoutsFrom(k);
    if k == 0 {
      forall sid: nat ensures !ProbeEnds(db.rows, home(sid), sid) {
        ProbeEndsIff(db.rows, home, sid);
      }
      assert ops[1..] == [] && ApplyAll(db, home, ops) == ApplyAll(db, home, []);
    } else {
      OneLogout(db, home, k);
      assert ops[1..] == LogoutsFrom(k - 1);
      Drain(Apply(db, home, ops[0]), home, k - 1);
    }
  }

  lemma FullHasNoNever(db: Db, home: nat -> nat)
    requires HoldsUpTo(db, home, POOL_SIZE)
    ensures !HasNever(db.rows)
  {
    AllCounted(db.rows, LiveSlot());
    assert forall i :: 0 <= i < |db.rows| ==> LiveSlot<nat>()(db.rows[i]);
  }

  lemma {:induction false} FillAndDrain(db: Db, home: nat -> nat, k: nat, n: nat)
    requires HoldsUpTo(db, home, k) && k <= n == |db.rows| && ManyNever(db.rows, n - k)
    ensures Spent(ApplyAll(db, home, SpendFrom(k, n)), home) && FreshIds(db, home, SpendFrom(k, n))
    ensures Logins(SpendFrom(k, n)) == n - k && !RunsWell(db, home, SpendFrom(k, n))
    decreases n - k
  {
    if k == n {
      FullHasNoNever(db, home);
      Drain(db, home, k);
    } else {
      var op, more := Login(1, k + 1, 0), SpendFrom(k + 1, n);
      assert SpendFrom(k, n) == [op] + more;
      OneLogin(db, home, k);
      FillAndDrain(Apply(db, home, op), home, k + 1, n);
      LoginFirst(db, home, op, more);
    }
  }

  lemma LoginFirst(db: Db, home: nat -> nat, op: StoreOp, more: seq<StoreOp>)
    requires Sized(db) && (forall key :: home(key) < POOL_SIZE) && op.Login? && op.sid != 0 && !HasKey(db.rows, op.sid)
    ensures var db', ops := Apply(db, home, op), [op] + more;
      ApplyAll(db, home, ops) == ApplyAll(db', home, more) && Logins(ops) == 1 + Logins(more)
      && (FreshIds(db', home, more) ==> FreshIds(db, home, ops))
      && (RunsWell(db, home, ops) ==> RunsWell(db', home, more))
  {
    assert ([op] + more)[1..] == more;
  }

  lemma NoKeys(rows: seq<Entry<nat>>)
    requires forall e | e in rows :: IsNever(e)
    ensures KeysUpTo(rows, 0)
  {
    forall sid: nat ensures !HasKey(rows, sid) {
      assert forall i :: 0 <= i < |rows| ==> rows[i] in rows;
    }
  }

  /** The guard on the live count does not make probes end: a new store in which as many sessions as it has rows
      are created, each with a fresh identifier, and then deleted, is empty, in agreement and below the limit,
      and no lookup in it ends. So the bound on the creates of a run that goes well cannot be raised. */
  lemma GuardIsNotEnough(home: nat -> nat) returns (ops: seq<StoreOp>)
    requires forall key :: home(key) < POOL_SIZE
    ensures FreshIds(NewDb(), home, ops) && Logins(ops) == POOL_SIZE
    ensures Spent(ApplyAll(NewDb(), home, ops), home) && !RunsWell(NewDb(), home, ops)
  {
    NewStoreHolds(home);
    ops := SpentFromStart(NewDb(), home);
  }

  lemma NewStoreHolds(home: nat -> nat)
    requires forall key :: home(key) < POOL_SIZE
    ensures HoldsUpTo(NewDb(), home, 0) && Count(NewDb().rows, NeverUsed()) == |NewDb().rows| == POOL_SIZE
  {
    UnusedHolds(NewDb(), home);
  }

  lemma UnusedHolds(db: Db, home: nat -> nat)
    requires Sized(db) && (forall key :: home(key) < POOL_SIZE) && db.mapCount == db.entryCount == 0
    requires (forall e | e in db.rows :: IsNever(e)) && forall e | e in db.pool :: !e.active
    ensures HoldsUpTo(db, home, 0) && Count(db.rows, NeverUsed()) == |db.rows| == POOL_SIZE
  {
    UnusedAgrees(db, home);
    NoKeys(db.rows);
  }

  lemma SpentFromStart(db: Db, home: nat -> nat) returns (ops: seq<StoreOp>)
    requires HoldsUpTo(db, home, 0) && Count(db.rows, NeverUsed()) == |db.rows|
    ensures FreshIds(db, home, ops) && Logins(ops) == |db.rows|
    ensures Spent(ApplyAll(db, home, ops), home) && !RunsWell(db, home, ops)
  {
    ops := SpendFrom(0, |db.rows|);
    FillAndDrain(db, home, 0, |db.rows|);
  }

  // ----- the store in place -----

  /** `struct cg_sessiondb` in its mapped file. */
  class SessionStore {
    const index: ProbeMap<nat>
    const pool: array<Session>
    var entryCount: nat

    /** `cg_sessiondb_init` on mapped contents: the map's count is restored from the header. */
    constructor (hash: nat -> nat, rows: array<Entry<nat>>, pool: array<Session>, entryCount: nat, ghost mapCount: nat)
      requires rows.Length == pool.Length == POOL_SIZE
      ensures Valid() && Value() == Reopen(Db(rows[..], mapCount, entryCount, pool[..]))
    {
      PoolSizePower();
      this.index := new ProbeMap(hash, rows, entryCount);
      this.pool := pool;
      this.entryCount := entryCount;
    }

    ghost predicate Valid()
      reads this, index
    {
      index.Valid() && index.entries != null && index.capacity == pool.Length == POOL_SIZE
    }

    ghost function Value(): Db
      reads this, index, index.entries, pool
      requires Valid()
    {
      Db(index.Rows(), index.count, entryCount, pool[..])
    }

    method EntryGet(sid: nat) returns (r: Option<nat>)
      requires Valid() && index.Ends(sid)
      ensures r == FindSession(Value(), index.HomeSlot(sid), sid)
    {
      var row := index.Get(sid);
      if row.Some? {
        return Some(index.entries[row.value].val);
      }
      return None;
    }

    /** Claims the first inactive pool entry. */
    method Claim() returns (r: Option<nat>)
      requires pool.Length == POOL_SIZE
      modifies pool
      ensures r == FirstInactive(old(pool[..]))
      ensures pool[..] == if r.Some? then old(pool[..])[r.value := old(pool[..])[r.value].(active := true)]
              else old(pool[..])
    {
      for i := 0 to POOL_SIZE
        invariant pool[..] == old(pool[..]) && forall j :: 0 <= j < i ==> pool[..][j].active
      {
        if !pool[i].active {
          FirstInactiveAt(pool[..], i);
          pool[i] := pool[i].(active := true);
          return Some(i);
        }
      }
      assert FirstInactive(pool[..]).None?;
      return None;
    }

    method EntryCreate(user: nat, sid: nat, now: nat) returns (r: int, out: Option<Session>)
      requires Valid() && index.Ends(sid)
      modifies this`entryCount, index, index.entries, pool
      ensures Valid() && (r, Value()) == CreateSession(old(Value()), index.HomeSlot(sid), user, sid, now)
      ensures out == if r == 0 then Some(NewSession(user, sid, now)) else None
    {
      if index.count >= POOL_SIZE || sid == 0 {
        return 1, None;
      }
      var done := ClaimAndRegister(user, sid, now);
      if !done {
        return 1, None;
      }
      return 0, Some(NewSession(user, sid, now));
    }

    /** The claim of a pool entry and, if there is one, its registration. */
    method ClaimAndRegister(user: nat, sid: nat, now: nat) returns (done: bool)
      requires Valid() && index.Ends(sid)
      modifies this`entryCount, index, index.entries, pool
      ensures Valid() && done == FirstInactive(old(pool[..])).Some?
      ensures Value() == if done then Registered(old(Value()), index.HomeSlot(sid),
              FirstInactive(old(pool[..])).value, user, sid, now)
                         else old(Value())
    {
      ghost var before := pool[..];
      var i := Claim();
      if i.None? {
        return false;
      }
      Twice(before, i.value, before[i.value].(active := true), NewSession(user, sid, now));
      Register(i.value, user, sid, now);
      return true;
    }

    static lemma Twice(pool: seq<Session>, i: nat, a: Session, b: Session)
      requires i < |pool|
      ensures pool[i := a][i := b] == pool[i := b]
    {
    }

    /** Fills a claimed pool entry and indexes it. */
    method Register(i: nat, user: nat, sid: nat, now: nat)
      requires Valid() && index.Ends(sid) && i < POOL_SIZE
      modifies this`entryCount, index, index.entries, pool
      ensures Valid() && Value() == Registered(old(Value()), index.HomeSlot(sid), i, user, sid, now)
    {
      pool[i] := NewSession(user, sid, now);
      index.Insert(sid, i);
      entryCount := Up(entryCount);
    }

    method EntryDelete(sid: nat)
      requires Valid() && index.Ends(sid)
      requires FindSession(Value(), index.HomeSlot(sid), sid).Some? ==>
              FindSession(Value(), index.HomeSlot(sid), sid).value < POOL_SIZE
      modifies this`entryCount, index, index.entries, pool
      ensures Valid() && Value() == DropSession(old(Value()), index.HomeSlot(sid), sid)
    {
      var i := EntryGet(sid);
      if i.Some? {
        pool[i.value] := pool[i.value].(active := false);
        index.Delete(sid);
        entryCount := Down(entryCount);
      }
    }
  }

  lemma PoolSizePower()
    ensures PowerOfTwo(POOL_SIZE)
  {
    assert PowerOfTwo(8);
    assert PowerOfTwo(64);
    assert PowerOfTwo(512);
  }

  lemma {:induction false} FirstInactiveAt(pool: seq<Session>, i: nat)
    requires i < |pool| && !pool[i].active && forall j :: 0 <= j < i ==> pool[j].active
    ensures FirstInactive(pool) == Some(i)
  {
    if i > 0 {
      FirstInactiveAt(pool[1..], i - 1);
    }
  }
}
