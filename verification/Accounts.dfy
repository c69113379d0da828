/** Sessions and users together, as the handlers of src/services/cg_router.c use them: whom a session stands for. */
module Accounts {
  import opened Bytes
  import opened Division
  import opened Counting
  import opened HashMap
  import opened Users
  import SessionDb

  /** Both stores. `stamps` tells the registrations of a user slot apart: the number, by `clock`, of its last one. */
  datatype Site = Site(sessions: SessionDb.Db, users: Pool, stamps: seq<nat>, clock: nat)

  /** The requests that touch accounts; `sid` and `now` are the identifier drawn and the time. */
  datatype Request =
    | SignUp(name: seq<byte>, passHash: nat, sid: nat, now: nat)
    | LogIn(name: seq<byte>, passHash: nat, sid: nat, now: nat)
    | Guest(sid: nat, now: nat)
    | Leave(cookie: nat)  // account deletion by the session's user
    | Edit(op: UserOp)    // a profile or completion update

  ghost predicate SiteOk(s: Site, home: nat -> nat) {
    SessionDb.Agree(s.sessions, home) && PoolOk(s.users) && |s.stamps| == POOL_SIZE
    && forall i :: 0 <= i < POOL_SIZE ==> s.stamps[i] < s.clock
  }

  /** The user number in a session; 0 is a guest. */
  function UserOf(db: SessionDb.Db, home: nat, sid: nat): Option<nat>
    requires SessionDb.Sized(db) && home < SessionDb.POOL_SIZE
  {
    match SessionDb.FindSession(db, home, sid)
    case None => None
    case Some(i) => if i < |db.pool| then Some(db.pool[i].user) else None
  }

  /** The registration that a session's requests act for: the session's user, looked up by number. */
  function Account(s: Site, home: nat, sid: nat): Option<nat>
    requires SessionDb.Sized(s.sessions) && home < SessionDb.POOL_SIZE
  {
    match UserOf(s.sessions, home, sid)
    case None => None
    case Some(u) =>
      if u == 0 then None
      else match FindId(s.users.users, u)
        case None => None
        case Some(i) => if i < |s.stamps| then Some(s.stamps[i]) else None
  }

  /** The session that a request opens: its identifier and its user. */
  function Opened(s: Site, r: Request): Option<SessionDb.StoreOp> {
    match r
    case SignUp(name, passHash, sid, now) =>
      if CreateUser(s.users, name, passHash).0 != 0 then None
      else Some(SessionDb.Login(FirstInactive(s.users.users).value + 1, sid, now))
    case LogIn(name, passHash, sid, now) =>
      (match FindName(s.users.users, name)
       case None => None
       case Some(i) =>
         if s.users.users[i].passHash != passHash then None else Some(SessionDb.Login(s.users.users[i].id, sid, now)))
    case Guest(sid, now) => Some(SessionDb.Login(0, sid, now))
    case _ => None
  }

  function Serve(s: Site, home: nat -> nat, r: Request): (s': Site)
    requires SessionDb.Sized(s.sessions) && |s.stamps| == |s.users.users|
            && forall key :: home(key) < SessionDb.POOL_SIZE
    ensures SessionDb.Sized(s'.sessions) && |s'.stamps| == |s'.users.users|
  {
    var login := Opened(s, r);
    var t := if login.None? then s else s.(sessions := SessionDb.Apply(s.sessions, home, login.value));
    match r
    case SignUp(name, passHash, _, _) =>
      if login.None? then t
      else t.(users := CreateUser(s.users, name, passHash).1, clock := s.clock + 1,
              stamps := s.stamps[FirstInactive(s.users.users).value := s.clock])
    case Leave(cookie) =>
      (match UserOf(s.sessions, home(cookie), cookie)
       case None => t
       case Some(u) => if u == 0 then t else t.(users := DeleteUser(s.users, u).1))
    case Edit(op) => if op.Update? || op.Complete? then t.(users := Users.Apply(s.users, op)) else t
    case _ => t
  }

  /** The identifier is nonzero and not live already, and some row has never been used. */
  ghost predicate Draws(s: Site, r: Request) {
    Opened(s, r).Some? ==> r.sid != 0 && !HasKey(s.sessions.rows, r.sid) && HasNever(s.sessions.rows)
  }

  /** The request deletes user `u`. */
  predicate Deletes(s: Site, home: nat -> nat, r: Request, u: nat)
    requires SessionDb.Sized(s.sessions) && forall key :: home(key) < SessionDb.POOL_SIZE
  {
    r.Leave? && UserOf(s.sessions, home(r.cookie), r.cookie) == Some(u) && FindId(s.users.users, u).Some?
  }

  // ----- sessions keep their user -----

  lemma UserIsInMap(db: SessionDb.Db, home: nat -> nat, sid: nat)
    requires SessionDb.Agree(db, home)
    ensures var m := Contents(db.rows, home);
      UserOf(db, home(sid), sid) == if sid in m then Some(db.pool[m[sid]].user) else None
  {
    LookupFindsLive(db.rows, home, sid);
  }

  lemma OpenKeepsUser(db: SessionDb.Db, home: nat -> nat, op: SessionDb.StoreOp, sid: nat)
    requires SessionDb.Agree(db, home) && op.Login? && op.sid != 0 && !HasKey(db.rows, op.sid) && HasNever(db.rows)
    ensures var db' := SessionDb.Apply(db, home, op);
      SessionDb.Agree(db', home)
      && UserOf(db', home(sid), sid)
         == if sid == op.sid && db.mapCount < SessionDb.POOL_SIZE then Some(op.user) else UserOf(db, home(sid), sid)
  {
    var db' := SessionDb.Apply(db, home, op);
    SessionDb.CreateFindsSlot(db, home, op.user, op.sid, op.now);
    if db.mapCount < SessionDb.POOL_SIZE {
      SessionDb.CreateFreshAgrees(db, home, op.user, op.sid, op.now);
      SessionDb.CreateFresh(db, home, op.user, op.sid, op.now);
      UserIsInMap(db, home, sid);
      UserIsInMap(db', home, sid);
    }
  }

  // ----- one request -----

  lemma ServeKeeps(s: Site, home: nat -> nat, r: Request)
    requires SiteOk(s, home) && Draws(s, r)
    ensures SiteOk(Serve(s, home, r), home) && s.clock <= Serve(s, home, r).clock
  {
    var login := Opened(s, r);
    if login.Some? {
      OpenKeepsUser(s.sessions, home, login.value, 0);
    }
    match r
    case SignUp(name, passHash, _, _) => ApplyKeeps(s.users, Register(name, passHash));
    case Leave(cookie) =>
      var u := UserOf(s.sessions, home(cookie), cookie);
      if u.Some? {
        ApplyKeeps(s.users, Remove(u.value));
      }
    case Edit(op) => ApplyKeeps(s.users, op);
    case _ =>
  }

  /** The user of a live session is the one it was login for, whatever is served. */
  lemma ServeKeepsUser(s: Site, home: nat -> nat, r: Request, sid: nat)
    requires SiteOk(s, home) && Draws(s, r) && UserOf(s.sessions, home(sid), sid).Some?
    ensures UserOf(Serve(s, home, r).sessions, home(sid), sid) == UserOf(s.sessions, home(sid), sid)
  {
    var login := Opened(s, r);
    if login.Some? {
      OpenKeepsUser(s.sessions, home, login.value, sid);
      UserIsInMap(s.sessions, home, sid);
      LookupFindsLive(s.sessions.rows, home, sid);
    }
  }

  /** Registration `a` is the one in user slot `u - 1`. */
  predicate Holds(s: Site, u: nat, a: nat) {
    0 < u <= |s.users.users| && u <= |s.stamps| && s.users.users[u - 1].active && s.stamps[u - 1] == a
  }

  /** A registration keeps its slot until it is deleted, and nothing brings it back. */
  lemma ServeHolds(s: Site, home: nat -> nat, r: Request, u: nat, a: nat)
    requires SiteOk(s, home) && Draws(s, r) && a < s.clock
    ensures Holds(Serve(s, home, r), u, a) <==> Holds(s, u, a) && !Deletes(s, home, r, u)
  {
    match r
    case SignUp(_, _, _, _) =>
    case Leave(cookie) => LeaveHolds(s, home, cookie, u, a);
    case Edit(op) => EditHolds(s, home, op, u, a);
    case _ =>
  }

  lemma LeaveHolds(s: Site, home: nat -> nat, cookie: nat, u: nat, a: nat)
    requires SiteOk(s, home)
    ensures Holds(Serve(s, home, Leave(cookie)), u, a) <==> Holds(s, u, a) && !Deletes(s, home, Leave(cookie), u)
  {
    var v := UserOf(s.sessions, home(cookie), cookie);
    if v.Some? {
      FindIdIsSlot(s.users, v.value);
    }
  }

  lemma EditHolds(s: Site, home: nat -> nat, op: UserOp, u: nat, a: nat)
    requires SiteOk(s, home)
    ensures Holds(Serve(s, home, Edit(op)), u, a) <==> Holds(s, u, a)
  {
    if op.Update? || op.Complete? {
      FindIdIsSlot(s.users, op.id);
    }
  }

  lemma AccountIs(s: Site, home: nat -> nat, sid: nat, u: nat, a: nat)
    requires SiteOk(s, home) && UserOf(s.sessions, home(sid), sid) == Some(u) && u > 0
    ensures Account(s, home(sid), sid) == Some(a) <==> Holds(s, u, a)
  {
    FindIdIsSlot(s.users, u);
  }

  // ----- runs -----

  ghost predicate AllDraw(s: Site, home: nat -> nat, rs: seq<Request>)
    requires SiteOk(s, home)
    decreases |rs|
  {
    rs == [] || (Draws(s, rs[0]) && (ServeKeeps(s, home, rs[0]); AllDraw(Serve(s, home, rs[0]), home, rs[1..])))
  }

  ghost function ServeAll(s: Site, home: nat -> nat, rs: seq<Request>): (s': Site)
    requires SiteOk(s, home) && AllDraw(s, home, rs)
    ensures SiteOk(s', home)
    decreases |rs|
  {
    if rs == [] then s else ServeKeeps(s, home, rs[0]); ServeAll(Serve(s, home, rs[0]), home, rs[1..])
  }

  /** Some request of the run deletes user `u`. */
  ghost predicate DeletedAlong(s: Site, home: nat -> nat, rs: seq<Request>, u: nat)
    requires SiteOk(s, home) && AllDraw(s, home, rs)
    decreases |rs|
  {
    rs != []
    && (Deletes(s, home, rs[0], u)
        || (ServeKeeps(s, home, rs[0]); DeletedAlong(Serve(s, home, rs[0]), home, rs[1..], u)))
  }

  lemma {:induction false} RunHolds(s: Site, home: nat -> nat, rs: seq<Request>, sid: nat, u: nat, a: nat)
    requires SiteOk(s, home) && AllDraw(s, home, rs) && UserOf(s.sessions, home(sid), sid) == Some(u) && a < s.clock
    ensures var s' := ServeAll(s, home, rs);
      UserOf(s'.sessions, home(sid), sid) == Some(u)
      && (Holds(s', u, a) <==> Holds(s, u, a) && !DeletedAlong(s, home, rs, u))
    decreases |rs|
  {
    if rs != [] {
      ServeKeeps(s, home, rs[0]);
      ServeKeepsUser(s, home, rs[0], sid);
      ServeHolds(s, home, rs[0], u, a);
      RunHolds(Serve(s, home, rs[0]), home, rs[1..], sid, u, a);
    }
  }

  /** After any run a session still stands for the registration it stood for exactly when no request of the run
      deleted that user. */
  lemma SameAccountIff(s: Site, home: nat -> nat, rs: seq<Request>, sid: nat)
    requires SiteOk(s, home) && AllDraw(s, home, rs) && Account(s, home(sid), sid).Some?
    ensures Account(ServeAll(s, home, rs), home(sid), sid) == Account(s, home(sid), sid)
       <==> !DeletedAlong(s, home, rs, UserOf(s.sessions, home(sid), sid).value)
  {
    var u, a := UserOf(s.sessions, home(sid), sid).value, Account(s, home(sid), sid).value;
    AccountIs(s, home, sid, u, a);
    RunHolds(s, home, rs, sid, u, a);
    AccountIs(ServeAll(s, home, rs), home, sid, u, a);
  }

  /** A request that opens a session makes it stand for the user it names. */
  lemma OpenedFor(s: Site, home: nat -> nat, r: Request)
    requires SiteOk(s, home) && Draws(s, r) && r.LogIn? && Opened(s, r).Some?
    requires s.sessions.mapCount < SessionDb.POOL_SIZE
    ensures var i := FindName(s.users.users, r.name).value;
      Account(Serve(s, home, r), home(r.sid), r.sid) == Some(s.stamps[i])
  {
    var i := FindName(s.users.users, r.name).value;
    OpenKeepsUser(s.sessions, home, Opened(s, r).value, r.sid);
    ServeKeeps(s, home, r);
    AccountIs(Serve(s, home, r), home, r.sid, i + 1, s.stamps[i]);
  }

  /** With a wrong password, or for a name that nobody has, a login opens no session and changes nothing. */
  lemma LoginRejected(s: Site, home: nat -> nat, r: Request)
    requires SiteOk(s, home) && r.LogIn?
    requires forall i :: 0 <= i < POOL_SIZE && s.users.users[i].active && s.users.users[i].name == r.name ==>
               s.users.users[i].passHash != r.passHash
    ensures Serve(s, home, r) == s
  {
  }

  /** A sign-up with a name that fits opens a session for the new registration, and a login with the same name and
      password after it opens another one for the same registration; with another password it opens none. */
  lemma SignUpThenLogIn(s: Site, home: nat -> nat, r: Request, again: Request)
    requires SiteOk(s, home) && r.SignUp? && |r.name| <= NAME_MAX && CreateUser(s.users, r.name, r.passHash).0 == 0
    requires Draws(s, r) && s.sessions.mapCount < SessionDb.POOL_SIZE
    requires again.LogIn? && again.name == r.name
    ensures var t := Serve(s, home, r);
      SiteOk(t, home) && Account(t, home(r.sid), r.sid) == Some(s.clock)
      && (again.passHash != r.passHash ==> Serve(t, home, again) == t)
      && (again.passHash == r.passHash && Draws(t, again) && t.sessions.mapCount < SessionDb.POOL_SIZE ==>
            Account(Serve(t, home, again), home(again.sid), again.sid) == Some(s.clock))
  {
    var t, i := Serve(s, home, r), FirstInactive(s.users.users).value;
    ServeKeeps(s, home, r);
    SignUpOpens(s, home, r, i);
    assert r.name[..|r.name|] == r.name;
    FoundWhereStored(s.users.users, t.users.users, r.name, i);
    if again.passHash == r.passHash && Draws(t, again) && t.sessions.mapCount < SessionDb.POOL_SIZE {
      OpenedFor(t, home, again);
    }
  }

  lemma SignUpOpens(s: Site, home: nat -> nat, r: Request, i: nat)
    requires SiteOk(s, home) && r.SignUp? && CreateUser(s.users, r.name, r.passHash).0 == 0
    requires Draws(s, r) && s.sessions.mapCount < SessionDb.POOL_SIZE && FirstInactive(s.users.users) == Some(i)
    ensures Account(Serve(s, home, r), home(r.sid), r.sid) == Some(s.clock)
  {
    var t := Serve(s, home, r);
    ServeKeeps(s, home, r);
    SignUpUser(s, home, r, i);
    SignUpHolds(s, home, r, i);
    AccountIs(t, home, r.sid, i + 1, s.clock);
  }

  lemma SignUpUser(s: Site, home: nat -> nat, r: Request, i: nat)
    requires SiteOk(s, home) && r.SignUp? && CreateUser(s.users, r.name, r.passHash).0 == 0
    requires Draws(s, r) && s.sessions.mapCount < SessionDb.POOL_SIZE && FirstInactive(s.users.users) == Some(i)
    ensures UserOf(Serve(s, home, r).sessions, home(r.sid), r.sid) == Some(i + 1)
  {
    var login := SessionDb.Login(i + 1, r.sid, r.now);
    assert Opened(s, r) == Some(login) && !HasKey(s.sessions.rows, r.sid);
    OpenKeepsUser(s.sessions, home, login, r.sid);
    SignUpSessions(s, home, r, login);
  }

  lemma SignUpSessions(s: Site, home: nat -> nat, r: Request, login: SessionDb.StoreOp)
    requires SiteOk(s, home) && r.SignUp? && Opened(s, r) == Some(login)
    ensures Serve(s, home, r).sessions == SessionDb.Apply(s.sessions, home, login)
  {
  }

  lemma SignUpHolds(s: Site, home: nat -> nat, r: Request, i: nat)
    requires SiteOk(s, home) && r.SignUp? && CreateUser(s.users, r.name, r.passHash).0 == 0
    requires FirstInactive(s.users.users) == Some(i)
    ensures Holds(Serve(s, home, r), i + 1, s.clock)
  {
  }

  /** A guest's session is found, with user number 0, and stands for no registration. */
  lemma GuestOpens(s: Site, home: nat -> nat, r: Request)
    requires SiteOk(s, home) && r.Guest? && Draws(s, r) && s.sessions.mapCount < SessionDb.POOL_SIZE
    ensures var t := Serve(s, home, r);
      UserOf(t.sessions, home(r.sid), r.sid) == Some(0) && Account(t, home(r.sid), r.sid).None?
  {
    OpenKeepsUser(s.sessions, home, Opened(s, r).value, r.sid);
  }

  /** What a request asks of the user pool. */
  function UserOps(s: Site, home: nat -> nat, r: Request): seq<UserOp>
    requires SessionDb.Sized(s.sessions) && forall key :: home(key) < SessionDb.POOL_SIZE
  {
    match r
    case SignUp(name, passHash, _, _) => [Register(name, passHash)]
    case Leave(cookie) =>
      (match UserOf(s.sessions, home(cookie), cookie)
       case None => []
       case Some(u) => if u == 0 then [] else [Remove(u)])
    case Edit(op) => if op.Update? || op.Complete? then [op] else []
    case _ => []
  }

  lemma ServeUsers(s: Site, home: nat -> nat, r: Request)
    requires SiteOk(s, home)
    ensures Serve(s, home, r).users == Users.ApplyAll(s.users, UserOps(s, home, r))
  {
    var ops := UserOps(s, home, r);
    if ops != [] {
      assert ops[1..] == [];
      assert Users.ApplyAll(s.users, ops) == Users.ApplyAll(Users.Apply(s.users, ops[0]), []);
    }
  }

  /** The same for a run. */
  ghost function AllUserOps(s: Site, home: nat -> nat, rs: seq<Request>): seq<UserOp>
    requires SiteOk(s, home) && AllDraw(s, home, rs)
    decreases |rs|
  {
    if rs == [] then []
    else ServeKeeps(s, home, rs[0]); UserOps(s, home, rs[0]) + AllUserOps(Serve(s, home, rs[0]), home, rs[1..])
  }

  lemma {:induction false} ApplyJoin(p: Pool, ops: seq<UserOp>, more: seq<UserOp>)
    ensures Users.ApplyAll(p, ops + more) == Users.ApplyAll(Users.ApplyAll(p, ops), more)
    decreases |ops|
  {
    if ops == [] {
      assert ops + more == more;
    } else {
      assert (ops + more)[1..] == ops[1..] + more;
      ApplyJoin(Users.Apply(p, ops[0]), ops[1..], more);
    }
  }

  /** Over every run the user pool takes exactly the operations that the requests ask for, in order: all that holds of
      runs of the pool holds of it here. */
  lemma {:induction false} SiteUsers(s: Site, home: nat -> nat, rs: seq<Request>)
    requires SiteOk(s, home) && AllDraw(s, home, rs)
    ensures ServeAll(s, home, rs).users == Users.ApplyAll(s.users, AllUserOps(s, home, rs))
    decreases |rs|
  {
    if rs != [] {
      var t := Serve(s, home, rs[0]);
      ServeKeeps(s, home, rs[0]);
      ServeUsers(s, home, rs[0]);
      SiteUsers(t, home, rs[1..]);
      ApplyJoin(s.users, UserOps(s, home, rs[0]), AllUserOps(t, home, rs[1..]));
    }
  }

  /** A session outlives its user: when the user leaves and the next registration takes the first free slot, which
      is the user's when all before it are taken, the old session stands for the new registration. */
  lemma SessionIsInherited(s: Site, home: nat -> nat, sid: nat, r: Request)
    requires SiteOk(s, home) && Account(s, home(sid), sid).Some? && r.SignUp?
    requires r.sid != 0 && r.sid != sid && !HasKey(s.sessions.rows, r.sid) && HasNever(s.sessions.rows)
    requires var u := UserOf(s.sessions, home(sid), sid).value;
      (forall j :: 0 <= j < u - 1 && j < |s.users.users| ==> s.users.users[j].active)
      && forall j :: 0 <= j < |s.users.users| && s.users.users[j].active ==> s.users.users[j].name != r.name
    ensures AllDraw(s, home, [Leave(sid), r])
    ensures Account(ServeAll(s, home, [Leave(sid), r]), home(sid), sid) == Some(s.clock) != Account(s, home(sid), sid)
  {
    var t := Serve(s, home, Leave(sid));
    Vacates(s, home, sid, r);
    TakesOver(t, home, UserOf(s.sessions, home(sid), sid).value, sid, r);
    TwoServed(s, home, Leave(sid), r);
  }

  lemma TwoServed(s: Site, home: nat -> nat, a: Request, b: Request)
    requires SiteOk(s, home) && Draws(s, a) && SiteOk(Serve(s, home, a), home) && Draws(Serve(s, home, a), b)
    ensures AllDraw(s, home, [a, b]) && ServeAll(s, home, [a, b]) == Serve(Serve(s, home, a), home, b)
  {
    var t := Serve(s, home, a);
    ServeKeeps(t, home, b);
    var t' := Serve(t, home, b);
    assert [a, b][1..] == [b] && [b][1..] == [];
    assert AllDraw(t', home, []) && AllDraw(t, home, [b]);
    assert ServeAll(t, home, [b]) == ServeAll(t', home, []) == t';
  }

  /** The user's slot is free and the first one that is; the session is still there. */
  ghost predicate FirstVacant(t: Site, home: nat -> nat, u: nat, sid: nat)
    requires SiteOk(t, home)
  {
    UserOf(t.sessions, home(sid), sid) == Some(u) && u > 0 && FirstInactive(t.users.users) == Some(u - 1)
  }

  lemma Vacates(s: Site, home: nat -> nat, sid: nat, r: Request)
    requires SiteOk(s, home) && Account(s, home(sid), sid).Some? && r.SignUp?
    requires var u := UserOf(s.sessions, home(sid), sid).value;
      (forall j :: 0 <= j < u - 1 && j < |s.users.users| ==> s.users.users[j].active)
      && forall j :: 0 <= j < |s.users.users| && s.users.users[j].active ==> s.users.users[j].name != r.name
    ensures var t, u := Serve(s, home, Leave(sid)), UserOf(s.sessions, home(sid), sid).value;
      SiteOk(t, home) && t.sessions == s.sessions && t.clock == s.clock && FirstVacant(t, home, u, sid)
      && FindName(t.users.users, r.name).None? && Account(s, home(sid), sid).value < s.clock
  {
    var t, u := Serve(s, home, Leave(sid)), UserOf(s.sessions, home(sid), sid).value;
    FindIdIsSlot(s.users, u);
    ServeKeeps(s, home, Leave(sid));
    assert t.users.users == s.users.users[u - 1 := s.users.users[u - 1].(active := false)];
    FirstInactiveAt(t.users.users, u - 1);
  }

  lemma TakesOver(t: Site, home: nat -> nat, u: nat, sid: nat, r: Request)
    requires SiteOk(t, home) && FirstVacant(t, home, u, sid) && r.SignUp? && FindName(t.users.users, r.name).None?
    requires r.sid != 0 && !HasKey(t.sessions.rows, r.sid) && HasNever(t.sessions.rows)
    ensures Draws(t, r) && SiteOk(Serve(t, home, r), home)
    ensures Account(Serve(t, home, r), home(sid), sid) == Some(t.clock)
  {
    ServeKeeps(t, home, r);
    ServeKeepsUser(t, home, r, sid);
    AccountIs(Serve(t, home, r), home, sid, u, t.clock);
  }
}
