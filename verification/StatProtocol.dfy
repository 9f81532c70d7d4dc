/**
  Many backends running pgss_store and entry_reset at once. Each C statement that
  touches shared memory is one step, and steps of different backends interleave
  freely. A backend loads an entry's counters and stores them back in two steps,
  so only the spinlock stands between it and a lost update.
 */
module StatProtocol {
  import opened Wrappers
  import opened StatTable

  type Pid = nat

  datatype Mode = Shared | Exclusive

  /** Where a backend is. The fields are its local variables. */
  datatype Proc =
    | Idle
    | WantShared(key: HashKey, d: Counters)
    | Searching(key: HashKey, d: Counters)
    | WantExclusive(key: HashKey, d: Counters)
    | Allocating(key: HashKey, d: Counters)
    | Evicting(key: HashKey, d: Counters, victims: set<Slot>)
    | Found(key: HashKey, d: Counters, at: Slot, mode: Mode)
    | InMutex(key: HashKey, d: Counters, at: Slot, mode: Mode)
    | Loaded(key: HashKey, d: Counters, at: Slot, mode: Mode, copy: Counters)
    | Stored(key: HashKey, d: Counters, at: Slot, mode: Mode)
    | Leaving(key: HashKey, d: Counters, mode: Mode)
    | WantReset
    | Resetting
  {
    /** How this backend holds pgss->lock. */
    function Lock(): Option<Mode> {
      match this
      case Searching(_, _) => Some(Shared)
      case Allocating(_, _) | Evicting(_, _, _) | Resetting => Some(Exclusive)
      case Found(_, _, _, m) => Some(m)
      case InMutex(_, _, _, m) => Some(m)
      case Loaded(_, _, _, m, _) => Some(m)
      case Stored(_, _, _, m) => Some(m)
      case Leaving(_, _, m) => Some(m)
      case _ => None
    }

    /** This backend has an entry pointer it will still follow. */
    predicate Refers() {
      Found? || InMutex? || Loaded? || Stored?
    }

    predicate InSpinlock() {
      InMutex? || Loaded? || Stored?
    }

    /** This backend has added its counters to the table without having returned yet. */
    predicate Pending() {
      Stored? || Leaving?
    }
  }

  /** Counters stored for a statement, or dropped with its entry. */
  datatype Record = Record(key: HashKey, counters: Counters)

  /** The shared state, and a log of the stores that returned and of the entries removed. */
  datatype State = State(max: nat, slots: Slots, holders: map<Pid, Mode>, procs: map<Pid, Proc>,
                         completed: seq<Record>, dropped: seq<Record>)

  // Steps of one backend

  datatype Step =
    | BeginStore(key: HashKey, d: Counters)
    | AcquireShared
    | Hit(at: Slot)
    | Miss
    | AcquireExclusive
    | ChooseVictims(victims: set<Slot>)
    | RemoveVictim(victim: Slot)
    | EndEviction
    | Enter(entered: Slot)
    | SpinAcquire
    | Load
    | Store
    | SpinRelease
    | Return
    | BeginReset
    | AcquireReset
    | RemoveAny(any: Slot)
    | EndReset

  /** One step's effect on the backend itself (me), the table (t) and the lock's holders (h). */
  ghost predicate Acts(max: nat, p: Pid, step: Step, me: Proc, me': Proc, t: Slots, t': Slots,
                       h: map<Pid, Mode>, h': map<Pid, Mode>)
  {
    match step
    case BeginStore(key, d) =>
      me.Idle? && d.calls == 1 && me' == WantShared(key, d) && t' == t && h' == h
    case AcquireShared =>
      && me.WantShared? && (forall q :: q in h ==> h[q] == Shared)
      && me' == Searching(me.key, me.d) && t' == t && h' == h[p := Shared]
    case Hit(at) =>
      && me.Searching? && at in t && t[at].key == me.key
      && me' == Found(me.key, me.d, at, Shared) && t' == t && h' == h
    case Miss =>
      && me.Searching? && !Holds(t, me.key)
      && me' == WantExclusive(me.key, me.d) && t' == t && h' == h - {p}
    case AcquireExclusive =>
      && me.WantExclusive? && h == map[]
      && me' == Allocating(me.key, me.d) && t' == t && h' == h[p := Exclusive]
    case ChooseVictims(victims) =>
      && me.Allocating? && |t| >= max && Chosen(t, t', victims)
      && me' == Evicting(me.key, me.d, victims) && h' == h
    case RemoveVictim(x) =>
      && me.Evicting? && x in me.victims && x in t
      && me' == Evicting(me.key, me.d, me.victims - {x}) && t' == t - {x} && h' == h
    case EndEviction =>
      && me.Evicting? && me.victims == {}
      && me' == Allocating(me.key, me.d) && t' == t && h' == h
    case Enter(at) =>
      && me.Allocating? && |t| < max && Entered(t, t', me.key, at)
      && me' == Found(me.key, me.d, at, Exclusive) && h' == h
    case SpinAcquire =>
      && me.Found? && me.at in t && !t[me.at].mutex
      && me' == InMutex(me.key, me.d, me.at, me.mode)
      && t' == t[me.at := t[me.at].(mutex := true)] && h' == h
    case Load =>
      && me.InMutex? && me.at in t
      && me' == Loaded(me.key, me.d, me.at, me.mode, t[me.at].counters) && t' == t && h' == h
    case Store =>
      && me.Loaded? && me.at in t
      && me' == Stored(me.key, me.d, me.at, me.mode)
      && t' == t[me.at := t[me.at].(counters := me.copy.Plus(me.d))] && h' == h
    case SpinRelease =>
      && me.Stored? && me.at in t
      && me' == Leaving(me.key, me.d, me.mode) && t' == t[me.at := t[me.at].(mutex := false)] && h' == h
    case Return =>
      me.Leaving? && me' == Idle && t' == t && h' == h - {p}
    case BeginReset =>
      me.Idle? && me' == WantReset && t' == t && h' == h
    case AcquireReset =>
      me.WantReset? && h == map[] && me' == Resetting && t' == t && h' == h[p := Exclusive]
    case RemoveAny(x) =>
      me.Resetting? && x in t && me' == me && t' == t - {x} && h' == h
    case EndReset =>
      me.Resetting? && t == map[] && me' == Idle && t' == t && h' == h - {p}
  }

  ghost predicate Next(s: State, s': State, p: Pid, step: Step) {
    && p in s.procs && p in s'.procs
    && Acts(s.max, p, step, s.procs[p], s'.procs[p], s.slots, s'.slots, s.holders, s'.holders)
    && s'.max == s.max
    && s'.procs == s.procs[p := s'.procs[p]]
    && s'.completed == s.completed + Reported(step, s.procs[p])
    && s'.dropped == s.dropped + Removed(step, s.slots)
  }

  /** What a step adds to the stores that returned. */
  ghost function Reported(step: Step, me: Proc): seq<Record> {
    if step.Return? && me.Leaving? then [Record(me.key, me.d)] else []
  }

  /** What a step adds to the entries removed. */
  ghost function Removed(step: Step, t: Slots): seq<Record> {
    match step
    case RemoveVictim(x) => if x in t then [Record(t[x].key, t[x].counters)] else []
    case RemoveAny(x) => if x in t then [Record(t[x].key, t[x].counters)] else []
    case _ => []
  }

  ghost predicate Initial(s: State) {
    && s.max > 0 && s.slots == map[] && s.holders == map[]
    && s.completed == [] && s.dropped == []
    && forall p :: p in s.procs ==> s.procs[p] == Idle
  }

  // The ledger

  datatype Field =
    | Calls | TotalTime | Rows | SharedHit | SharedRead | SharedWritten
    | LocalHit | LocalRead | LocalWritten | TempRead | TempWritten

  function Get(c: Counters, f: Field): real {
    match f
    case Calls => c.calls as real
    case TotalTime => c.totalTime
    case Rows => c.rows as real
    case SharedHit => c.sharedHit as real
    case SharedRead => c.sharedRead as real
    case SharedWritten => c.sharedWritten as real
    case LocalHit => c.localHit as real
    case LocalRead => c.localRead as real
    case LocalWritten => c.localWritten as real
    case TempRead => c.tempRead as real
    case TempWritten => c.tempWritten as real
  }

  lemma GetPlus(c: Counters, d: Counters, f: Field)
    ensures Get(c.Plus(d), f) == Get(c, f) + Get(d, f)
  {
  }

  ghost function Pick<K(!new)>(m: map<K, real>): K
    requires m != map[]
    ensures Pick(m) in m
  {
    assert m.Keys != {};
    var k :| k in m; k
  }

  ghost function Sum<K(!new)>(m: map<K, real>): real
    decreases |m.Keys|
  {
    if m == map[] then 0.0
    else
      assert (m - {Pick(m)}).Keys == m.Keys - {Pick(m)};
      m[Pick(m)] + Sum(m - {Pick(m)})
  }

  lemma {:induction false} SumRemove<K(!new)>(m: map<K, real>, k: K)
    requires k in m
    ensures Sum(m) == m[k] + Sum(m - {k})
    decreases |m.Keys|
  {
    var j := Pick(m);
    if j != k {
      assert (m - {j}).Keys == m.Keys - {j} && (m - {k}).Keys == m.Keys - {k};
      SumRemove(m - {j}, k);
      SumRemove(m - {k}, j);
      assert m - {j} - {k} == m - {k} - {j};
    }
  }

  lemma {:induction false} SumUpdate<K(!new)>(m: map<K, real>, k: K, v: real)
    ensures Sum(m[k := v]) == v + Sum(m - {k})
  {
    SumRemove(m[k := v], k);
    assert m[k := v] - {k} == m - {k};
  }

  /** The statements an account is drawn up for: all of them, or one. */
  datatype Account = All | Only(key: HashKey) {
    predicate Has(k: HashKey) { All? || k == key }
  }

  ghost function Part(a: Account, k: HashKey, c: Counters, f: Field): real {
    if a.Has(k) then Get(c, f) else 0.0
  }

  ghost function Column(t: Slots, a: Account, f: Field): map<Slot, real> {
    map x | x in t :: Part(a, t[x].key, t[x].counters, f)
  }

  ghost function PendingOf(me: Proc, a: Account, f: Field): real {
    if me.Pending() then Part(a, me.key, me.d, f) else 0.0
  }

  ghost function Unreported(procs: map<Pid, Proc>, a: Account, f: Field): map<Pid, real> {
    map p | p in procs :: PendingOf(procs[p], a, f)
  }

  ghost function Logged(log: seq<Record>, a: Account, f: Field): real {
    if log == [] then 0.0
    else
      var r := log[|log| - 1];
      Logged(log[..|log| - 1], a, f) + Part(a, r.key, r.counters, f)
  }

  lemma {:induction false} LoggedSnoc(log: seq<Record>, r: Record, a: Account, f: Field)
    ensures Logged(log + [r], a, f) == Logged(log, a, f) + Part(a, r.key, r.counters, f)
  {
    assert (log + [r])[..|log|] == log;
  }

  lemma {:induction false} LoggedOne(r: Record, a: Account, f: Field)
    ensures Logged([r], a, f) == Part(a, r.key, r.counters, f)
  {
    assert [r][..0] == [];
  }

  lemma {:induction false} LoggedMore(log: seq<Record>, more: seq<Record>, a: Account, f: Field)
    requires |more| <= 1
    ensures Logged(log + more, a, f) == Logged(log, a, f) + Logged(more, a, f)
  {
    if more == [] {
      assert log + more == log;
    } else {
      var r := more[0];
      assert more == [r];
      LoggedSnoc(log, r, a, f);
      LoggedOne(r, a, f);
    }
  }

  lemma {:induction false} ColumnUpdate(t: Slots, x: Slot, e: Entry, a: Account, f: Field)
    ensures Sum(Column(t[x := e], a, f)) == Sum(Column(t, a, f)) + Part(a, e.key, e.counters, f)
            - if x in t then Part(a, t[x].key, t[x].counters, f) else 0.0
  {
    var m, v := Column(t, a, f), Part(a, e.key, e.counters, f);
    assert Column(t[x := e], a, f) == m[x := v];
    SumUpdate(m, x, v);
    if x in t {
      SumRemove(m, x);
    } else {
      assert m - {x} == m;
    }
  }

  lemma {:induction false} ColumnRemove(t: Slots, x: Slot, a: Account, f: Field)
    requires x in t
    ensures Sum(Column(t - {x}, a, f)) == Sum(Column(t, a, f)) - Part(a, t[x].key, t[x].counters, f)
  {
    SumRemove(Column(t, a, f), x);
    assert Column(t - {x}, a, f) == Column(t, a, f) - {x};
  }

  lemma {:induction false} UnreportedUpdate(procs: map<Pid, Proc>, p: Pid, q: Proc, a: Account, f: Field)
    requires p in procs
    ensures Sum(Unreported(procs[p := q], a, f)) ==
            Sum(Unreported(procs, a, f)) + PendingOf(q, a, f) - PendingOf(procs[p], a, f)
  {
    var m := Unreported(procs, a, f);
    assert Unreported(procs[p := q], a, f) == m[p := PendingOf(q, a, f)];
    SumUpdate(m, p, PendingOf(q, a, f));
    SumRemove(m, p);
  }

  /** What was stored is in the table or was dropped with a removed entry, for all statements and for each. */
  ghost predicate Balanced(s: State, a: Account, f: Field) {
    Sum(Column(s.slots, a, f)) + Logged(s.dropped, a, f) ==
    Logged(s.completed, a, f) + Sum(Unreported(s.procs, a, f))
  }

  // The invariant

  ghost predicate LockOk(s: State) {
    && s.holders.Keys <= s.procs.Keys
    && (forall p :: p in s.procs ==>
          s.procs[p].Lock() == if p in s.holders then Some(s.holders[p]) else None)
    && (forall p, q :: p in s.holders && q in s.holders && s.holders[p] == Exclusive ==> p == q)
  }

  ghost predicate RefOk(me: Proc, t: Slots) {
    && (me.Refers() ==> me.at in t && t[me.at].key == me.key)
    && (me.InSpinlock() ==> me.at in t && t[me.at].mutex)
    && (me.Loaded? ==> me.at in t && me.copy == t[me.at].counters)
    && (me.Evicting? ==> me.victims <= t.Keys)
  }

  ghost predicate SameSpinlock(me: Proc, you: Proc) {
    me.InSpinlock() && you.InSpinlock() && me.at == you.at
  }

  ghost predicate SpinOk(s: State) {
    && (forall p, q :: p in s.procs && q in s.procs && SameSpinlock(s.procs[p], s.procs[q]) ==> p == q)
    && (forall x :: x in s.slots && s.slots[x].mutex ==>
          exists p :: p in s.procs && s.procs[p].InSpinlock() && s.procs[p].at == x)
  }

  ghost predicate TableOk(s: State) {
    UniqueKeys(s.slots) && |s.slots| <= s.max && s.max > 0
  }

  ghost predicate Inv(s: State) {
    && TableOk(s)
    && LockOk(s)
    && (forall p :: p in s.procs ==> RefOk(s.procs[p], s.slots))
    && SpinOk(s)
    && (forall a, f :: Balanced(s, a, f))
  }

  // One step keeps each part

  /** Acquiring needs the lock to be free enough; everything else keeps or gives it up. */
  ghost predicate LockEffect(p: Pid, me: Proc, me': Proc, h: map<Pid, Mode>, h': map<Pid, Mode>) {
    || (me'.Lock() == me.Lock() && h' == h)
    || (me'.Lock() == None && h' == h - {p})
    || (me'.Lock() == Some(Shared) && h' == h[p := Shared] && forall q :: q in h ==> h[q] == Shared)
    || (me'.Lock() == Some(Exclusive) && h' == map[p := Exclusive])
  }

  lemma StepLockEffect(max: nat, p: Pid, step: Step, me: Proc, me': Proc, t: Slots, t': Slots,
                       h: map<Pid, Mode>, h': map<Pid, Mode>)
    requires Acts(max, p, step, me, me', t, t', h, h')
    ensures LockEffect(p, me, me', h, h')
  {
  }

  lemma LockKept(s: State, s': State, p: Pid, step: Step)
    requires LockOk(s) && Next(s, s', p, step)
    ensures LockOk(s')
  {
    StepLockEffect(s.max, p, step, s.procs[p], s'.procs[p], s.slots, s'.slots, s.holders, s'.holders);
  }

  /** What a step can do to the table. */
  datatype Change =
    | Same
    | Decay
    | Remove(x: Slot)
    | Insert(x: Slot, key: HashKey)
    | Mutex(x: Slot, held: bool)
    | Update(x: Slot, counters: Counters)

  ghost predicate Changed(t: Slots, t': Slots, c: Change) {
    match c
    case Same => t' == t
    case Decay => t' == map x | x in t :: t[x].Decayed()
    case Remove(x) => x in t && t' == t - {x}
    case Insert(x, key) => x !in t && !Holds(t, key) && t' == t[x := Entry(key, ZERO.(usage := USAGE_INIT), false)]
    case Mutex(x, held) => x in t && t' == t[x := t[x].(mutex := held)]
    case Update(x, counters) => x in t && t' == t[x := t[x].(counters := counters)]
  }

  ghost function ChangeOf(step: Step, me: Proc, t: Slots): Change {
    match step
    case ChooseVictims(_) => Decay
    case RemoveVictim(x) => Remove(x)
    case RemoveAny(x) => Remove(x)
    case Enter(x) => if !me.Allocating? || Holds(t, me.key) then Same else Insert(x, me.key)
    case SpinAcquire => if me.Found? then Mutex(me.at, true) else Same
    case Store => if me.Loaded? then Update(me.at, me.copy.Plus(me.d)) else Same
    case SpinRelease => if me.Stored? then Mutex(me.at, false) else Same
    case _ => Same
  }

  /** A store is the only update, and a removal is recorded. */
  ghost predicate ChangeFits(step: Step, me: Proc, t: Slots, c: Change) {
    && (step.Store? <==> c.Update?)
    && (step.Store? ==> me.Loaded? && c.x == me.at && c.counters == me.copy.Plus(me.d))
    && Removed(step, t) == if c.Remove? && c.x in t then [Record(t[c.x].key, t[c.x].counters)] else []
  }

  lemma StepChange(max: nat, p: Pid, step: Step, me: Proc, me': Proc, t: Slots, t': Slots,
                   h: map<Pid, Mode>, h': map<Pid, Mode>)
    requires Acts(max, p, step, me, me', t, t', h, h')
    ensures var c := ChangeOf(step, me, t);
      Changed(t, t', c) && ChangeFits(step, me, t, c) && (c.Insert? ==> |t| < max)
  {
  }

  lemma Shrunk(t: Slots, x: Slot)
    requires UniqueKeys(t)
    ensures UniqueKeys(t - {x}) && |t - {x}| <= |t|
  {
    assert (t - {x}).Keys == t.Keys - {x};
  }

  lemma Touched(t: Slots, x: Slot, e: Entry)
    requires UniqueKeys(t) && (if x in t then e.key == t[x].key else !Holds(t, e.key))
    ensures UniqueKeys(t[x := e]) && |t[x := e]| == |t| + if x in t then 0 else 1
  {
    assert t[x := e].Keys == t.Keys + {x};
  }

  lemma ChangeKeepsTable(t: Slots, t': Slots, c: Change, max: nat)
    requires UniqueKeys(t) && |t| <= max && Changed(t, t', c) && (c.Insert? ==> |t| < max)
    ensures UniqueKeys(t') && |t'| <= max
  {
    match c
    case Same =>
    case Decay => assert t'.Keys == t.Keys;
    case Remove(x) => Shrunk(t, x);
    case Insert(x, _) => Touched(t, x, t'[x]);
    case Mutex(x, _) => Touched(t, x, t'[x]);
    case Update(x, _) => Touched(t, x, t'[x]);
  }

  lemma TableKept(s: State, s': State, p: Pid, step: Step)
    requires TableOk(s) && Next(s, s', p, step)
    ensures TableOk(s')
  {
    StepChange(s.max, p, step, s.procs[p], s'.procs[p], s.slots, s'.slots, s.holders, s'.holders);
    ChangeKeepsTable(s.slots, s'.slots, ChangeOf(step, s.procs[p], s.slots), s.max);
  }

  /** While one backend holds the lock exclusively, no other is inside. */
  lemma Alone(s: State, p: Pid, q: Pid)
    requires LockOk(s) && p in s.procs && q in s.procs && p != q
    requires s.procs[p].Lock() == Some(Exclusive)
    ensures s.procs[q].Lock() == None
  {
  }

  /** A step leaves another backend's entry pointer good. */
  lemma OtherRefKept(max: nat, p: Pid, step: Step, me: Proc, me': Proc, t: Slots, t': Slots,
                     h: map<Pid, Mode>, h': map<Pid, Mode>, you: Proc)
    requires Acts(max, p, step, me, me', t, t', h, h')
    requires RefOk(me, t) && RefOk(you, t) && !SameSpinlock(me, you)
    requires me.Lock() == Some(Exclusive) ==> you.Lock() == None
    ensures RefOk(you, t')
  {
  }

  lemma OwnEntryKept(max: nat, p: Pid, step: Step, me: Proc, me': Proc, t: Slots, t': Slots,
                     h: map<Pid, Mode>, h': map<Pid, Mode>)
    requires Acts(max, p, step, me, me', t, t', h, h') && RefOk(me, t)
    ensures me'.Refers() ==> me'.at in t' && t'[me'.at].key == me'.key
  {
    if me.Refers() {
      OwnEntryStays(max, p, step, me, me', t, t', h, h');
    } else {
      OwnEntryFound(max, p, step, me, me', t, t', h, h');
    }
  }

  lemma OwnEntryFound(max: nat, p: Pid, step: Step, me: Proc, me': Proc, t: Slots, t': Slots,
                      h: map<Pid, Mode>, h': map<Pid, Mode>)
    requires Acts(max, p, step, me, me', t, t', h, h') && !me.Refers()
    ensures me'.Refers() ==> me'.at in t' && t'[me'.at].key == me'.key
  {
  }

  lemma OwnEntryStays(max: nat, p: Pid, step: Step, me: Proc, me': Proc, t: Slots, t': Slots,
                      h: map<Pid, Mode>, h': map<Pid, Mode>)
    requires Acts(max, p, step, me, me', t, t', h, h') && RefOk(me, t) && me.Refers()
    ensures me'.Refers() ==> me'.at in t' && t'[me'.at].key == me'.key
  {
  }

  lemma OwnCopyKept(max: nat, p: Pid, step: Step, me: Proc, me': Proc, t: Slots, t': Slots,
                    h: map<Pid, Mode>, h': map<Pid, Mode>)
    requires Acts(max, p, step, me, me', t, t', h, h')
    ensures me'.Loaded? ==> me'.at in t' && me'.copy == t'[me'.at].counters
  {
  }

  lemma OwnLockKept(max: nat, p: Pid, step: Step, me: Proc, me': Proc, t: Slots, t': Slots,
                    h: map<Pid, Mode>, h': map<Pid, Mode>)
    requires Acts(max, p, step, me, me', t, t', h, h') && RefOk(me, t)
    ensures me'.InSpinlock() ==> me'.at in t' && t'[me'.at].mutex
    ensures me'.Evicting? ==> me'.victims <= t'.Keys
  {
  }

  lemma OwnRefKept(max: nat, p: Pid, step: Step, me: Proc, me': Proc, t: Slots, t': Slots,
                   h: map<Pid, Mode>, h': map<Pid, Mode>)
    requires Acts(max, p, step, me, me', t, t', h, h') && RefOk(me, t)
    ensures RefOk(me', t')
  {
    OwnEntryKept(max, p, step, me, me', t, t', h, h');
    OwnCopyKept(max, p, step, me, me', t, t', h, h');
    OwnLockKept(max, p, step, me, me', t, t', h, h');
  }

  lemma RefsKept(s: State, s': State, p: Pid, step: Step, q: Pid)
    requires LockOk(s) && SpinOk(s) && Next(s, s', p, step) && q in s.procs
    requires RefOk(s.procs[p], s.slots) && RefOk(s.procs[q], s.slots)
    ensures RefOk(s'.procs[q], s'.slots)
  {
    if p == q {
      OwnRefKept(s.max, p, step, s.procs[p], s'.procs[p], s.slots, s'.slots, s.holders, s'.holders);
    } else {
      if s.procs[p].Lock() == Some(Exclusive) { Alone(s, p, q); }
      OtherRefKept(s.max, p, step, s.procs[p], s'.procs[p], s.slots, s'.slots, s.holders, s'.holders, s.procs[q]);
    }
  }

  /** What a step does to spinlocks: it takes one that is free, frees its own, or changes none. */
  ghost predicate SpinEffect(me: Proc, me': Proc, t: Slots, t': Slots) {
    || (&& (me'.InSpinlock() <==> me.InSpinlock()) && (me.InSpinlock() ==> me'.at == me.at)
        && forall x :: x in t' && t'[x].mutex ==> x in t && t[x].mutex)
    || (&& !me.InSpinlock() && me'.InSpinlock() && me'.at in t && !t[me'.at].mutex
        && forall x :: x in t' && t'[x].mutex ==> x == me'.at || (x in t && t[x].mutex))
    || (&& me.InSpinlock() && !me'.InSpinlock()
        && forall x :: x in t' && t'[x].mutex ==> x != me.at && x in t && t[x].mutex)
  }

  /** A spinlock changes hands only when its flag changes. */
  ghost predicate SpinFits(me: Proc, me': Proc, t: Slots, c: Change) {
    if !c.Mutex? then (me'.InSpinlock() <==> me.InSpinlock()) && (me.InSpinlock() ==> me'.at == me.at)
    else if c.held then !me.InSpinlock() && me'.InSpinlock() && me'.at == c.x && c.x in t && !t[c.x].mutex
    else me.InSpinlock() && !me'.InSpinlock() && me.at == c.x
  }

  lemma StepSpinFits(max: nat, p: Pid, step: Step, me: Proc, me': Proc, t: Slots, t': Slots,
                     h: map<Pid, Mode>, h': map<Pid, Mode>)
    requires Acts(max, p, step, me, me', t, t', h, h')
    ensures SpinFits(me, me', t, ChangeOf(step, me, t))
  {
  }

  lemma ChangeSpins(me: Proc, me': Proc, t: Slots, t': Slots, c: Change)
    requires Changed(t, t', c) && SpinFits(me, me', t, c)
    ensures SpinEffect(me, me', t, t')
  {
  }

  lemma StepSpinEffect(max: nat, p: Pid, step: Step, me: Proc, me': Proc, t: Slots, t': Slots,
                       h: map<Pid, Mode>, h': map<Pid, Mode>)
    requires Acts(max, p, step, me, me', t, t', h, h')
    ensures SpinEffect(me, me', t, t')
  {
    StepChange(max, p, step, me, me', t, t', h, h');
    StepSpinFits(max, p, step, me, me', t, t', h, h');
    ChangeSpins(me, me', t, t', ChangeOf(step, me, t));
  }

  lemma SpinFlagsKept(s: State, s': State, p: Pid, me': Proc)
    requires SpinOk(s) && p in s.procs && s'.procs == s.procs[p := me']
    requires SpinEffect(s.procs[p], me', s.slots, s'.slots)
    ensures forall x :: x in s'.slots && s'.slots[x].mutex ==>
              exists q :: q in s'.procs && s'.procs[q].InSpinlock() && s'.procs[q].at == x
  {
    forall x | x in s'.slots && s'.slots[x].mutex
      ensures exists q :: q in s'.procs && s'.procs[q].InSpinlock() && s'.procs[q].at == x
    {
      if me'.InSpinlock() && me'.at == x {
        assert s'.procs[p] == me';
      } else {
        var q :| q in s.procs && s.procs[q].InSpinlock() && s.procs[q].at == x;
        assert q != p;
        assert s'.procs[q] == s.procs[q];
      }
    }
  }

  lemma SpinOwnersKept(s: State, s': State, p: Pid, me': Proc)
    requires SpinOk(s) && p in s.procs && s'.procs == s.procs[p := me']
    requires SpinEffect(s.procs[p], me', s.slots, s'.slots)
    requires forall q :: q in s.procs ==> RefOk(s.procs[q], s.slots)
    ensures forall q, r :: q in s'.procs && r in s'.procs && SameSpinlock(s'.procs[q], s'.procs[r]) ==> q == r
  {
    forall q, r | q in s'.procs && r in s'.procs && SameSpinlock(s'.procs[q], s'.procs[r])
      ensures q == r
    {
      if q != p && r != p {
        assert SameSpinlock(s.procs[q], s.procs[r]);
      }
    }
  }

  lemma SpinKept(s: State, s': State, p: Pid, step: Step)
    requires SpinOk(s) && Next(s, s', p, step)
    requires forall q :: q in s.procs ==> RefOk(s.procs[q], s.slots)
    ensures SpinOk(s')
  {
    StepSpinEffect(s.max, p, step, s.procs[p], s'.procs[p], s.slots, s'.slots, s.holders, s'.holders);
    SpinFlagsKept(s, s', p, s'.procs[p]);
    SpinOwnersKept(s, s', p, s'.procs[p]);
  }

  // The ledger stays balanced

  /** What a change adds to the sum of a column. */
  ghost function Gain(t: Slots, c: Change, a: Account, f: Field): real {
    match c
    case Remove(x) => if x in t then -Part(a, t[x].key, t[x].counters, f) else 0.0
    case Update(x, counters) =>
      if x in t then Part(a, t[x].key, counters, f) - Part(a, t[x].key, t[x].counters, f) else 0.0
    case _ => 0.0
  }

  lemma GetUsage(c: Counters, u: real, f: Field)
    ensures Get(c.(usage := u), f) == Get(c, f) && Get(ZERO, f) == 0.0
  {
  }

  lemma {:induction false} DecayColumn(t: Slots, t': Slots, a: Account, f: Field)
    requires Changed(t, t', Decay)
    ensures Column(t', a, f) == Column(t, a, f)
  {
    forall x | x in t ensures Get(t'[x].counters, f) == Get(t[x].counters, f) {
      GetUsage(t[x].counters, t'[x].counters.usage, f);
    }
  }

  lemma {:induction false} ColumnChanges(t: Slots, t': Slots, c: Change, a: Account, f: Field)
    requires Changed(t, t', c)
    ensures Sum(Column(t', a, f)) == Sum(Column(t, a, f)) + Gain(t, c, a, f)
  {
    match c
    case Same =>
    case Decay => DecayColumn(t, t', a, f);
    case Remove(x) => ColumnRemove(t, x, a, f);
    case Insert(x, _) =>
      ColumnUpdate(t, x, t'[x], a, f);
      GetUsage(ZERO, USAGE_INIT, f);
    case Mutex(x, _) => ColumnUpdate(t, x, t'[x], a, f);
    case Update(x, _) => ColumnUpdate(t, x, t'[x], a, f);
  }

  /** A step adds its store to the table and records what it removes. */
  lemma {:induction false} StepColumn(step: Step, me: Proc, t: Slots, t': Slots, c: Change, a: Account, f: Field)
    requires Changed(t, t', c) && ChangeFits(step, me, t, c) && RefOk(me, t)
    ensures Sum(Column(t', a, f)) + Logged(Removed(step, t), a, f) ==
            Sum(Column(t, a, f)) + if step.Store? then Part(a, me.key, me.d, f) else 0.0
  {
    ColumnChanges(t, t', c, a, f);
    if c.Remove? {
      LoggedOne(Record(t[c.x].key, t[c.x].counters), a, f);
    }
    if c.Update? {
      GetPlus(me.copy, me.d, f);
    }
  }

  /** A store becomes pending when it is made and stays so until its backend returns. */
  ghost predicate PendingFits(step: Step, me: Proc, me': Proc) {
    if step.Store? then me.Loaded? && me'.Pending() && me'.key == me.key && me'.d == me.d
    else if step.Return? then me.Leaving? && !me'.Pending()
    else if me.Pending() then me'.Pending() && me'.key == me.key && me'.d == me.d
    else !me'.Pending()
  }

  lemma StepPending(max: nat, p: Pid, step: Step, me: Proc, me': Proc, t: Slots, t': Slots,
                    h: map<Pid, Mode>, h': map<Pid, Mode>)
    requires Acts(max, p, step, me, me', t, t', h, h')
    ensures PendingFits(step, me, me')
  {
    if !step.Store? && !step.Return? { PendingStays(max, p, step, me, me', t, t', h, h'); }
  }

  lemma PendingStays(max: nat, p: Pid, step: Step, me: Proc, me': Proc, t: Slots, t': Slots,
                     h: map<Pid, Mode>, h': map<Pid, Mode>)
    requires Acts(max, p, step, me, me', t, t', h, h') && !step.Store? && !step.Return?
    ensures me'.Pending() <==> me.Pending()
    ensures me.Pending() ==> me'.key == me.key && me'.d == me.d
  {
  }

  lemma {:induction false} StepUnreported(step: Step, me: Proc, me': Proc, a: Account, f: Field)
    requires PendingFits(step, me, me')
    ensures PendingOf(me', a, f) + Logged(Reported(step, me), a, f) ==
            PendingOf(me, a, f) + if step.Store? then Part(a, me.key, me.d, f) else 0.0
  {
    if step.Return? {
      LoggedOne(Record(me.key, me.d), a, f);
    }
  }

  /** A step moves what it stores from the backend's account to the table's, and what it removes to the log. */
  lemma {:induction false} StepAccounts(max: nat, p: Pid, step: Step, me: Proc, me': Proc, t: Slots, t': Slots,
                                        h: map<Pid, Mode>, h': map<Pid, Mode>, a: Account, f: Field)
    requires Acts(max, p, step, me, me', t, t', h, h') && RefOk(me, t)
    ensures Sum(Column(t', a, f)) + Logged(Removed(step, t), a, f) - Sum(Column(t, a, f)) ==
            PendingOf(me', a, f) + Logged(Reported(step, me), a, f) - PendingOf(me, a, f)
  {
    StepChange(max, p, step, me, me', t, t', h, h');
    StepColumn(step, me, t, t', ChangeOf(step, me, t), a, f);
    StepPending(max, p, step, me, me', t, t', h, h');
    StepUnreported(step, me, me', a, f);
  }

  lemma {:induction false} BalanceFrom(s: State, s': State, p: Pid, me': Proc, more: seq<Record>, gone: seq<Record>,
                                       a: Account, f: Field)
    requires Balanced(s, a, f) && p in s.procs && s'.procs == s.procs[p := me'] && |more| <= 1 && |gone| <= 1
    requires s'.completed == s.completed + more && s'.dropped == s.dropped + gone
    requires Sum(Column(s'.slots, a, f)) + Logged(gone, a, f) - Sum(Column(s.slots, a, f)) ==
             PendingOf(me', a, f) + Logged(more, a, f) - PendingOf(s.procs[p], a, f)
    ensures Balanced(s', a, f)
  {
    UnreportedUpdate(s.procs, p, me', a, f);
    LoggedMore(s.dropped, gone, a, f);
    LoggedMore(s.completed, more, a, f);
  }

  lemma {:induction false} BalanceKept(s: State, s': State, p: Pid, step: Step, a: Account, f: Field)
    requires Balanced(s, a, f) && Next(s, s', p, step) && RefOk(s.procs[p], s.slots)
    ensures Balanced(s', a, f)
  {
    var me, me' := s.procs[p], s'.procs[p];
    StepAccounts(s.max, p, step, me, me', s.slots, s'.slots, s.holders, s'.holders, a, f);
    BalanceFrom(s, s', p, me', Reported(step, me), Removed(step, s.slots), a, f);
  }

  /** Every step of every backend keeps the invariant. */
  lemma StepKeepsInv(s: State, s': State, p: Pid, step: Step)
    requires Inv(s) && Next(s, s', p, step)
    ensures Inv(s')
  {
    TableKept(s, s', p, step);
    LockKept(s, s', p, step);
    forall q | q in s'.procs ensures RefOk(s'.procs[q], s'.slots) {
      RefsKept(s, s', p, step, q);
    }
    SpinKept(s, s', p, step);
    forall a, f ensures Balanced(s', a, f) {
      BalanceKept(s, s', p, step, a, f);
    }
  }

  // Whole runs

  datatype Move = Move(p: Pid, step: Step)

  ghost predicate Run(states: seq<State>, moves: seq<Move>) {
    && |states| == |moves| + 1
    && Initial(states[0])
    && forall i :: 0 <= i < |moves| ==> Next(states[i], states[i + 1], moves[i].p, moves[i].step)
  }

  lemma {:induction false} InitialInv(s: State)
    requires Initial(s)
    ensures Inv(s)
  {
    forall a, f ensures Balanced(s, a, f) {
      assert Column(s.slots, a, f) == map[];
      NothingUnreported(s.procs, a, f);
    }
  }

  lemma {:induction false} SumOfZeros<K(!new)>(m: map<K, real>)
    requires forall k :: k in m ==> m[k] == 0.0
    ensures Sum(m) == 0.0
    decreases |m.Keys|
  {
    if m != map[] {
      assert (m - {Pick(m)}).Keys == m.Keys - {Pick(m)};
      SumOfZeros(m - {Pick(m)});
    }
  }

  lemma {:induction false} NothingUnreported(procs: map<Pid, Proc>, a: Account, f: Field)
    requires forall p :: p in procs ==> !procs[p].Pending()
    ensures Sum(Unreported(procs, a, f)) == 0.0
  {
    SumOfZeros(Unreported(procs, a, f));
  }

  lemma {:induction false} RunKeepsInv(states: seq<State>, moves: seq<Move>, i: nat)
    requires Run(states, moves) && i <= |moves|
    ensures Inv(states[i])
  {
    if i == 0 {
      InitialInv(states[0]);
    } else {
      RunKeepsInv(states, moves, i - 1);
      StepKeepsInv(states[i - 1], states[i], moves[i - 1].p, moves[i - 1].step);
    }
  }

  /** At every point of every run: the table's shape, live pointers, one writer per entry. */
  lemma {:induction false} RunIsSafe(states: seq<State>, moves: seq<Move>, i: nat)
    requires Run(states, moves) && i <= |moves|
    ensures var s := states[i];
            && UniqueKeys(s.slots) && |s.slots| <= s.max
            && (forall p :: p in s.procs && s.procs[p].Refers() ==>
                  s.procs[p].at in s.slots && s.slots[s.procs[p].at].key == s.procs[p].key)
            && (forall p, q :: p in s.procs && q in s.procs && SameSpinlock(s.procs[p], s.procs[q]) ==> p == q)
  {
    RunKeepsInv(states, moves, i);
    var s := states[i];
    forall p | p in s.procs && s.procs[p].Refers()
      ensures s.procs[p].at in s.slots && s.slots[s.procs[p].at].key == s.procs[p].key
    {
      assert RefOk(s.procs[p], s.slots);
    }
  }

  /** No step removes an entry that some backend still refers to. */
  lemma {:induction false} RemovalSparesReferences(s: State, s': State, p: Pid, step: Step, q: Pid)
    requires Inv(s) && Next(s, s', p, step) && q in s.procs && s.procs[q].Refers()
    ensures s.procs[q].at in s'.slots && s'.slots[s.procs[q].at].key == s.procs[q].key
  {
    RefsKept(s, s', p, step, q);
    assert RefOk(s.procs[q], s.slots);
  }

  /**
    Conservation: whenever no backend is between its update and its return, every
    counter summed over completed stores equals that counter summed over live
    entries plus what evicted and reset entries had, for all statements together and for each.
   */
  lemma {:induction false} StoresAreConserved(states: seq<State>, moves: seq<Move>, i: nat, a: Account, f: Field)
    requires Run(states, moves) && i <= |moves|
    requires forall p :: p in states[i].procs ==> !states[i].procs[p].Pending()
    ensures Logged(states[i].completed, a, f) == Sum(Column(states[i].slots, a, f)) + Logged(states[i].dropped, a, f)
  {
    RunKeepsInv(states, moves, i);
    assert Balanced(states[i], a, f);
    NothingUnreported(states[i].procs, a, f);
  }

  /** The column of one statement is its entry's counter. */
  lemma {:induction false} ColumnOfOne(t: Slots, key: HashKey, f: Field)
    requires UniqueKeys(t)
    ensures forall x :: x in t && t[x].key == key ==> Sum(Column(t, Only(key), f)) == Get(t[x].counters, f)
    ensures !Holds(t, key) ==> Sum(Column(t, Only(key), f)) == 0.0
  {
    var m := Column(t, Only(key), f);
    forall x | x in t && t[x].key == key ensures Sum(m) == Get(t[x].counters, f) {
      SumRemove(m, x);
      SumOfZeros(m - {x});
    }
    if !Holds(t, key) { SumOfZeros(m); }
  }

  /**
    Per statement: at such a point its live entry shows exactly what was stored for it, less
    what went with its earlier entries; without an entry, all that was stored has gone.
   */
  lemma {:induction false} EntryShowsItsStores(states: seq<State>, moves: seq<Move>, i: nat, key: HashKey, f: Field)
    requires Run(states, moves) && i <= |moves|
    requires forall p :: p in states[i].procs ==> !states[i].procs[p].Pending()
    ensures var s := states[i];
      var stored, gone := Logged(s.completed, Only(key), f), Logged(s.dropped, Only(key), f);
      && (forall x :: x in s.slots && s.slots[x].key == key ==> Get(s.slots[x].counters, f) == stored - gone)
      && (!Holds(s.slots, key) ==> stored == gone)
  {
    StoresAreConserved(states, moves, i, Only(key), f);
    RunKeepsInv(states, moves, i);
    ColumnOfOne(states[i].slots, key, f);
  }

  /** How many stores of an account returned. */
  ghost function Returned(states: seq<State>, moves: seq<Move>, a: Account): nat
    requires |states| >= |moves|
  {
    if moves == [] then 0
    else
      var i := |moves| - 1;
      Returned(states, moves[..i], a) + if Returns(states[i], moves[i], a) then 1 else 0
  }

  ghost predicate Returns(s: State, m: Move, a: Account) {
    m.step.Return? && m.p in s.procs && s.procs[m.p].Leaving? && a.Has(s.procs[m.p].key)
  }

  /** Every pending store carries one call, and the calls completed count the returns, for each statement. */
  lemma {:induction false} CallsCountReturns(states: seq<State>, moves: seq<Move>, i: nat, a: Account)
    requires Run(states, moves) && i <= |moves|
    ensures Logged(states[i].completed, a, Calls) == Returned(states, moves[..i], a) as real
    ensures forall p :: p in states[i].procs ==> OneCall(states[i].procs[p])
  {
    if i == 0 {
      assert moves[..0] == [];
    } else {
      CallsCountReturns(states, moves, i - 1, a);
      ReturnedNext(states, moves, i, a);
      CallLogged(states[i - 1], states[i], moves[i - 1], a);
      OneCallsKept(states[i - 1], states[i], moves[i - 1]);
    }
  }

  lemma {:induction false} ReturnedNext(states: seq<State>, moves: seq<Move>, i: nat, a: Account)
    requires 1 <= i <= |moves| <= |states|
    ensures Returned(states, moves[..i], a) ==
      Returned(states, moves[..i - 1], a) + if Returns(states[i - 1], moves[i - 1], a) then 1 else 0
  {
    assert moves[..i][..i - 1] == moves[..i - 1];
  }

  lemma OneCallsKept(s: State, s': State, m: Move)
    requires Next(s, s', m.p, m.step) && forall p :: p in s.procs ==> OneCall(s.procs[p])
    ensures forall p :: p in s'.procs ==> OneCall(s'.procs[p])
  {
    OneCallKept(s.max, m.p, m.step, s.procs[m.p], s'.procs[m.p], s.slots, s'.slots, s.holders, s'.holders);
  }

  lemma {:induction false} CallLogged(s: State, s': State, m: Move, a: Account)
    requires Next(s, s', m.p, m.step) && OneCall(s.procs[m.p])
    ensures Logged(s'.completed, a, Calls) == Logged(s.completed, a, Calls) + if Returns(s, m, a) then 1.0 else 0.0
  {
    var me := s.procs[m.p];
    LoggedMore(s.completed, Reported(m.step, me), a, Calls);
    if me.Leaving? { LoggedOne(Record(me.key, me.d), a, Calls); }
  }

  ghost predicate OneCall(me: Proc) {
    !me.Idle? && !me.WantReset? && !me.Resetting? ==> me.d.calls == 1
  }

  lemma OneCallKept(max: nat, p: Pid, step: Step, me: Proc, me': Proc, t: Slots, t': Slots,
                    h: map<Pid, Mode>, h': map<Pid, Mode>)
    requires Acts(max, p, step, me, me', t, t', h, h') && OneCall(me)
    ensures OneCall(me')
  {
  }

  // Usage

  /** What has happened to an entry's usage since it was entered. */
  datatype Event = Added(usage: real) | Aged

  /** The events of the entry at x, up to state i. */
  ghost function History(states: seq<State>, moves: seq<Move>, i: nat, x: Slot): seq<Event>
    requires i <= |moves| && |states| == |moves| + 1
  {
    if i == 0 then [] else Later(states[i - 1], moves[i - 1], x, History(states, moves, i - 1, x))
  }

  ghost predicate StoresAt(s: State, m: Move, x: Slot) {
    m.step.Store? && m.p in s.procs && s.procs[m.p].Loaded? && s.procs[m.p].at == x
  }

  ghost function Agings(events: seq<Event>): nat {
    if events == [] then 0 else Agings(events[1..]) + if events[0].Aged? then 1 else 0
  }

  /** What is left of one after so many agings. */
  ghost function Faded(n: nat): real {
    if n == 0 then 1.0 else Faded(n - 1) * 99.0 / 100.0
  }

  /** What is left of an addition after later events. */
  ghost function Share(e: Event, later: seq<Event>): real {
    if e.Added? then e.usage * Faded(Agings(later)) else 0.0
  }

  /** Each addition, faded once for every later aging. */
  ghost function Worth(events: seq<Event>): real {
    if events == [] then 0.0 else Worth(events[1..]) + Share(events[0], events[1..])
  }

  lemma {:induction false} AgingsSnoc(events: seq<Event>, e: Event)
    ensures Agings(events + [e]) == Agings(events) + if e.Aged? then 1 else 0
  {
    if events == [] {
      assert [e][1..] == [];
    } else {
      assert (events + [e])[1..] == events[1..] + [e];
      AgingsSnoc(events[1..], e);
    }
  }

  lemma FadeMore(u: real, a: real, b: real)
    requires b == a * 99.0 / 100.0
    ensures u * b == u * a * 99.0 / 100.0
  {
  }

  lemma {:induction false} ShareSnoc(e: Event, later: seq<Event>, last: Event)
    ensures Share(e, later + [last]) == if last.Aged? then Share(e, later) * 99.0 / 100.0 else Share(e, later)
  {
    AgingsSnoc(later, last);
    if last.Aged? && e.Added? {
      FadeMore(e.usage, Faded(Agings(later)), Faded(Agings(later) + 1));
    }
  }

  lemma {:induction false} WorthAged(events: seq<Event>)
    ensures Worth(events + [Aged]) == Worth(events) * 99.0 / 100.0
  {
    if events == [] {
      assert [Aged][1..] == [];
    } else {
      assert (events + [Aged])[1..] == events[1..] + [Aged];
      WorthAged(events[1..]);
      ShareSnoc(events[0], events[1..], Aged);
    }
  }

  lemma {:induction false} WorthAdded(events: seq<Event>, u: real)
    ensures Worth(events + [Added(u)]) == Worth(events) + u
  {
    if events == [] {
      assert [Added(u)][1..] == [];
    } else {
      assert (events + [Added(u)])[1..] == events[1..] + [Added(u)];
      WorthAdded(events[1..], u);
      ShareSnoc(events[0], events[1..], Added(u));
    }
  }

  /** One change's effect on the usage of an entry. */
  lemma ChangeUsage(t: Slots, t': Slots, c: Change, x: Slot)
    requires Changed(t, t', c) && x in t'
    ensures x !in t ==> t'[x].counters.usage == 1.0
    ensures x in t && c.Decay? ==> t'[x].counters.usage == t[x].counters.usage * 99.0 / 100.0
    ensures x in t && c.Update? && c.x == x ==> t'[x].counters.usage == c.counters.usage
    ensures x in t && !c.Decay? && !(c.Update? && c.x == x) ==> t'[x].counters.usage == t[x].counters.usage
  {
  }

  lemma StepUsage(s: State, s': State, m: Move, x: Slot)
    requires Next(s, s', m.p, m.step) && RefOk(s.procs[m.p], s.slots) && x in s'.slots
    ensures x !in s.slots ==> s'.slots[x].counters.usage == 1.0
    ensures x in s.slots && m.step.ChooseVictims? ==>
      s'.slots[x].counters.usage == s.slots[x].counters.usage * 99.0 / 100.0
    ensures x in s.slots && StoresAt(s, m, x) ==>
      s'.slots[x].counters.usage == s.slots[x].counters.usage + s.procs[m.p].d.usage
    ensures x in s.slots && !m.step.ChooseVictims? && !StoresAt(s, m, x) ==>
      s'.slots[x].counters.usage == s.slots[x].counters.usage
  {
    var me, me' := s.procs[m.p], s'.procs[m.p];
    StepChange(s.max, m.p, m.step, me, me', s.slots, s'.slots, s.holders, s'.holders);
    ChangeUsage(s.slots, s'.slots, ChangeOf(m.step, me, s.slots), x);
  }

  /**
    A live entry's usage is one plus the usages stored since it was entered, each cut by a
    hundredth for every eviction since.
   */
  lemma {:induction false} UsageFades(states: seq<State>, moves: seq<Move>, i: nat, x: Slot)
    requires Run(states, moves) && i <= |moves| && x in states[i].slots
    ensures states[i].slots[x].counters.usage == Worth(History(states, moves, i, x))
  {
    if i > 0 {
      RunKeepsInv(states, moves, i - 1);
      if x in states[i - 1].slots { UsageFades(states, moves, i - 1, x); }
      StepFades(states[i - 1], states[i], moves[i - 1], x, History(states, moves, i - 1, x));
    }
  }

  /** The events of the entry at x after one more step. */
  ghost function Later(s: State, m: Move, x: Slot, past: seq<Event>): seq<Event> {
    if x !in s.slots then [Added(1.0)]
    else if m.step.ChooseVictims? then past + [Aged]
    else if StoresAt(s, m, x) then past + [Added(s.procs[m.p].d.usage)]
    else past
  }

  lemma {:induction false} StepFades(s: State, s': State, m: Move, x: Slot, past: seq<Event>)
    requires Next(s, s', m.p, m.step) && RefOk(s.procs[m.p], s.slots) && x in s'.slots
    requires x in s.slots ==> s.slots[x].counters.usage == Worth(past)
    ensures s'.slots[x].counters.usage == Worth(Later(s, m, x, past))
  {
    StepUsage(s, s', m, x);
    if x !in s.slots {
      WorthAdded([], 1.0);
      assert [] + [Added(1.0)] == [Added(1.0)];
    } else if m.step.ChooseVictims? {
      WorthAged(past);
    } else if StoresAt(s, m, x) {
      WorthAdded(past, s.procs[m.p].d.usage);
    }
  }

  // No deadlock

  /** p can take a step of the operation it is in the middle of. */
  ghost predicate CanMove(s: State, p: Pid) {
    p in s.procs && !s.procs[p].Idle? && exists s', step :: Next(s, s', p, step)
  }

  ghost function After(s: State, p: Pid, step: Step, me': Proc, t': Slots, h': map<Pid, Mode>): State
    requires p in s.procs
  {
    State(s.max, t', h', s.procs[p := me'],
          s.completed + Reported(step, s.procs[p]), s.dropped + Removed(step, s.slots))
  }

  lemma Moves(s: State, p: Pid, step: Step, me': Proc, t': Slots, h': map<Pid, Mode>)
    requires p in s.procs && !s.procs[p].Idle?
    requires Acts(s.max, p, step, s.procs[p], me', s.slots, t', s.holders, h')
    ensures CanMove(s, p)
  {
    assert Next(s, After(s, p, step, me', t', h'), p, step);
  }

  lemma {:induction false} VictimsExist(t: Slots, n: nat) returns (victims: set<Slot>)
    requires n <= |t|
    ensures victims <= t.Keys && |victims| == n
    ensures forall v, w :: v in victims && w in t.Keys - victims ==>
                             t[v].counters.usage <= t[w].counters.usage
  {
    if n == 0 {
      victims := {};
    } else {
      var smaller := VictimsExist(t, n - 1);
      assert |t.Keys - smaller| == |t.Keys| - |smaller|;
      var x := LeastUsed(t, t.Keys - smaller);
      victims := smaller + {x};
    }
  }

  lemma {:induction false} LeastUsed(t: Slots, among: set<Slot>) returns (x: Slot)
    requires among <= t.Keys && among != {}
    ensures x in among && forall w :: w in among ==> t[x].counters.usage <= t[w].counters.usage
    decreases among
  {
    x :| x in among;
    if among != {x} {
      var y := LeastUsed(t, among - {x});
      if t[y].counters.usage < t[x].counters.usage {
        x := y;
      }
    }
  }

  lemma FreshSlot(t: Slots) returns (x: Slot)
    ensures x !in t
  {
    var xs := t.Keys;
    x := 0;
    while xs != {}
      invariant forall y :: y in t && y !in xs ==> y < x
    {
      var y :| y in xs;
      x := if y >= x then y + 1 else x;
      xs := xs - {y};
    }
  }

  /** entry_alloc never blocks. */
  lemma AllocatingMoves(s: State, p: Pid)
    requires TableOk(s) && p in s.procs && s.procs[p].Allocating?
    ensures CanMove(s, p)
  {
    var me, t := s.procs[p], s.slots;
    if |t| >= s.max {
      var victims := VictimsExist(t, VictimCount(|t|));
      var t' := map x | x in t :: t[x].Decayed();
      Moves(s, p, ChooseVictims(victims), Evicting(me.key, me.d, victims), t', s.holders);
    } else {
      var at;
      var t' := t;
      if Holds(t, me.key) {
        at :| at in t && t[at].key == me.key;
      } else {
        at := FreshSlot(t);
        t' := t[at := Entry(me.key, ZERO.(usage := USAGE_INIT), false)];
      }
      Moves(s, p, Enter(at), Found(me.key, me.d, at, Exclusive), t', s.holders);
    }
  }

  /** A backend inside a spinlock can move. */
  lemma SpinHolderMoves(s: State, p: Pid)
    requires p in s.procs && RefOk(s.procs[p], s.slots) && s.procs[p].InSpinlock()
    ensures CanMove(s, p)
  {
    var me, t := s.procs[p], s.slots;
    if me.InMutex? {
      Moves(s, p, Load, Loaded(me.key, me.d, me.at, me.mode, t[me.at].counters), t, s.holders);
    } else if me.Loaded? {
      Moves(s, p, Store, Stored(me.key, me.d, me.at, me.mode),
            t[me.at := t[me.at].(counters := me.copy.Plus(me.d))], s.holders);
    } else {
      Moves(s, p, SpinRelease, Leaving(me.key, me.d, me.mode), t[me.at := t[me.at].(mutex := false)], s.holders);
    }
  }

  /** If someone holds the lock, someone inside can move. */
  lemma HolderMoves(s: State, p: Pid) returns (q: Pid)
    requires Inv(s) && p in s.procs && s.procs[p].Lock().Some?
    ensures CanMove(s, q)
  {
    q := p;
    var me, t := s.procs[p], s.slots;
    assert RefOk(me, t);
    if me.Searching? {
      if Holds(t, me.key) {
        var at :| at in t && t[at].key == me.key;
        Moves(s, p, Hit(at), Found(me.key, me.d, at, Shared), t, s.holders);
      } else {
        Moves(s, p, Miss, WantExclusive(me.key, me.d), t, s.holders - {p});
      }
    } else if me.Allocating? {
      AllocatingMoves(s, p);
    } else if me.Evicting? {
      if x :| x in me.victims {
        Moves(s, p, RemoveVictim(x), Evicting(me.key, me.d, me.victims - {x}), t - {x}, s.holders);
      } else {
        Moves(s, p, EndEviction, Allocating(me.key, me.d), t, s.holders);
      }
    } else if me.Found? && t[me.at].mutex {
      q :| q in s.procs && s.procs[q].InSpinlock() && s.procs[q].at == me.at;
      assert RefOk(s.procs[q], t);
      SpinHolderMoves(s, q);
    } else if me.Found? {
      Moves(s, p, SpinAcquire, InMutex(me.key, me.d, me.at, me.mode),
            t[me.at := t[me.at].(mutex := true)], s.holders);
    } else if me.InSpinlock() {
      SpinHolderMoves(s, p);
    } else if me.Leaving? {
      Moves(s, p, Return, Idle, t, s.holders - {p});
    } else {
      if x :| x in t {
        Moves(s, p, RemoveAny(x), me, t - {x}, s.holders);
      } else {
        Moves(s, p, EndReset, Idle, t, s.holders - {p});
      }
    }
  }

  /** No reachable state is a deadlock: while an operation is under way, some operation can go on. */
  lemma {:induction false} NeverStuck(states: seq<State>, moves: seq<Move>, i: nat, p: Pid) returns (q: Pid)
    requires Run(states, moves) && i <= |moves|
    requires p in states[i].procs && !states[i].procs[p].Idle?
    ensures CanMove(states[i], q)
  {
    RunKeepsInv(states, moves, i);
    var s := states[i];
    var me, t := s.procs[p], s.slots;
    if h :| h in s.holders {
      q := HolderMoves(s, h);
    } else {
      assert s.holders.Keys == {};
      q := p;
      if me.WantShared? {
        Moves(s, p, AcquireShared, Searching(me.key, me.d), t, s.holders[p := Shared]);
      } else if me.WantExclusive? {
        Moves(s, p, AcquireExclusive, Allocating(me.key, me.d), t, s.holders[p := Exclusive]);
      } else {
        Moves(s, p, AcquireReset, Resetting, t, s.holders[p := Exclusive]);
      }
    }
  }
}
