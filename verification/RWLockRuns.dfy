/** What the readers/writer lock of lib9/lock.c promises over whole runs, for any number of
    processes and every interleaving of their steps. */
module RWLockRuns {
  import opened Bytes
  import opened QueueLock
  import opened RWLock

  // --------------------------------------------------------------- queues read off a state

  /** The processes met by following `qnext` from h, at most fuel of them. */
  ghost function Walk(h: Option<Pid>, qnext: seq<Option<Pid>>, fuel: nat): seq<Pid>
    decreases fuel
  {
    if fuel == 0 || h.None? || h.value >= |qnext| then []
    else [h.value] + Walk(qnext[h.value], qnext, fuel - 1)
  }

  /** The sleepers of x and of k, in the order of their lists. */
  ghost function XQueue(s: State): seq<Pid> { Walk(s.x.head, s.qnext, |s.qnext|) }

  ghost function KQueue(s: State): seq<Pid> { Walk(s.k.head, s.qnext, |s.qnext|) }

  lemma {:induction false} WalkFrom(qnext: seq<Option<Pid>>, w: seq<Pid>, i: nat, fuel: nat)
    requires i <= |w| <= i + fuel
    requires forall j :: 0 <= j < |w| ==> w[j] < |qnext| && qnext[w[j]] == if j + 1 < |w| then Some(w[j + 1]) else None
    ensures Walk(if i < |w| then Some(w[i]) else None, qnext, fuel) == w[i..]
    decreases fuel
  {
    if i < |w| {
      WalkFrom(qnext, w, i + 1, fuel - 1);
      assert w[i..] == [w[i]] + w[i + 1..];
    }
  }

  lemma {:induction false} Pigeonhole(w: seq<Pid>, n: nat)
    requires forall i :: 0 <= i < |w| ==> w[i] < n
    requires forall i, j :: 0 <= i < j < |w| ==> w[i] != w[j]
    ensures |w| <= n
    decreases n
  {
    assert |w| > 0 ==> w[0] < n;
    if n > 0 {
      if m :| 0 <= m < |w| && w[m] == n - 1 {
        Pigeonhole(w[..m] + w[m + 1..], n - 1);
      } else {
        Pigeonhole(w, n - 1);
      }
    }
  }

  lemma QueueRead(q: QLock, qnext: seq<Option<Pid>>, w: seq<Pid>)
    requires QueueIs(q, qnext, w)
    ensures Walk(q.head, qnext, |qnext|) == w
  {
    Pigeonhole(w, |qnext|);
    WalkFrom(qnext, w, 0, |qnext|);
  }

  ghost predicate Good(s: State) {
    Inv(s, XQueue(s), KQueue(s))
  }

  lemma InvGood(s: State, xq: seq<Pid>, kq: seq<Pid>)
    requires Inv(s, xq, kq)
    ensures Good(s) && XQueue(s) == xq && KQueue(s) == kq
  {
    QueueRead(s.x, s.qnext, xq);
    QueueRead(s.k, s.qnext, kq);
  }

  /** A step keeps a state good; the lists change by one arrival at the end or one departure
      from the front. */
  lemma StepGood(s: State, p: Pid, call: Call)
    requires Good(s) && p < |s.pc| && CanStep(s, p)
    ensures Good(DoStep(s, p, call))
    ensures XQueue(DoStep(s, p, call)) == XAfter(s, XQueue(s), p)
    ensures KQueue(DoStep(s, p, call)) == KAfter(s, KQueue(s), p)
  {
    StepInv(s, XQueue(s), KQueue(s), p, call);
    InvGood(DoStep(s, p, call), XAfter(s, XQueue(s), p), KAfter(s, KQueue(s), p));
  }

  // -------------------------------------------------------------------------------- runs

  /** One scheduled step: which process moves, and what it calls if it is idle. */
  datatype Move = Move(p: Pid, call: Call)

  ghost predicate Moves(s: State, m: Move, s': State) {
    Sized(s) && m.p < |s.pc| && CanStep(s, m.p) && s' == DoStep(s, m.p, m.call)
  }

  /** tr is a run of n processes under the schedule ms. */
  ghost predicate IsRun(n: nat, ms: seq<Move>, tr: seq<State>) {
    && |tr| == |ms| + 1 && tr[0] == Init(n)
    && forall i {:trigger ms[i]} :: 0 <= i < |ms| ==> Moves(tr[i], ms[i], tr[i + 1])
  }

  lemma {:induction false} RunGood(n: nat, ms: seq<Move>, tr: seq<State>, i: nat)
    requires IsRun(n, ms, tr) && i < |tr|
    ensures Good(tr[i]) && |tr[i].pc| == n
  {
    if i == 0 {
      InitInv(n);
      InvGood(Init(n), [], []);
    } else {
      RunGood(n, ms, tr, i - 1);
      var s, m := tr[i - 1], ms[i - 1];
      assert Moves(s, m, tr[i]);
      StepGood(s, m.p, m.call);
    }
  }

  // -------------------------------------------------------------------- mutual exclusion

  /** Past `wlock` and not yet given up k in `wunlock`. */
  predicate InWriter(c: PC) {
    c.Writing? || c == VK(Release) || c == VK(Pop)
  }

  /** Past `canqlock(&l->k)` in `rlock` and not yet uncounted in `runlock`. */
  predicate InReader(c: PC) {
    Counted(c) && !c.RK?
  }

  lemma OwningX(pc: seq<PC>, xq: seq<Pid>, q: Pid)
    requires q < |pc| && XRole(pc[q]) == Owning
    ensures Owner(XRoles(pc), xq, q)
  {
  }

  lemma WriterHoldsK(pc: seq<PC>, kq: seq<Pid>, q: Pid)
    requires q < |pc| && InWriter(pc[q])
    ensures Owner(KRoles(pc), kq, q)
  {
  }

  /** Nobody else owns x while a writer is in its section. */
  lemma NoOtherWriter(s: State, p: Pid, q: Pid)
    requires Good(s) && p < |s.pc| && InWriter(s.pc[p]) && q < |s.pc| && p != q
    ensures !InWriter(s.pc[q]) && !s.pc[q].RK?
  {
    OwningX(s.pc, XQueue(s), p);
    if InWriter(s.pc[q]) || s.pc[q].RK? {
      OwningX(s.pc, XQueue(s), q);
      assert false;
    }
  }

  /** Nobody is counted while a writer holds k and no reader is about to take it. */
  lemma NoReader(s: State, p: Pid)
    requires Good(s) && p < |s.pc| && InWriter(s.pc[p]) && forall q :: 0 <= q < |s.pc| ==> !s.pc[q].RK?
    ensures s.readers == 0 && forall q :: 0 <= q < |s.pc| ==> !Counted(s.pc[q])
  {
    WriterHoldsK(s.pc, KQueue(s), p);
    assert !Group(s);
    forall q | 0 <= q < |s.pc| ensures !Counted(s.pc[q]) {
      assert Counted(s.pc[q]) ==> q in Readers(s.pc);
    }
  }

  lemma WriterAlone(s: State, p: Pid)
    requires Good(s) && p < |s.pc| && InWriter(s.pc[p])
    ensures s.readers == 0
    ensures forall q :: 0 <= q < |s.pc| && q != p ==> !InWriter(s.pc[q]) && !Counted(s.pc[q])
  {
    forall q | 0 <= q < |s.pc| && q != p ensures !s.pc[q].RK? && !InWriter(s.pc[q]) {
      NoOtherWriter(s, p, q);
    }
    NoReader(s, p);
  }

  /** In every state of every run, a writer in its section excludes every other writer and
      every reader; the reader count is zero. */
  lemma MutualExclusion(n: nat, ms: seq<Move>, tr: seq<State>, i: nat, p: Pid, q: Pid)
    requires IsRun(n, ms, tr) && i < |tr| && p < n && q < n && p != q
    ensures |tr[i].pc| == n
    ensures InWriter(tr[i].pc[p]) ==> tr[i].readers == 0 && !InWriter(tr[i].pc[q]) && !InReader(tr[i].pc[q])
  {
    RunGood(n, ms, tr, i);
    if InWriter(tr[i].pc[p]) { WriterAlone(tr[i], p); }
  }

  // ------------------------------------------------------------ `canqlock` under x and l

  /** In every run, `canqlock(&l->k)` in a reader never fails because the spin lock of k is
      busy; it fails exactly when earlier readers hold k, and if it takes k, the reader is the
      only one counted. */
  lemma CanQLockInRun(n: nat, ms: seq<Move>, tr: seq<State>, i: nat, p: Pid)
    requires IsRun(n, ms, tr) && i < |tr| && p < n
    ensures |tr[i].pc| == n
    ensures tr[i].pc[p] == RK(Try) ==> tr[i].k.use == None
    ensures tr[i].pc[p] == RK(Test) ==> (tr[i].k.locked <==> exists q :: q != p && q in Readers(tr[i].pc))
    ensures tr[i].pc[p] == RK(LeaveYes) ==> Readers(tr[i].pc) == {p}
  {
    RunGood(n, ms, tr, i);
    var s := tr[i];
    if s.pc[p] == RK(Try) { CanQLockNeverBusy(s, XQueue(s), KQueue(s), p); }
    if s.pc[p].RK? {
      assert p in Readers(s.pc);
      assert |Readers(s.pc) - {p}| == s.readers - 1;
      if s.readers >= 2 {
        var q :| q in Readers(s.pc) - {p};
      }
    }
    if s.pc[p] == RK(Test) { CanQLockMeaning(s, XQueue(s), KQueue(s), p); }
  }

  // ------------------------------------------------------------------- writers come first

  /** p is a writer that owns x: it may be waiting for k, writing, or on its way out. */
  ghost predicate WriterOwnsX(s: State, p: Pid) {
    p < |s.pc| && (s.pc[p].WX? || s.pc[p].WK? || s.pc[p].Writing? || s.pc[p].VK? || s.pc[p].VX?)
    && Owner(XRoles(s.pc), XQueue(s), p)
  }

  lemma NoNewReader(s: State, w: Pid, p: Pid, call: Call)
    requires Good(s) && WriterOwnsX(s, w) && p < |s.pc| && CanStep(s, p)
    ensures DoStep(s, p, call).readers <= s.readers
  {
    if s.pc[p].RInc? { assert Owner(XRoles(s.pc), XQueue(s), p); }
  }

  lemma RunNoNewReader(n: nat, ms: seq<Move>, tr: seq<State>, j: nat, w: Pid)
    requires IsRun(n, ms, tr) && j < |ms| && WriterOwnsX(tr[j], w)
    ensures tr[j + 1].readers <= tr[j].readers
  {
    RunGood(n, ms, tr, j);
    var s, m := tr[j], ms[j];
    assert Moves(s, m, tr[j + 1]);
    NoNewReader(s, w, m.p, m.call);
  }

  /** As long as a writer owns x the reader count never rises. */
  lemma {:induction false} WritersComeFirst(n: nat, ms: seq<Move>, tr: seq<State>, w: Pid, i: nat, j: nat)
    requires IsRun(n, ms, tr) && i <= j < |tr|
    requires forall k :: i <= k < j ==> WriterOwnsX(tr[k], w)
    ensures tr[j].readers <= tr[i].readers
    decreases j
  {
    if i < j {
      WritersComeFirst(n, ms, tr, w, i, j - 1);
      RunNoNewReader(n, ms, tr, j - 1, w);
    }
  }

  /** `canrlock` gives up if a writer owns x or anyone waits for it. */
  lemma CanRLockPunts(s: State, p: Pid, call: Call, w: Pid)
    requires Good(s) && p < |s.pc| && s.pc[p] == CX(Test)
    requires WriterOwnsX(s, w) || w in XQueue(s)
    ensures DoStep(s, p, call).pc[p] == CX(LeaveNo) && DoStep(s, p, call).x == s.x
  {
  }

  /** At most one process waits for k: a writer, which owns x. */
  lemma OneWaiterForK(s: State)
    requires Good(s)
    ensures |KQueue(s)| <= 1
    ensures forall w :: w in KQueue(s) ==> WriterOwnsX(s, w)
  {
    var kq := KQueue(s);
    assert |kq| >= 2 ==> kq[0] != kq[1];
    forall w, w' | w in kq && w' in kq ensures w == w' {
      OneOwner(s, w, w');
    }
    forall w | w in kq ensures WriterOwnsX(s, w) {
      WaiterOwnsX(s, w);
    }
  }

  lemma OneOwner(s: State, w: Pid, w': Pid)
    requires Good(s) && w in KQueue(s) && w' in KQueue(s)
    ensures w == w'
  {
    WaiterOwnsX(s, w);
    WaiterOwnsX(s, w');
  }

  lemma WaiterOwnsX(s: State, w: Pid)
    requires Good(s) && w in KQueue(s)
    ensures WriterOwnsX(s, w)
  {
    assert w < |s.pc| && Waits(KRoles(s.pc)[w]);
    OwningX(s.pc, XQueue(s), w);
  }

  /** The last reader out passes k to the writer that waits for it, without unlocking k in
      between; if no writer waits, k is unlocked. */
  lemma LastReaderPassesK(s: State, p: Pid, call: Call)
    requires Good(s) && p < |s.pc| && s.pc[p] == UK(Pop)
    ensures s.readers == 0
    ensures var s' := DoStep(s, p, call);
      if KQueue(s) == [] then !s'.k.locked
      else s'.k.locked && s'.pc[p] == UK(LeaveReady(KQueue(s)[0])) && KQueue(s') == []
           && WriterOwnsX(s, KQueue(s)[0]) && Owner(KRoles(s'.pc), KQueue(s'), KQueue(s)[0])
  {
    OneWaiterForK(s);
    StepGood(s, p, call);
    var s' := DoStep(s, p, call);
    if KQueue(s) != [] {
      var w := KQueue(s)[0];
      assert w in KQueue(s) && w != p;
      assert Waits(KRoles(s.pc)[w]) && s'.pc[w] == s.pc[w];
    }
  }

  // --------------------------------------------------------------- first come, first served

  ghost predicate Before(w: seq<Pid>, a: Pid, b: Pid) {
    exists i, j :: 0 <= i < j < |w| && w[i] == a && w[j] == b
  }

  /** An arrival at the end or a departure from the front keeps the order of those who stay. */
  lemma BeforeStays(w: seq<Pid>, w': seq<Pid>, a: Pid, b: Pid)
    requires Before(w, a, b) && a in w' && forall i, j :: 0 <= i < j < |w| ==> w[i] != w[j]
    requires w <= w' || (w != [] && w' == w[1..])
    ensures Before(w', a, b)
  {
    var i, j :| 0 <= i < j < |w| && w[i] == a && w[j] == b;
    if w <= w' {
      assert w'[i] == a && w'[j] == b;
    } else {
      var k :| 0 <= k < |w'| && w'[k] == a;
      assert w[k + 1] == a;
      assert w'[i - 1] == a && w'[j - 1] == b;
    }
  }

  lemma StillBefore(s: State, p: Pid, call: Call, a: Pid, b: Pid)
    requires Good(s) && p < |s.pc| && CanStep(s, p)
    requires Before(XQueue(s), a, b) && a in XQueue(DoStep(s, p, call))
    ensures Before(XQueue(DoStep(s, p, call)), a, b)
  {
    StepGood(s, p, call);
    BeforeStays(XQueue(s), XQueue(DoStep(s, p, call)), a, b);
  }

  lemma MoveBefore(n: nat, ms: seq<Move>, tr: seq<State>, j: nat, a: Pid, b: Pid)
    requires IsRun(n, ms, tr) && j < |ms|
    requires Before(XQueue(tr[j]), a, b) && a in XQueue(tr[j + 1])
    ensures Before(XQueue(tr[j + 1]), a, b)
  {
    RunGood(n, ms, tr, j);
    var s, m := tr[j], ms[j];
    assert Moves(s, m, tr[j + 1]);
    StillBefore(s, m.p, m.call, a, b);
  }

  /** Nobody overtakes in the queue of x: as long as a waits, whoever arrived after a waits
      behind it. */
  lemma {:induction false} NoOvertaking(n: nat, ms: seq<Move>, tr: seq<State>, a: Pid, b: Pid, i: nat, j: nat)
    requires IsRun(n, ms, tr) && i <= j < |tr|
    requires Before(XQueue(tr[i]), a, b)
    requires forall k :: i <= k <= j ==> a in XQueue(tr[k])
    ensures Before(XQueue(tr[j]), a, b)
    decreases j
  {
    if i < j {
      NoOvertaking(n, ms, tr, a, b, i, j - 1);
      MoveBefore(n, ms, tr, j - 1, a, b);
    }
  }

  // ------------------------------------------------------------------------- no deadlock

  /** p is inside some operation or section and can take a step now. */
  ghost predicate Live(s: State, p: Pid) {
    Sized(s) && p < |s.pc| && s.pc[p] != Idle && CanStep(s, p)
  }

  lemma SpinHolderMoves(s: State)
    requires Good(s) && (s.x.use.Some? || s.k.use.Some? || s.l.Some?)
    ensures exists p :: Live(s, p)
  {
    if s.x.use.Some? {
      assert Uses(XRoles(s.pc)[s.x.use.value]);
      assert Live(s, s.x.use.value);
    } else if s.k.use.Some? {
      assert Uses(KRoles(s.pc)[s.k.use.value]);
      assert Live(s, s.k.use.value);
    } else {
      assert HoldsL(s.pc[s.l.value]);
      assert Live(s, s.l.value);
    }
  }

  /** A sleeper that has left its queue has its token, or the process that took it out of the
      queue is on the way to give it one. */
  lemma GrantedMoves(s: State, p: Pid)
    requires Good(s) && p < |s.pc| && Asleep(s.pc[p]) && p !in XQueue(s) && p !in KQueue(s)
    ensures exists q :: Live(s, q)
  {
    if s.token[p] {
      assert Live(s, p);
    } else if s.pc[p].WK? {
      var q := Waker(s.token, KRoles(s.pc), KQueue(s), p);
      WakerMoves(s, q, p);
    } else {
      var q := Waker(s.token, XRoles(s.pc), XQueue(s), p);
      WakerMoves(s, q, p);
    }
  }

  lemma Waker(token: seq<bool>, role: seq<Role>, w: seq<Pid>, p: Pid) returns (q: Pid)
    requires |token| == |role| && TokenInv(token, role, w) && p < |role| && Waits(role[p]) && p !in w && !token[p]
    ensures q < |role| && Wakes(role[q], p)
  {
    q :| 0 <= q < |role| && Wakes(role[q], p);
  }

  lemma WakerMoves(s: State, q: Pid, p: Pid)
    requires Sized(s) && q < |s.pc| && (Wakes(KRole(s.pc[q]), p) || Wakes(XRole(s.pc[q]), p))
    ensures Live(s, q)
  {
  }

  /** What keeps a writer in the queue of k is readers, or the last of them on its way out. */
  lemma ReadersHoldK(s: State, p: Pid)
    requires Good(s) && p in KQueue(s)
    ensures Group(s) || exists o :: 0 <= o < |s.pc| && s.pc[o].UK?
  {
    OneWaiterForK(s);
    assert WriterOwnsX(s, p);
    if !Group(s) {
      Witnesses(s.k, s.qnext, s.token, KRoles(s.pc), KQueue(s), false);
      var o: Pid :| Owner(KRoles(s.pc), KQueue(s), o);
      assert s.pc[o].WK? || s.pc[o].Writing? || s.pc[o].VK? || s.pc[o].RK? ==> Owner(XRoles(s.pc), XQueue(s), o);
    }
  }

  lemma WaiterForKMoves(s: State, p: Pid)
    requires Good(s) && p in KQueue(s) && s.x.use.None? && s.k.use.None? && s.l.None?
    ensures exists q :: Live(s, q)
  {
    ReadersHoldK(s, p);
    assert Readers(s.pc) != {};
    var q :| q in Readers(s.pc);
    assert Live(s, q);
  }

  lemma WaiterForXMoves(s: State, p: Pid)
    requires Good(s) && p in XQueue(s) && s.x.use.None? && s.k.use.None? && s.l.None?
    ensures exists q :: Live(s, q)
  {
    assert s.x.locked;
    var o: Pid :| Owner(XRoles(s.pc), XQueue(s), o);
    if o in KQueue(s) {
      WaiterForKMoves(s, o);
    } else if Asleep(s.pc[o]) {
      OwnerNotQueued(s.x, s.qnext, s.token, XRoles(s.pc), XQueue(s), false, o);
      GrantedMoves(s, o);
    } else {
      assert Live(s, o);
    }
  }

  lemma SomeoneMoves(s: State, p: Pid)
    requires Good(s) && p < |s.pc| && s.pc[p] != Idle
    ensures exists q :: Live(s, q)
  {
    if s.x.use.Some? || s.k.use.Some? || s.l.Some? {
      SpinHolderMoves(s);
    } else if p in XQueue(s) {
      WaiterForXMoves(s, p);
    } else if p in KQueue(s) {
      WaiterForKMoves(s, p);
    } else if Asleep(s.pc[p]) {
      GrantedMoves(s, p);
    } else {
      assert Live(s, p);
    }
  }

  /** No reachable state is deadlocked: while any process is inside an operation or a section,
      some such process can take its next step. */
  lemma NoDeadlock(n: nat, ms: seq<Move>, tr: seq<State>, i: nat, p: Pid)
    requires IsRun(n, ms, tr) && i < |tr| && p < n
    ensures |tr[i].pc| == n
    ensures tr[i].pc[p] != Idle ==> exists q :: Live(tr[i], q)
  {
    RunGood(n, ms, tr, i);
    if tr[i].pc[p] != Idle { SomeoneMoves(tr[i], p); }
  }

  /** When every process is outside, the lock is as it was created. */
  lemma IdleMeansFree(s: State)
    requires Good(s) && forall p :: 0 <= p < |s.pc| ==> s.pc[p] == Idle
    ensures s.x == FREE && s.k == FREE && s.l == None && s.readers == 0
    ensures forall p :: 0 <= p < |s.pc| ==> !s.token[p]
  {
    assert Readers(s.pc) == {};
    Witnesses(s.x, s.qnext, s.token, XRoles(s.pc), XQueue(s), false);
    Witnesses(s.k, s.qnext, s.token, KRoles(s.pc), KQueue(s), Group(s));
  }

  // ------------------------------------------------------------------------ runs drain

  function LRank(st: LStep): nat {
    match st case Acquire => 4 case Enter => 3 case LeaveWait => 2 case LeaveGot => 1 case Sleep => 1
  }

  function TRank(st: TStep): nat {
    match st case Try => 3 case Test => 2 case LeaveYes => 1 case LeaveNo => 1
  }

  function URank(st: UStep): nat {
    match st case Release => 4 case Pop => 3 case LeaveReady(_) => 2 case LeaveFree => 1 case Wake(_) => 1
  }

  /** How many steps a process has at most before it is outside again. */
  function Rank(c: PC): nat {
    match c
    case Idle => 0
    case UU => 1
    case UK(st) => 1 + URank(st)
    case UDec => 6
    case UL => 7
    case Reading => 8
    case RV(st) => 8 + URank(st)
    case RU => 13
    case RK(st) => 13 + TRank(st)
    case RInc => 17
    case RL => 18
    case CX(st) => 18 + TRank(st)
    case RX(st) => 18 + LRank(st)
    case VX(st) => URank(st)
    case VK(st) => 4 + URank(st)
    case Writing => 9
    case WK(st) => 9 + LRank(st)
    case WX(st) => 13 + LRank(st)
  }

  ghost function Work(pc: seq<PC>): nat {
    if pc == [] then 0 else Rank(pc[0]) + Work(pc[1..])
  }

  lemma {:induction false} WorkUpdate(pc: seq<PC>, p: nat, c: PC)
    requires p < |pc|
    ensures Work(pc[p := c]) == Work(pc) - Rank(pc[p]) + Rank(c)
  {
    if p == 0 {
      assert pc[p := c][1..] == pc[1..];
    } else {
      WorkUpdate(pc[1..], p - 1, c);
      assert pc[p := c][1..] == pc[1..][p - 1 := c];
    }
  }

  lemma {:induction false} WorkBound(pc: seq<PC>)
    ensures Work(pc) <= 22 * |pc|
    ensures Work(pc) == 0 ==> forall p :: 0 <= p < |pc| ==> pc[p] == Idle
  {
    if pc != [] {
      WorkBound(pc[1..]);
      forall p | 0 <= p < |pc| && Work(pc) == 0 ensures pc[p] == Idle {
        if p > 0 { assert pc[p] == pc[1..][p - 1]; }
      }
    }
  }

  lemma RankDrops(s: State, p: Pid, call: Call)
    requires Sized(s) && p < |s.pc| && s.pc[p] != Idle
    ensures Rank(DoStep(s, p, call).pc[p]) < Rank(s.pc[p])
  {
  }

  lemma MoveDrops(s: State, m: Move, s': State)
    requires Moves(s, m, s') && s.pc[m.p] != Idle
    ensures Work(s'.pc) < Work(s.pc)
  {
    RankDrops(s, m.p, m.call);
    assert s'.pc == s.pc[m.p := s'.pc[m.p]];
    WorkUpdate(s.pc, m.p, s'.pc[m.p]);
  }

  lemma {:induction false} WorkDrops(n: nat, ms: seq<Move>, tr: seq<State>, i: nat, j: nat)
    requires IsRun(n, ms, tr) && i <= j < |tr|
    requires forall k {:trigger ms[k]} :: i <= k < j ==> ms[k].p < |tr[k].pc| && tr[k].pc[ms[k].p] != Idle
    ensures Work(tr[j].pc) + (j - i) <= Work(tr[i].pc)
    decreases j
  {
    if i < j {
      WorkDrops(n, ms, tr, i, j - 1);
      MoveDrops(tr[j - 1], ms[j - 1], tr[j]);
    }
  }

  /** When no process makes a new call, every schedule comes to an end after at most 22 steps
      for each process; and where it ends, because nobody can move, everybody is outside and
      the lock is as it was created.  So every `rlock` and `wlock` returns. */
  lemma RunsDrain(n: nat, ms: seq<Move>, tr: seq<State>, i: nat)
    requires IsRun(n, ms, tr) && i < |tr|
    requires forall k {:trigger ms[k]} :: i <= k < |ms| ==> ms[k].p < |tr[k].pc| && tr[k].pc[ms[k].p] != Idle
    ensures |ms| - i <= 22 * n
    ensures var s := tr[|ms|];
      (forall q :: !Live(s, q)) ==>
        && s.x == FREE && s.k == FREE && s.l == None && s.readers == 0
        && forall q :: 0 <= q < |s.pc| ==> s.pc[q] == Idle && |s.token| == |s.pc| && !s.token[q]
  {
    WorkDrops(n, ms, tr, i, |ms|);
    RunGood(n, ms, tr, i);
    WorkBound(tr[i].pc);
    RunGood(n, ms, tr, |ms|);
    var s := tr[|ms|];
    if forall q :: !Live(s, q) {
      forall q | 0 <= q < |s.pc| ensures s.pc[q] == Idle {
        if s.pc[q] != Idle { SomeoneMoves(s, q); assert false; }
      }
      IdleMeansFree(s);
    }
  }
}
