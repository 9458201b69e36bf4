/** The readers/writer lock of lib9/lock.c, built from two queue locks x and k, a spin lock l
    and a count of readers, as a state machine with any number of processes. */
module RWLock {
  import opened Bytes
  import opened QueueLock

  /** Where a process is inside the operations of the RWlock; `Idle` is outside all of them. */
  datatype PC =
    | Idle
    | RX(l: LStep)        // rlock: qlock(&l->x)
    | CX(t: TStep)        // canrlock: canqlock(&l->x)
    | RL                  // lock(&l->l)
    | RInc                // l->readers++
    | RK(t: TStep)        // canqlock(&l->k)
    | RU                  // unlock(&l->l)
    | RV(u: UStep)        // qunlock(&l->x)
    | Reading
    | UL                  // runlock: lock(&l->l)
    | UDec                // --l->readers == 0
    | UK(u: UStep)        // qunlock(&l->k)
    | UU                  // unlock(&l->l)
    | WX(l: LStep)        // wlock: qlock(&l->x)
    | WK(l: LStep)        // qlock(&l->k)
    | Writing
    | VK(u: UStep)        // wunlock: qunlock(&l->k)
    | VX(u: UStep)        // qunlock(&l->x)

  datatype Call = CallRLock | CallCanRLock | CallWLock

  datatype State = State(
    x: QLock, k: QLock, l: Option<Pid>, readers: int,
    qnext: seq<Option<Pid>>, token: seq<bool>, pc: seq<PC>)

  function Init(n: nat): State {
    State(FREE, FREE, None, 0, seq(n, _ => None), seq(n, _ => false), seq(n, _ => Idle))
  }

  ghost predicate Sized(s: State) {
    |s.qnext| == |s.token| == |s.pc|
  }

  // --------------------------------------------------------------------------- the steps

  /** Process p can take its next step; a spinning or sleeping process cannot. */
  predicate CanStep(s: State, p: Pid)
    requires |s.token| == |s.pc| && p < |s.pc|
  {
    match s.pc[p]
    case RX(st) => CanLock(s.x, s.token, p, st)
    case WX(st) => CanLock(s.x, s.token, p, st)
    case WK(st) => CanLock(s.k, s.token, p, st)
    case RV(st) => CanUnlock(s.x, st)
    case VX(st) => CanUnlock(s.x, st)
    case UK(st) => CanUnlock(s.k, st)
    case VK(st) => CanUnlock(s.k, st)
    case RL => s.l.None?
    case UL => s.l.None?
    case _ => true
  }

  function WithX(s: State, r: LResult, p: Pid, c: PC): State
    requires p < |s.pc|
  {
    s.(x := r.q, qnext := r.qnext, token := r.token, pc := s.pc[p := c])
  }

  function FreeX(s: State, r: UResult, p: Pid, c: PC): State
    requires p < |s.pc|
  {
    s.(x := r.q, token := r.token, pc := s.pc[p := c])
  }

  function FreeK(s: State, r: UResult, p: Pid, c: PC): State
    requires p < |s.pc|
  {
    s.(k := r.q, token := r.token, pc := s.pc[p := c])
  }

  function FirstPC(call: Call): PC {
    match call
    case CallRLock => RX(Acquire)
    case CallCanRLock => CX(Try)
    case CallWLock => WX(Acquire)
  }

  /** The state after process p takes its next step.  An idle process starts the operation
      `call`; a reader or writer leaves its section by calling the matching unlock. */
  function DoStep(s: State, p: Pid, call: Call): State
    requires Sized(s) && p < |s.pc|
  {
    match s.pc[p]
    case Idle => s.(pc := s.pc[p := FirstPC(call)])
    case RX(st) =>
      var r := LockStep(s.x, s.qnext, s.token, p, st);
      WithX(s, r, p, if r.next.Some? then RX(r.next.value) else RL)
    case CX(st) =>
      var r := TryStep(s.x, p, st);
      s.(x := r.q, pc := s.pc[p := if r.next.Some? then CX(r.next.value) else if r.got then RL else Idle])
    case RL => s.(l := Some(p), pc := s.pc[p := RInc])
    case RInc => s.(readers := s.readers + 1, pc := s.pc[p := RK(Try)])
    case RK(st) =>
      var r := TryStep(s.k, p, st);
      s.(k := r.q, pc := s.pc[p := if r.next.Some? then RK(r.next.value) else RU])
    case RU => s.(l := None, pc := s.pc[p := RV(Release)])
    case RV(st) =>
      var r := UnlockStep(s.x, s.qnext, s.token, p, st);
      FreeX(s, r, p, if r.next.Some? then RV(r.next.value) else Reading)
    case Reading => s.(pc := s.pc[p := UL])
    case UL => s.(l := Some(p), pc := s.pc[p := UDec])
    case UDec => s.(readers := s.readers - 1, pc := s.pc[p := if s.readers - 1 == 0 then UK(Release) else UU])
    case UK(st) =>
      var r := UnlockStep(s.k, s.qnext, s.token, p, st);
      FreeK(s, r, p, if r.next.Some? then UK(r.next.value) else UU)
    case UU => s.(l := None, pc := s.pc[p := Idle])
    case WX(st) =>
      var r := LockStep(s.x, s.qnext, s.token, p, st);
      WithX(s, r, p, if r.next.Some? then WX(r.next.value) else WK(Acquire))
    case WK(st) =>
      var r := LockStep(s.k, s.qnext, s.token, p, st);
      s.(k := r.q, qnext := r.qnext, token := r.token,
         pc := s.pc[p := if r.next.Some? then WK(r.next.value) else Writing])
    case Writing => s.(pc := s.pc[p := VK(Release)])
    case VK(st) =>
      var r := UnlockStep(s.k, s.qnext, s.token, p, st);
      FreeK(s, r, p, if r.next.Some? then VK(r.next.value) else VX(Release))
    case VX(st) =>
      var r := UnlockStep(s.x, s.qnext, s.token, p, st);
      FreeX(s, r, p, if r.next.Some? then VX(r.next.value) else Idle)
  }

  // -------------------------------------------------------- what a program point stands for

  /** What a process is to x.  A reader owns x while it registers, a writer until it is done. */
  function XRole(c: PC): Role {
    match c
    case RX(st) => Locking(st)
    case WX(st) => Locking(st)
    case CX(st) => Trying(st)
    case RV(st) => Unlocking(st)
    case VX(st) => Unlocking(st)
    case RL => Owning
    case RInc => Owning
    case RK(_) => Owning
    case RU => Owning
    case WK(_) => Owning
    case Writing => Owning
    case VK(_) => Owning
    case _ => Out
  }

  /** What a process is to k.  A reader that has taken k leaves it to the group of readers. */
  function KRole(c: PC): Role {
    match c
    case WK(st) => Locking(st)
    case RK(st) => Trying(st)
    case UK(st) => Unlocking(st)
    case VK(st) => Unlocking(st)
    case Writing => Owning
    case _ => Out
  }

  function XRoles(pc: seq<PC>): seq<Role> {
    seq(|pc|, i requires 0 <= i < |pc| => XRole(pc[i]))
  }

  function KRoles(pc: seq<PC>): seq<Role> {
    seq(|pc|, i requires 0 <= i < |pc| => KRole(pc[i]))
  }

  /** p holds the spin lock l. */
  predicate HoldsL(c: PC) {
    c.RInc? || c.RK? || c.RU? || c.UDec? || c.UK? || c.UU?
  }

  predicate Asleep(c: PC) {
    c == RX(Sleep) || c == WX(Sleep) || c == WK(Sleep)
  }

  /** p is one of the processes that `readers` counts. */
  predicate Counted(c: PC) {
    c.RK? || c.RU? || c.RV? || c.Reading? || c.UL? || c.UDec?
  }

  ghost function Readers(pc: seq<PC>): set<Pid> {
    set p: Pid | 0 <= p < |pc| && Counted(pc[p])
  }

  /** k is held for the readers: there are some, and the first of them is past `canqlock`. */
  ghost predicate Group(s: State) {
    s.readers > 0 && (s.readers == 1 ==> forall p :: 0 <= p < |s.pc| ==> !s.pc[p].RK?)
  }

  // ------------------------------------------------------------------------ the invariant

  ghost predicate CountInv(s: State) {
    && (forall p :: 0 <= p < |s.pc| ==> (s.l == Some(p) <==> HoldsL(s.pc[p])))
    && (s.l.Some? ==> s.l.value < |s.pc|)
    && s.readers == |Readers(s.pc)|
    && (forall p :: 0 <= p < |s.pc| && s.pc[p].UK? ==> s.readers == 0)
    && (forall p :: 0 <= p < |s.pc| && s.pc[p] == RK(LeaveYes) ==> s.readers == 1)
    && (forall p :: 0 <= p < |s.pc| && s.pc[p] == RK(LeaveNo) ==> s.readers >= 2)
  }

  ghost predicate Inv(s: State, xq: seq<Pid>, kq: seq<Pid>) {
    && Sized(s)
    && QInv(s.x, s.qnext, s.token, XRoles(s.pc), xq, false)
    && QInv(s.k, s.qnext, s.token, KRoles(s.pc), kq, Group(s))
    && CountInv(s)
    && (forall p :: 0 <= p < |s.pc| && s.token[p] ==> Asleep(s.pc[p]))
  }

  /** The queue of x after p's step: p joins at the end, or the first waiter leaves. */
  function XAfter(s: State, xq: seq<Pid>, p: Pid): seq<Pid>
    requires p < |s.pc|
  {
    match s.pc[p]
    case RX(st) => QueueAfterLock(s.x, xq, p, st)
    case WX(st) => QueueAfterLock(s.x, xq, p, st)
    case RV(st) => QueueAfterUnlock(xq, st)
    case VX(st) => QueueAfterUnlock(xq, st)
    case _ => xq
  }

  function KAfter(s: State, kq: seq<Pid>, p: Pid): seq<Pid>
    requires p < |s.pc|
  {
    match s.pc[p]
    case WK(st) => QueueAfterLock(s.k, kq, p, st)
    case UK(st) => QueueAfterUnlock(kq, st)
    case VK(st) => QueueAfterUnlock(kq, st)
    case _ => kq
  }

  lemma InitInv(n: nat)
    ensures Inv(Init(n), [], [])
  {
    var s := Init(n);
    assert Readers(s.pc) == {};
  }

  lemma Roles(pc: seq<PC>, p: Pid, c: PC)
    requires p < |pc|
    ensures XRoles(pc[p := c]) == XRoles(pc)[p := XRole(c)]
    ensures KRoles(pc[p := c]) == KRoles(pc)[p := KRole(c)]
  {
  }

  lemma Recount(pc: seq<PC>, p: Pid, c: PC)
    requires p < |pc|
    ensures |Readers(pc[p := c])| ==
            |Readers(pc)| + (if Counted(c) then 1 else 0) - (if Counted(pc[p]) then 1 else 0)
  {
    var a, b := Readers(pc), Readers(pc[p := c]);
    assert (p in a) == Counted(pc[p]) && (p in b) == Counted(c);
    assert a - {p} == b - {p};
    assert |a - {p}| == |a| - (if p in a then 1 else 0);
    assert |b - {p}| == |b| - (if p in b then 1 else 0);
  }

  // -------------------------------------------------------------- every step keeps Inv

  ghost predicate Tokens(s: State) {
    |s.token| == |s.pc| && forall p :: 0 <= p < |s.pc| && s.token[p] ==> Asleep(s.pc[p])
  }

  ghost predicate XQ(s: State, xq: seq<Pid>) {
    QInv(s.x, s.qnext, s.token, XRoles(s.pc), xq, false)
  }

  ghost predicate KQ(s: State, kq: seq<Pid>) {
    QInv(s.k, s.qnext, s.token, KRoles(s.pc), kq, Group(s))
  }

  /** Spin lock l, the count of readers and what the reader at `canqlock(&l->k)` knows. */
  lemma CountStep(s: State, p: Pid, call: Call)
    requires Sized(s) && CountInv(s) && p < |s.pc| && CanStep(s, p)
    requires s.pc[p] == RK(Test) ==> (s.k.locked <==> s.readers >= 2)
    ensures CountInv(DoStep(s, p, call))
  {
    var s' := DoStep(s, p, call);
    Recount(s.pc, p, s'.pc[p]);
    assert s'.pc == s.pc[p := s'.pc[p]];
    SpinStep(s, p, call);
    assert Counted(s.pc[p]) ==> p in Readers(s.pc);
    KnowStep(s, p, call);
  }

  /** What a process that holds l knows about the count. */
  lemma KnowStep(s: State, p: Pid, call: Call)
    requires Sized(s) && CountInv(s) && p < |s.pc| && CanStep(s, p) && (Counted(s.pc[p]) ==> s.readers >= 1)
    requires s.pc[p] == RK(Test) ==> (s.k.locked <==> s.readers >= 2)
    ensures var s' := DoStep(s, p, call);
      && (forall i :: 0 <= i < |s'.pc| && s'.pc[i].UK? ==> s'.readers == 0)
      && (forall i :: 0 <= i < |s'.pc| && s'.pc[i] == RK(LeaveYes) ==> s'.readers == 1)
      && (forall i :: 0 <= i < |s'.pc| && s'.pc[i] == RK(LeaveNo) ==> s'.readers >= 2)
  {
    var s' := DoStep(s, p, call);
    forall i | 0 <= i < |s'.pc| && i != p ensures s'.pc[i] == s.pc[i] && (HoldsL(s.pc[i]) ==> s'.readers == s.readers) {
      assert s.l == Some(i) <==> HoldsL(s.pc[i]);
      assert s.l == Some(p) <==> HoldsL(s.pc[p]);
    }
  }

  lemma SpinStep(s: State, p: Pid, call: Call)
    requires Sized(s) && CountInv(s) && p < |s.pc| && CanStep(s, p)
    ensures var s' := DoStep(s, p, call);
      && (forall i :: 0 <= i < |s'.pc| ==> (s'.l == Some(i) <==> HoldsL(s'.pc[i])))
      && (s'.l.Some? ==> s'.l.value < |s'.pc|)
  {
  }

  /** Operations on one lock touch `qnext` and tokens only of processes inside its `qlock`,
      none of which is inside the other's. */
  lemma XTouches(s: State, xq: seq<Pid>, p: Pid, call: Call)
    requires Sized(s) && XQ(s, xq) && p < |s.pc|
    requires s.pc[p].RX? || s.pc[p].WX? || s.pc[p].RV? || s.pc[p].VX?
    ensures var s' := DoStep(s, p, call);
      && |s'.qnext| == |s'.token| == |s.pc|
      && forall i :: 0 <= i < |s.pc| && KRole(s.pc[i]).Locking? ==>
        s'.qnext[i] == s.qnext[i] && s'.token[i] == s.token[i]
  {
    XRolesApart(s.pc);
    if s.pc[p].RX? || s.pc[p].WX? {
      LockTouches(s.x, s.qnext, s.token, XRoles(s.pc), xq, p, s.pc[p].l);
    } else {
      UnlockTouches(s.x, s.qnext, s.token, XRoles(s.pc), xq, p, s.pc[p].u);
    }
  }

  lemma XRolesApart(pc: seq<PC>)
    ensures forall i :: 0 <= i < |pc| && KRole(pc[i]).Locking? ==> !XRoles(pc)[i].Locking?
    ensures forall i :: 0 <= i < |pc| ==> XRoles(pc)[i] == XRole(pc[i])
  {
  }

  lemma KRolesApart(pc: seq<PC>)
    ensures forall i :: 0 <= i < |pc| && XRole(pc[i]).Locking? ==> !KRoles(pc)[i].Locking?
    ensures forall i :: 0 <= i < |pc| ==> KRoles(pc)[i] == KRole(pc[i])
  {
  }

  lemma KTouches(s: State, kq: seq<Pid>, p: Pid, call: Call)
    requires Sized(s) && KQ(s, kq) && p < |s.pc|
    requires s.pc[p].WK? || s.pc[p].UK? || s.pc[p].VK?
    ensures var s' := DoStep(s, p, call);
      && |s'.qnext| == |s'.token| == |s.pc|
      && forall i :: 0 <= i < |s.pc| && XRole(s.pc[i]).Locking? ==>
        s'.qnext[i] == s.qnext[i] && s'.token[i] == s.token[i]
  {
    KRolesApart(s.pc);
    if s.pc[p].WK? {
      LockTouches(s.k, s.qnext, s.token, KRoles(s.pc), kq, p, s.pc[p].l);
    } else {
      UnlockTouches(s.k, s.qnext, s.token, KRoles(s.pc), kq, p, s.pc[p].u);
    }
  }

  /** x after a step inside `qlock(&l->x)`, `canqlock(&l->x)`, `qunlock(&l->x)`. */
  lemma XLocks(s: State, xq: seq<Pid>, p: Pid, call: Call)
    requires Sized(s) && XQ(s, xq) && p < |s.pc| && CanStep(s, p)
    requires s.pc[p].RX? || s.pc[p].WX?
    ensures XQ(DoStep(s, p, call), XAfter(s, xq, p))
  {
    var c := DoStep(s, p, call).pc[p];
    Roles(s.pc, p, c);
    var r := LockStep(s.x, s.qnext, s.token, p, s.pc[p].l);
    assert DoStep(s, p, call) == WithX(s, r, p, c) && XRole(c) == AfterLock(r);
    LockKeeps(s.x, s.qnext, s.token, XRoles(s.pc), xq, false, p, s.pc[p].l);
  }

  lemma XTries(s: State, xq: seq<Pid>, p: Pid, call: Call)
    requires Sized(s) && XQ(s, xq) && p < |s.pc| && s.pc[p].CX?
    ensures XQ(DoStep(s, p, call), XAfter(s, xq, p))
  {
    Roles(s.pc, p, DoStep(s, p, call).pc[p]);
    TryKeeps(s.x, s.qnext, s.token, XRoles(s.pc), xq, false, p, s.pc[p].t);
  }

  lemma XUnlocks(s: State, xq: seq<Pid>, p: Pid, call: Call)
    requires Sized(s) && XQ(s, xq) && p < |s.pc| && CanStep(s, p)
    requires s.pc[p].RV? || s.pc[p].VX?
    ensures XQ(DoStep(s, p, call), XAfter(s, xq, p))
  {
    var c := DoStep(s, p, call).pc[p];
    Roles(s.pc, p, c);
    var r := UnlockStep(s.x, s.qnext, s.token, p, s.pc[p].u);
    assert DoStep(s, p, call) == FreeX(s, r, p, c) && XRole(c) == AfterUnlock(r);
    UnlockKeeps(s.x, s.qnext, s.token, XRoles(s.pc), xq, false, p, s.pc[p].u);
  }

  /** x after a step of k's, which touches neither end of x. */
  lemma XStands(s: State, xq: seq<Pid>, p: Pid, call: Call)
    requires Sized(s) && XQ(s, xq) && p < |s.pc|
    requires s.pc[p].WK? || s.pc[p].UK? || s.pc[p].VK?
    requires var s' := DoStep(s, p, call);
      && |s'.qnext| == |s'.token| == |s.pc|
      && forall i :: 0 <= i < |s.pc| && XRole(s.pc[i]).Locking? ==>
        s'.qnext[i] == s.qnext[i] && s'.token[i] == s.token[i]
    ensures XQ(DoStep(s, p, call), xq)
  {
    XChange(s, p, call);
    XFrame(s, DoStep(s, p, call), xq, p, DoStep(s, p, call).pc[p]);
  }

  /** What a step of k's can change about x. */
  lemma XChange(s: State, p: Pid, call: Call)
    requires Sized(s) && p < |s.pc| && (s.pc[p].WK? || s.pc[p].UK? || s.pc[p].VK?)
    ensures var s' := DoStep(s, p, call);
      && s'.x == s.x && |s'.pc| == |s.pc| && s'.pc == s.pc[p := s'.pc[p]]
      && (XRole(s'.pc[p]) != XRole(s.pc[p]) ==> XRole(s.pc[p]) == Owning && XRole(s'.pc[p]) == Unlocking(Release))
  {
  }

  lemma XFrame(s: State, s': State, xq: seq<Pid>, p: Pid, c: PC)
    requires Sized(s) && XQ(s, xq) && p < |s.pc|
    requires s'.x == s.x && s'.pc == s.pc[p := c] && |s'.qnext| == |s'.token| == |s.pc|
    requires forall i :: 0 <= i < |s.pc| && XRole(s.pc[i]).Locking? ==>
      s'.qnext[i] == s.qnext[i] && s'.token[i] == s.token[i]
    requires XRole(c) != XRole(s.pc[p]) ==> XRole(s.pc[p]) == Owning && XRole(c) == Unlocking(Release)
    ensures XQ(s', xq)
  {
    Roles(s.pc, p, c);
    Frame(s.x, s.qnext, s.token, XRoles(s.pc), xq, false, s'.qnext, s'.token);
    if XRole(c) != XRole(s.pc[p]) {
      Begin(s.x, s'.qnext, s'.token, XRoles(s.pc), xq, false, p, XRole(c));
    } else {
      assert XRoles(s.pc)[p := XRole(c)] == XRoles(s.pc);
    }
  }

  /** x after a step that touches no queue lock. */
  lemma XRests(s: State, xq: seq<Pid>, p: Pid, call: Call)
    requires Sized(s) && XQ(s, xq) && Tokens(s) && p < |s.pc|
    requires s.pc[p].Idle? || s.pc[p].RL? || s.pc[p].RInc? || s.pc[p].RK? || s.pc[p].RU? || s.pc[p].Reading?
          || s.pc[p].UL? || s.pc[p].UDec? || s.pc[p].UU? || s.pc[p].Writing?
    ensures XQ(DoStep(s, p, call), xq)
  {
    var c := DoStep(s, p, call).pc[p];
    XRestChange(s, p, call);
    Roles(s.pc, p, c);
    if XRole(c) != XRole(s.pc[p]) {
      Begin(s.x, s.qnext, s.token, XRoles(s.pc), xq, false, p, XRole(c));
    } else {
      assert XRoles(s.pc)[p := XRole(c)] == XRoles(s.pc);
    }
  }

  /** What such a step can change about x. */
  lemma XRestChange(s: State, p: Pid, call: Call)
    requires Sized(s) && Tokens(s) && p < |s.pc|
    requires s.pc[p].Idle? || s.pc[p].RL? || s.pc[p].RInc? || s.pc[p].RK? || s.pc[p].RU? || s.pc[p].Reading?
          || s.pc[p].UL? || s.pc[p].UDec? || s.pc[p].UU? || s.pc[p].Writing?
    ensures var s' := DoStep(s, p, call);
      && s'.x == s.x && s'.qnext == s.qnext && s'.token == s.token && |s'.pc| == |s.pc| && s'.pc == s.pc[p := s'.pc[p]]
      && (XRole(s'.pc[p]) != XRole(s.pc[p]) ==>
            || (XRole(s.pc[p]) == Out && XRole(s'.pc[p]) == Locking(Acquire) && !s.token[p])
            || (XRole(s.pc[p]) == Out && XRole(s'.pc[p]) == Trying(Try))
            || (XRole(s.pc[p]) == Owning && XRole(s'.pc[p]) == Unlocking(Release)))
  {
  }

  /** The queue of x grows at its end, shrinks at its front, or stands. */
  lemma XStep(s: State, xq: seq<Pid>, kq: seq<Pid>, p: Pid, call: Call)
    requires Sized(s) && XQ(s, xq) && KQ(s, kq) && Tokens(s) && p < |s.pc| && CanStep(s, p)
    ensures XQ(DoStep(s, p, call), XAfter(s, xq, p))
  {
    match s.pc[p] {
      case RX(_) => XLocks(s, xq, p, call);
      case WX(_) => XLocks(s, xq, p, call);
      case CX(_) => XTries(s, xq, p, call);
      case RV(_) => XUnlocks(s, xq, p, call);
      case VX(_) => XUnlocks(s, xq, p, call);
      case WK(_) => KTouches(s, kq, p, call); XStands(s, xq, p, call);
      case UK(_) => KTouches(s, kq, p, call); XStands(s, xq, p, call);
      case VK(_) => KTouches(s, kq, p, call); XStands(s, xq, p, call);
      case _ => XRests(s, xq, p, call);
    }
  }

  // ------------------------------------------------------------------ the same for k

  /** A reader at `canqlock(&l->k)` finds the spin lock of k free: `canqlock` never fails for
      that reason. */
  lemma CanQLockNeverBusy(s: State, xq: seq<Pid>, kq: seq<Pid>, p: Pid)
    requires Sized(s) && XQ(s, xq) && KQ(s, kq) && CountInv(s) && p < |s.pc| && s.pc[p] == RK(Try)
    ensures s.k.use == None
  {
    if s.k.use.Some? {
      var u := s.k.use.value;
      assert Uses(KRoles(s.pc)[u]);
      OneOwner(s, xq, kq, p, u);
    }
  }

  /** While p registers as a reader no other process can be operating on k, except one that
      is on its way to sleep or to call `canqlock` itself. */
  lemma OneOwner(s: State, xq: seq<Pid>, kq: seq<Pid>, p: Pid, o: Pid)
    requires Sized(s) && XQ(s, xq) && CountInv(s) && p < |s.pc| && o < |s.pc|
    requires s.pc[p].RK? && (KRole(s.pc[o]) != Out || s.pc[o].UK?)
    ensures o == p
  {
    assert Owner(XRoles(s.pc), xq, p);
    if XRole(s.pc[o]) == Owning { assert Owner(XRoles(s.pc), xq, o); }
  }

  /** `canqlock(&l->k)` finds k taken exactly when there were readers before this one. */
  lemma CanQLockMeaning(s: State, xq: seq<Pid>, kq: seq<Pid>, p: Pid)
    requires Sized(s) && XQ(s, xq) && KQ(s, kq) && CountInv(s) && p < |s.pc| && s.pc[p] == RK(Test)
    ensures s.k.locked <==> s.readers >= 2
  {
    assert p in Readers(s.pc);
    if s.readers == 1 && s.k.locked {
      var o :| Owner(KRoles(s.pc), kq, o);
      OneOwner(s, xq, kq, p, o);
    }
  }

  lemma KStep(s: State, xq: seq<Pid>, kq: seq<Pid>, p: Pid, call: Call)
    requires Sized(s) && XQ(s, xq) && KQ(s, kq) && CountInv(s) && Tokens(s) && p < |s.pc| && CanStep(s, p)
    ensures KQ(DoStep(s, p, call), KAfter(s, kq, p))
  {
    match s.pc[p] {
      case WK(_) => KLocks(s, kq, p, call);
      case UK(_) => KUnlocks(s, kq, p, call);
      case VK(_) => KUnlocks(s, kq, p, call);
      case RK(_) => KTries(s, xq, kq, p, call);
      case UDec => KLastReader(s, kq, p, call);
      case RInc => KRegisters(s, kq, p, call);
      case _ => KOther(s, xq, kq, p, call);
    }
  }

  lemma KOther(s: State, xq: seq<Pid>, kq: seq<Pid>, p: Pid, call: Call)
    requires Sized(s) && XQ(s, xq) && KQ(s, kq) && Tokens(s) && p < |s.pc|
    requires !s.pc[p].WK? && !s.pc[p].UK? && !s.pc[p].VK? && !s.pc[p].RK? && !s.pc[p].UDec? && !s.pc[p].RInc?
    ensures KQ(DoStep(s, p, call), kq)
  {
    if s.pc[p].RX? || s.pc[p].WX? || s.pc[p].RV? || s.pc[p].VX? {
      XTouches(s, xq, p, call);
    } else {
      TouchesNothing(s, p, call);
    }
    KStands(s, kq, p, call);
  }

  lemma TouchesNothing(s: State, p: Pid, call: Call)
    requires Sized(s) && p < |s.pc| && !s.pc[p].RX? && !s.pc[p].WX? && !s.pc[p].RV? && !s.pc[p].VX?
    requires !s.pc[p].WK? && !s.pc[p].UK? && !s.pc[p].VK?
    ensures DoStep(s, p, call).qnext == s.qnext && DoStep(s, p, call).token == s.token
  {
  }

  /** Whether the readers hold k depends on readers taking or leaving the step at k. */
  lemma SameGroup(s: State, s': State, p: Pid)
    requires |s.pc| == |s'.pc| && p < |s.pc| && s'.pc == s.pc[p := s'.pc[p]] && s'.readers == s.readers
    requires s'.readers == 1 ==> s'.pc[p].RK? == s.pc[p].RK?
    ensures Group(s') == Group(s)
  {
    forall i | 0 <= i < |s.pc| && s.readers == 1 ensures s'.pc[i].RK? == s.pc[i].RK? {}
  }

  lemma KLocks(s: State, kq: seq<Pid>, p: Pid, call: Call)
    requires Sized(s) && KQ(s, kq) && p < |s.pc| && CanStep(s, p) && s.pc[p].WK?
    ensures KQ(DoStep(s, p, call), KAfter(s, kq, p))
  {
    var c := DoStep(s, p, call).pc[p];
    Roles(s.pc, p, c);
    SameGroup(s, DoStep(s, p, call), p);
    var r := LockStep(s.k, s.qnext, s.token, p, s.pc[p].l);
    assert KRole(c) == AfterLock(r);
    LockKeeps(s.k, s.qnext, s.token, KRoles(s.pc), kq, Group(s), p, s.pc[p].l);
  }

  lemma KUnlocks(s: State, kq: seq<Pid>, p: Pid, call: Call)
    requires Sized(s) && KQ(s, kq) && p < |s.pc| && CanStep(s, p) && (s.pc[p].UK? || s.pc[p].VK?)
    ensures KQ(DoStep(s, p, call), KAfter(s, kq, p))
  {
    var c := DoStep(s, p, call).pc[p];
    Roles(s.pc, p, c);
    SameGroup(s, DoStep(s, p, call), p);
    var r := UnlockStep(s.k, s.qnext, s.token, p, s.pc[p].u);
    assert DoStep(s, p, call) == FreeK(s, r, p, c) && KRole(c) == AfterUnlock(r);
    UnlockKeeps(s.k, s.qnext, s.token, KRoles(s.pc), kq, Group(s), p, s.pc[p].u);
  }

  /** The first reader takes k for all; a later one finds it taken. */
  lemma KTries(s: State, xq: seq<Pid>, kq: seq<Pid>, p: Pid, call: Call)
    requires Sized(s) && XQ(s, xq) && KQ(s, kq) && CountInv(s) && p < |s.pc| && s.pc[p].RK?
    ensures KQ(DoStep(s, p, call), kq)
  {
    if s.pc[p].t.LeaveYes? {
      KTaken(s, kq, p, call);
    } else {
      if s.pc[p].t.Try? { CanQLockNeverBusy(s, xq, kq, p); }
      KTrying(s, kq, p, call);
    }
  }

  lemma KTrying(s: State, kq: seq<Pid>, p: Pid, call: Call)
    requires Sized(s) && KQ(s, kq) && CountInv(s) && p < |s.pc| && s.pc[p].RK? && !s.pc[p].t.LeaveYes?
    requires s.pc[p].t.Try? ==> s.k.use.None?
    ensures KQ(DoStep(s, p, call), kq)
  {
    Roles(s.pc, p, DoStep(s, p, call).pc[p]);
    SameGroup(s, DoStep(s, p, call), p);
    TryKeeps(s.k, s.qnext, s.token, KRoles(s.pc), kq, Group(s), p, s.pc[p].t);
  }

  lemma KTaken(s: State, kq: seq<Pid>, p: Pid, call: Call)
    requires Sized(s) && KQ(s, kq) && CountInv(s) && p < |s.pc| && s.pc[p] == RK(LeaveYes)
    ensures KQ(DoStep(s, p, call), kq)
  {
    var s' := DoStep(s, p, call);
    Roles(s.pc, p, RU);
    OnlyOneAtK(s, p);
    assert Group(s') && !Group(s);
    TryKeeps(s.k, s.qnext, s.token, KRoles(s.pc), kq, false, p, LeaveYes);
    ChangeGroup(s'.k, s.qnext, s.token, KRoles(s.pc)[p := Owning], kq, false, p, Out);
    assert KRoles(s.pc)[p := Owning][p := Out] == KRoles(s'.pc);
  }

  lemma KRegisters(s: State, kq: seq<Pid>, p: Pid, call: Call)
    requires Sized(s) && KQ(s, kq) && CountInv(s) && p < |s.pc| && s.pc[p].RInc?
    ensures KQ(DoStep(s, p, call), kq)
  {
    var s' := DoStep(s, p, call);
    Roles(s.pc, p, RK(Try));
    OnlyOneAtK(s, p);
    assert Group(s') == Group(s) by { assert s'.pc[p].RK?; }
    Begin(s.k, s.qnext, s.token, KRoles(s.pc), kq, Group(s), p, Trying(Try));
  }

  lemma OnlyOneAtK(s: State, p: Pid)
    requires CountInv(s) && p < |s.pc| && HoldsL(s.pc[p])
    ensures forall i :: 0 <= i < |s.pc| && i != p ==> !s.pc[i].RK?
  {
  }

  /** The last reader out takes k back from the group in order to release it. */
  lemma KLastReader(s: State, kq: seq<Pid>, p: Pid, call: Call)
    requires Sized(s) && KQ(s, kq) && CountInv(s) && p < |s.pc| && s.pc[p].UDec?
    ensures KQ(DoStep(s, p, call), kq)
  {
    hide QInv;
    var s' := DoStep(s, p, call);
    Roles(s.pc, p, s'.pc[p]);
    OnlyOneAtK(s, p);
    ReadersHold(s, p);
    if s.readers == 1 {
      ChangeGroup(s.k, s.qnext, s.token, KRoles(s.pc), kq, true, p, Unlocking(Release));
    } else {
      assert Group(s');
      assert KRoles(s.pc)[p := Out] == KRoles(s.pc);
    }
  }

  /** Who is about to be uncounted is counted, and nobody else is at k. */
  lemma ReadersHold(s: State, p: Pid)
    requires CountInv(s) && p < |s.pc| && s.pc[p].UDec?
    ensures Group(s)
  {
    OnlyOneAtK(s, p);
    assert p in Readers(s.pc);
  }

  /** What every other step can change about k. */
  lemma KChange(s: State, p: Pid, call: Call)
    requires Sized(s) && Tokens(s) && p < |s.pc|
    requires !s.pc[p].WK? && !s.pc[p].UK? && !s.pc[p].VK? && !s.pc[p].RK? && !s.pc[p].UDec? && !s.pc[p].RInc?
    ensures var s' := DoStep(s, p, call);
      && s'.k == s.k && |s'.pc| == |s.pc| && s'.pc == s.pc[p := s'.pc[p]] && s'.readers == s.readers && !s'.pc[p].RK?
      && (KRole(s'.pc[p]) != KRole(s.pc[p]) && p < |s'.token| ==>
            (KRole(s.pc[p]) == Out && KRole(s'.pc[p]) == Locking(Acquire) && !s'.token[p])
            || (KRole(s.pc[p]) == Owning && KRole(s'.pc[p]) == Unlocking(Release)))
  {
  }

  lemma KStands(s: State, kq: seq<Pid>, p: Pid, call: Call)
    requires Sized(s) && KQ(s, kq) && Tokens(s) && p < |s.pc|
    requires !s.pc[p].WK? && !s.pc[p].UK? && !s.pc[p].VK? && !s.pc[p].RK? && !s.pc[p].UDec? && !s.pc[p].RInc?
    requires var s' := DoStep(s, p, call);
      && |s'.qnext| == |s'.token| == |s.pc|
      && forall i :: 0 <= i < |s.pc| && KRole(s.pc[i]).Locking? ==>
        s'.qnext[i] == s.qnext[i] && s'.token[i] == s.token[i]
    ensures KQ(DoStep(s, p, call), kq)
  {
    KChange(s, p, call);
    SameGroup(s, DoStep(s, p, call), p);
    KFrame(s, DoStep(s, p, call), kq, p, DoStep(s, p, call).pc[p]);
  }

  lemma KFrame(s: State, s': State, kq: seq<Pid>, p: Pid, c: PC)
    requires Sized(s) && KQ(s, kq) && p < |s.pc|
    requires s'.k == s.k && s'.pc == s.pc[p := c] && Group(s') == Group(s) && |s'.qnext| == |s'.token| == |s.pc|
    requires forall i :: 0 <= i < |s.pc| && KRole(s.pc[i]).Locking? ==>
      s'.qnext[i] == s.qnext[i] && s'.token[i] == s.token[i]
    requires KRole(c) != KRole(s.pc[p]) ==>
      (KRole(s.pc[p]) == Out && KRole(c) == Locking(Acquire) && !s'.token[p])
      || (KRole(s.pc[p]) == Owning && KRole(c) == Unlocking(Release))
    ensures KQ(s', kq)
  {
    Roles(s.pc, p, c);
    Frame(s.k, s.qnext, s.token, KRoles(s.pc), kq, Group(s), s'.qnext, s'.token);
    if KRole(c) != KRole(s.pc[p]) {
      Begin(s.k, s'.qnext, s'.token, KRoles(s.pc), kq, Group(s), p, KRole(c));
    } else {
      assert KRoles(s.pc)[p := KRole(c)] == KRoles(s.pc);
    }
  }

  // ------------------------------------------------------------------------ all together

  lemma TokenStep(s: State, xq: seq<Pid>, kq: seq<Pid>, p: Pid, call: Call)
    requires Sized(s) && XQ(s, xq) && KQ(s, kq) && Tokens(s) && p < |s.pc| && CanStep(s, p)
    ensures Tokens(DoStep(s, p, call))
  {
    var c := s.pc[p];
    if (c.RV? || c.VX?) && c.u.Wake? {
      XWakes(s, xq, p);
    } else if (c.UK? || c.VK?) && c.u.Wake? {
      KWakes(s, kq, p);
    }
    TokenKept(s, p, call);
  }

  lemma XWakes(s: State, xq: seq<Pid>, p: Pid)
    requires XQ(s, xq) && p < |s.pc| && (s.pc[p].RV? || s.pc[p].VX?) && s.pc[p].u.Wake?
    ensures s.pc[p].u.target < |s.pc| && Asleep(s.pc[s.pc[p].u.target])
  {
    WakeTarget(s.x, s.qnext, s.token, XRoles(s.pc), xq, false, p, s.pc[p].u.target);
  }

  lemma KWakes(s: State, kq: seq<Pid>, p: Pid)
    requires KQ(s, kq) && p < |s.pc| && (s.pc[p].UK? || s.pc[p].VK?) && s.pc[p].u.Wake?
    ensures s.pc[p].u.target < |s.pc| && Asleep(s.pc[s.pc[p].u.target])
  {
    WakeTarget(s.k, s.qnext, s.token, KRoles(s.pc), kq, Group(s), p, s.pc[p].u.target);
  }

  lemma TokenKept(s: State, p: Pid, call: Call)
    requires Sized(s) && Tokens(s) && p < |s.pc| && CanStep(s, p)
    requires (s.pc[p].RV? || s.pc[p].VX? || s.pc[p].UK? || s.pc[p].VK?) && s.pc[p].u.Wake? ==>
      s.pc[p].u.target < |s.pc| && Asleep(s.pc[s.pc[p].u.target])
    ensures Tokens(DoStep(s, p, call))
  {
  }

  /** The invariant is kept by every step of every process, and the queues change as
      `XAfter` and `KAfter` say. */
  lemma StepInv(s: State, xq: seq<Pid>, kq: seq<Pid>, p: Pid, call: Call)
    requires Inv(s, xq, kq) && p < |s.pc| && CanStep(s, p)
    ensures Inv(DoStep(s, p, call), XAfter(s, xq, p), KAfter(s, kq, p))
  {
    assert XQ(s, xq) && KQ(s, kq) && Tokens(s);
    XStep(s, xq, kq, p, call);
    KStep(s, xq, kq, p, call);
    TokenStep(s, xq, kq, p, call);
    if s.pc[p] == RK(Test) { CanQLockMeaning(s, xq, kq, p); }
    CountStep(s, p, call);
  }
}
