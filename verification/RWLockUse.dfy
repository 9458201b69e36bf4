/** What the operations of the readers/writer lock are for: each call leads to its own kind of
    section, and readers share the lock. */
module RWLockUse {
  import opened Bytes
  import opened QueueLock
  import opened RWLock
  import opened RWLockRuns

  // ----------------------------------------------------------- a call leads to its section

  /** What p called when it was last outside, before step i of the run; None if it has never
      called anything. */
  function LastCall(ms: seq<Move>, tr: seq<State>, i: nat, p: Pid): Option<Call>
    requires i <= |ms| && |tr| == |ms| + 1
  {
    if i == 0 then None
    else if ms[i - 1].p == p && p < |tr[i - 1].pc| && tr[i - 1].pc[p] == Idle then Some(ms[i - 1].call)
    else LastCall(ms, tr, i - 1, p)
  }

  /** The points of `rlock` and `canrlock` after they have x, of the section, and of `runlock`. */
  predicate OfReader(c: PC) {
    c.RL? || c.RInc? || c.RK? || c.RU? || c.RV? || c.Reading? || c.UL? || c.UDec? || c.UK? || c.UU?
  }

  predicate OfWriter(c: PC) {
    c.WX? || c.WK? || c.Writing? || c.VK? || c.VX?
  }

  /** The points that a process can be at after the call. */
  predicate Serves(c: PC, call: Option<Call>) {
    c == Idle ||
    match call
    case None => false
    case Some(CallRLock) => c.RX? || OfReader(c)
    case Some(CallCanRLock) => c.CX? || OfReader(c)
    case Some(CallWLock) => OfWriter(c)
  }

  lemma StepServes(s: State, p: Pid, call: Call, last: Option<Call>)
    requires Sized(s) && p < |s.pc| && Serves(s.pc[p], last)
    ensures |DoStep(s, p, call).pc| == |s.pc|
    ensures Serves(DoStep(s, p, call).pc[p], if s.pc[p] == Idle then Some(call) else last)
    ensures forall q :: 0 <= q < |s.pc| && q != p ==> DoStep(s, p, call).pc[q] == s.pc[q]
  {
  }

  lemma {:induction false} CallServed(n: nat, ms: seq<Move>, tr: seq<State>, i: nat, p: Pid)
    requires IsRun(n, ms, tr) && i < |tr| && p < n
    ensures |tr[i].pc| == n && Serves(tr[i].pc[p], LastCall(ms, tr, i, p))
  {
    if i > 0 {
      CallServed(n, ms, tr, i - 1, p);
      var s, m := tr[i - 1], ms[i - 1];
      assert Moves(s, m, tr[i]);
      if m.p == p {
        StepServes(s, p, m.call, LastCall(ms, tr, i - 1, p));
      } else {
        CallServed(n, ms, tr, i - 1, m.p);
        StepServes(s, m.p, m.call, LastCall(ms, tr, i - 1, m.p));
      }
    }
  }

  /** In every run, who is in the section of a reader has called `rlock` or `canrlock`, and who
      is in that of a writer has called `wlock`. */
  lemma SectionOfCall(n: nat, ms: seq<Move>, tr: seq<State>, i: nat, p: Pid)
    requires IsRun(n, ms, tr) && i < |tr| && p < n
    ensures |tr[i].pc| == n
    ensures var c, last := tr[i].pc[p], LastCall(ms, tr, i, p);
      && (c.Reading? || InReader(c) ==> last == Some(CallRLock) || last == Some(CallCanRLock))
      && (c.Writing? || InWriter(c) ==> last == Some(CallWLock))
  {
    CallServed(n, ms, tr, i, p);
  }

  // -------------------------------------------------------------------- a process by itself

  /** Process p takes one step, and the state s becomes t. */
  ghost predicate Next(s: State, p: Pid, call: Call, t: State) {
    Sized(s) && p < |s.pc| && CanStep(s, p) && t == DoStep(s, p, call)
  }

  /** Process p takes k steps, nobody else any, and the state s becomes t. */
  ghost predicate Alone(s: State, p: Pid, call: Call, k: nat, t: State)
    decreases k
  {
    if k == 0 then s == t
    else Sized(s) && p < |s.pc| && CanStep(s, p) && Alone(DoStep(s, p, call), p, call, k - 1, t)
  }

  lemma {:induction false} AloneThen(s: State, p: Pid, call: Call, k: nat, t: State, j: nat, u: State)
    requires Alone(s, p, call, k, t) && Alone(t, p, call, j, u)
    ensures Alone(s, p, call, k + j, u)
    decreases k
  {
    hide CanStep, DoStep;
    if k > 0 { AloneThen(DoStep(s, p, call), p, call, k - 1, t, j, u); }
  }

  lemma Three(s: State, p: Pid, call: Call, t: State, u: State, v: State)
    requires Next(s, p, call, t) && Next(t, p, call, u) && Next(u, p, call, v)
    ensures Alone(s, p, call, 3, v)
  {
    hide CanStep, DoStep;
    assert Alone(v, p, call, 0, v);
    assert Alone(u, p, call, 1, v);
    assert Alone(t, p, call, 2, v);
  }

  lemma One(s: State, p: Pid, call: Call, t: State)
    requires Next(s, p, call, t)
    ensures Alone(s, p, call, 1, t)
  {
    hide CanStep, DoStep;
    assert Alone(t, p, call, 0, t);
  }

  /** A queue lock that nobody is working on or waiting for. */
  function Resting(locked: bool): QLock { QLock(None, locked, None, None) }

  /** The state s with p at c and the shared fields as given. */
  function At(s: State, p: Pid, x: QLock, k: QLock, l: Option<Pid>, readers: int, c: PC): State
    requires p < |s.pc|
  {
    s.(x := x, k := k, l := l, readers := readers, pc := s.pc[p := c])
  }

  /** qlock(&l->x) when nobody has x. */
  lemma TakeX(s: State, p: Pid, k: QLock, call: Call, writer: bool)
    requires Sized(s) && p < |s.pc|
    ensures Alone(At(s, p, FREE, k, None, s.readers, if writer then WX(Acquire) else RX(Acquire)), p, call, 3,
                  At(s, p, Resting(true), k, None, s.readers, if writer then WK(Acquire) else RL))
  {
    var busy := FREE.(use := Some(p));
    var taken, r := busy.(locked := true), s.readers;
    Three(At(s, p, FREE, k, None, r, if writer then WX(Acquire) else RX(Acquire)), p, call,
          At(s, p, busy, k, None, r, if writer then WX(Enter) else RX(Enter)),
          At(s, p, taken, k, None, r, if writer then WX(LeaveGot) else RX(LeaveGot)),
          At(s, p, Resting(true), k, None, r, if writer then WK(Acquire) else RL));
  }

  /** canqlock(&l->x) when nobody has x. */
  lemma TryX(s: State, p: Pid, k: QLock, call: Call)
    requires Sized(s) && p < |s.pc|
    ensures Alone(At(s, p, FREE, k, None, s.readers, CX(Try)), p, call, 3,
                  At(s, p, Resting(true), k, None, s.readers, RL))
  {
    var busy, r := FREE.(use := Some(p)), s.readers;
    Three(At(s, p, FREE, k, None, r, CX(Try)), p, call, At(s, p, busy, k, None, r, CX(Test)),
          At(s, p, busy.(locked := true), k, None, r, CX(LeaveYes)), At(s, p, Resting(true), k, None, r, RL));
  }

  /** qlock(&l->k) when nobody has k. */
  lemma TakeK(s: State, p: Pid, call: Call)
    requires Sized(s) && p < |s.pc|
    ensures Alone(At(s, p, Resting(true), FREE, None, s.readers, WK(Acquire)), p, call, 3,
                  At(s, p, Resting(true), Resting(true), None, s.readers, Writing))
  {
    var busy, x, r := FREE.(use := Some(p)), Resting(true), s.readers;
    Three(At(s, p, x, FREE, None, r, WK(Acquire)), p, call, At(s, p, x, busy, None, r, WK(Enter)),
          At(s, p, x, busy.(locked := true), None, r, WK(LeaveGot)), At(s, p, x, Resting(true), None, r, Writing));
  }

  /** Registering as a reader, with x taken: k is locked afterwards, whoever locked it. */
  lemma Register(s: State, p: Pid, held: bool, call: Call)
    requires Sized(s) && p < |s.pc|
    ensures Alone(At(s, p, Resting(true), Resting(held), None, s.readers, RL), p, call, 6,
                  At(s, p, Resting(true), Resting(true), None, s.readers + 1, RV(Release)))
  {
    var x, r, l := Resting(true), s.readers + 1, Some(p);
    var busy := Resting(held).(use := l);
    var s1 := At(s, p, x, Resting(held), l, r, RK(Try));
    var s2 := At(s, p, x, busy.(locked := true), l, r, RK(if held then LeaveNo else LeaveYes));
    Three(At(s, p, x, Resting(held), None, s.readers, RL), p, call, At(s, p, x, Resting(held), l, s.readers, RInc),
          s1, At(s, p, x, busy, l, r, RK(Test)));
    Three(At(s, p, x, busy, l, r, RK(Test)), p, call, s2, At(s, p, x, Resting(true), l, r, RU),
          At(s, p, x, Resting(true), None, r, RV(Release)));
    AloneThen(At(s, p, x, Resting(held), None, s.readers, RL), p, call, 3, At(s, p, x, busy, l, r, RK(Test)), 3,
              At(s, p, x, Resting(true), None, r, RV(Release)));
  }

  /** qunlock(&l->x) when nobody waits for x. */
  lemma GiveX(s: State, p: Pid, readers: int, call: Call)
    requires Sized(s) && p < |s.pc|
    ensures Alone(At(s, p, Resting(true), Resting(true), None, readers, RV(Release)), p, call, 3,
                  At(s, p, FREE, Resting(true), None, readers, Reading))
  {
    var k, busy := Resting(true), Resting(true).(use := Some(p));
    Three(At(s, p, k, k, None, readers, RV(Release)), p, call, At(s, p, busy, k, None, readers, RV(Pop)),
          At(s, p, busy.(locked := false), k, None, readers, RV(LeaveFree)), At(s, p, FREE, k, None, readers, Reading));
  }

  // ----------------------------------------------------------------------- readers share

  /** Everybody is outside or reading. */
  ghost predicate Quiet(s: State) {
    forall q :: 0 <= q < |s.pc| ==> s.pc[q] == Idle || s.pc[q] == Reading
  }

  lemma QuietX(s: State)
    requires Good(s) && Quiet(s)
    ensures s.x == FREE && s.l == None
  {
    hide Group;
    Witnesses(s.x, s.qnext, s.token, XRoles(s.pc), XQueue(s), false);
  }

  lemma QuietK(s: State)
    requires Good(s) && Quiet(s)
    ensures s.k == Resting(s.readers > 0)
  {
    Witnesses(s.k, s.qnext, s.token, KRoles(s.pc), KQueue(s), Group(s));
  }

  lemma NobodyReads(s: State)
    requires CountInv(s) && Quiet(s)
    ensures s.readers == 0 <==> forall q :: 0 <= q < |s.pc| ==> s.pc[q] == Idle
  {
    if s.readers == 0 {
      forall q | 0 <= q < |s.pc| ensures s.pc[q] == Idle { assert s.pc[q] == Reading ==> q in Readers(s.pc); }
    } else {
      var q :| q in Readers(s.pc);
    }
  }

  /** Then x is free, and k is locked if there are readers. */
  lemma OnlyReaders(s: State)
    requires Good(s) && Quiet(s)
    ensures s.x == FREE && s.k == Resting(s.readers > 0) && s.l == None
    ensures s.readers == 0 <==> forall q :: 0 <= q < |s.pc| ==> s.pc[q] == Idle
  {
    QuietX(s);
    QuietK(s);
    NobodyReads(s);
  }

  /** Readers share: when everybody else is outside or reading, a process that calls `rlock` or
      `canrlock` comes to its section by its own steps alone, while the others stay where they
      are. */
  lemma ReadersShare(s: State, p: Pid, call: Call)
    requires Good(s) && Quiet(s) && p < |s.pc| && s.pc[p] == Idle && call != CallWLock
    ensures Alone(s, p, call, 13,
                  s.(k := Resting(true), readers := s.readers + 1, pc := s.pc[p := Reading]))
  {
    OnlyReaders(s);
    var k, r, x := s.k, s.readers, Resting(true);
    var s1 := At(s, p, FREE, k, None, r, if call == CallRLock then RX(Acquire) else CX(Try));
    var s2, s3 := At(s, p, x, k, None, r, RL), At(s, p, x, x, None, r + 1, RV(Release));
    var s4 := At(s, p, FREE, x, None, r + 1, Reading);
    One(s, p, call, s1);
    if call == CallRLock { TakeX(s, p, k, call, false); } else { TryX(s, p, k, call); }
    Register(s, p, r > 0, call);
    GiveX(s, p, r + 1, call);
    AloneThen(s, p, call, 1, s1, 3, s2);
    AloneThen(s, p, call, 4, s2, 6, s3);
    AloneThen(s, p, call, 10, s3, 3, s4);
  }

  /** When everybody is outside, a process that calls `wlock` comes to its section by its own
      steps alone. */
  lemma WriterEnters(s: State, p: Pid)
    requires Good(s) && p < |s.pc| && forall q :: 0 <= q < |s.pc| ==> s.pc[q] == Idle
    ensures Alone(s, p, CallWLock, 7, s.(x := Resting(true), k := Resting(true), pc := s.pc[p := Writing]))
  {
    OnlyReaders(s);
    var x, call := Resting(true), CallWLock;
    var s1 := At(s, p, FREE, FREE, None, 0, WX(Acquire));
    var s2, s3 := At(s, p, x, FREE, None, 0, WK(Acquire)), At(s, p, x, x, None, 0, Writing);
    One(s, p, call, s1);
    TakeX(s, p, FREE, call, true);
    TakeK(s, p, call);
    AloneThen(s, p, call, 1, s1, 3, s2);
    AloneThen(s, p, call, 4, s2, 3, s3);
  }
}
