/** The queue lock of lib9/lock.c: a spin lock, a flag, and a list of sleeping processes
    threaded through the processes themselves.

    Taking a spin lock is one atomic step that is possible only while its word is clear;
    releasing it is another.  What a process does in between touches only fields that every
    process touches under the same spin lock, so it is one step.  `osblock` and `osready` work
    on one binary token per process. */
module QueueLock {
  import opened Bytes

  type Pid = nat

  datatype QLock = QLock(use: Option<Pid>, locked: bool, head: Option<Pid>, tail: Option<Pid>)

  const FREE := QLock(None, false, None, None)

  /** Where a process is inside `qlock`. */
  datatype LStep = Acquire | Enter | LeaveGot | LeaveWait | Sleep

  /** Where a process is inside `canqlock`. */
  datatype TStep = Try | Test | LeaveYes | LeaveNo

  /** Where a process is inside `qunlock`. */
  datatype UStep = Release | Pop | LeaveReady(next: Pid) | LeaveFree | Wake(target: Pid)

  // --------------------------------------------------------------------------- the steps

  datatype LResult = LResult(q: QLock, qnext: seq<Option<Pid>>, token: seq<bool>, next: Option<LStep>)

  predicate CanLock(q: QLock, token: seq<bool>, p: Pid, st: LStep)
    requires p < |token|
  {
    match st
    case Acquire => q.use.None?
    case Sleep => token[p]
    case _ => true
  }

  /** One step of `qlock`; `next` is None when it returns. */
  function LockStep(q: QLock, qnext: seq<Option<Pid>>, token: seq<bool>, p: Pid, st: LStep): LResult
    requires p < |token| == |qnext|
  {
    match st
    case Acquire => LResult(q.(use := Some(p)), qnext, token, Some(Enter))
    case Enter =>
      if !q.locked then LResult(q.(locked := true), qnext, token, Some(LeaveGot))
      else
        match q.tail {
          case None =>
            LResult(q.(head := Some(p), tail := Some(p)), qnext[p := None], token, Some(LeaveWait))
          case Some(t) =>
            var linked := if t < |qnext| then qnext[t := Some(p)] else qnext;
            LResult(q.(tail := Some(p)), linked[p := None], token, Some(LeaveWait))
        }
    case LeaveGot => LResult(q.(use := None), qnext, token, None)
    case LeaveWait => LResult(q.(use := None), qnext, token, Some(Sleep))
    case Sleep => LResult(q, qnext, token[p := false], None)
  }

  datatype TResult = TResult(q: QLock, next: Option<TStep>, got: bool)

  /** One step of `canqlock`; it never waits.  When it returns, `got` is its result. */
  function TryStep(q: QLock, p: Pid, st: TStep): TResult {
    match st
    case Try =>
      if q.use.None? then TResult(q.(use := Some(p)), Some(Test), false) else TResult(q, None, false)
    case Test =>
      if q.locked then TResult(q, Some(LeaveNo), false)
      else TResult(q.(locked := true), Some(LeaveYes), false)
    case LeaveYes => TResult(q.(use := None), None, true)
    case LeaveNo => TResult(q.(use := None), None, false)
  }

  datatype UResult = UResult(q: QLock, token: seq<bool>, next: Option<UStep>)

  predicate CanUnlock(q: QLock, st: UStep) {
    st.Release? ==> q.use.None?
  }

  /** One step of `qunlock`; `next` is None when it returns. */
  function UnlockStep(q: QLock, qnext: seq<Option<Pid>>, token: seq<bool>, p: Pid, st: UStep): UResult {
    match st
    case Release => UResult(q.(use := Some(p)), token, Some(Pop))
    case Pop =>
      (match q.head
       case None => UResult(q.(locked := false), token, Some(LeaveFree))
       case Some(h) =>
         var rest := if h < |qnext| then qnext[h] else None;
         UResult(q.(head := rest, tail := if rest.None? then None else q.tail), token, Some(LeaveReady(h))))
    case LeaveReady(h) => UResult(q.(use := None), token, Some(Wake(h)))
    case LeaveFree => UResult(q.(use := None), token, None)
    case Wake(h) => UResult(q, if h < |token| then token[h := true] else token, None)
  }

  // ---------------------------------------------------------------- who owns the lock

  /** What a process is doing with one particular queue lock. */
  datatype Role = Out | Locking(l: LStep) | Trying(t: TStep) | Owning | Unlocking(u: UStep)

  predicate Uses(r: Role) {
    match r
    case Locking(st) => st.Enter? || st.LeaveGot? || st.LeaveWait?
    case Trying(st) => !st.Try?
    case Unlocking(st) => st.Pop? || st.LeaveReady? || st.LeaveFree?
    case _ => false
  }

  predicate Waits(r: Role) {
    r == Locking(LeaveWait) || r == Locking(Sleep)
  }

  predicate Wakes(r: Role, q: Pid) {
    r == Unlocking(LeaveReady(q)) || r == Unlocking(Wake(q))
  }

  /** The process has taken the lock and not yet given it up.  A sleeper owns the lock from
      the moment it leaves the queue. */
  predicate Owns(r: Role, queued: bool) {
    match r
    case Owning => true
    case Locking(st) => st.LeaveGot? || ((st.LeaveWait? || st.Sleep?) && !queued)
    case Trying(st) => st.LeaveYes?
    case Unlocking(st) => st.Release? || st.Pop?
    case Out => false
  }

  // ------------------------------------------------------------------------ the invariant

  /** The spin lock word names the process inside the section, if there is one. */
  ghost predicate SpinInv(q: QLock, role: seq<Role>) {
    && (forall p :: 0 <= p < |role| ==> (q.use == Some(p) <==> Uses(role[p])))
    && (q.use.Some? ==> q.use.value < |role|)
  }

  /** The list from q.head through qnext to q.tail is exactly w. */
  ghost predicate QueueIs(q: QLock, qnext: seq<Option<Pid>>, w: seq<Pid>) {
    && q.head == (if w == [] then None else Some(w[0]))
    && q.tail == (if w == [] then None else Some(w[|w| - 1]))
    && (forall i :: 0 <= i < |w| ==> w[i] < |qnext|)
    && (forall i {:trigger qnext[w[i]]} :: 0 <= i < |w| ==> qnext[w[i]] == if i + 1 < |w| then Some(w[i + 1]) else None)
    && (forall i, j :: 0 <= i < j < |w| ==> w[i] != w[j])
  }

  ghost predicate QueueInv(q: QLock, qnext: seq<Option<Pid>>, role: seq<Role>, w: seq<Pid>) {
    && QueueIs(q, qnext, w)
    && (w != [] ==> q.locked)
    && (forall i :: 0 <= i < |w| ==> w[i] < |role| && Waits(role[w[i]]))
    && (forall p :: 0 <= p < |role| && role[p] == Locking(LeaveWait) ==> p in w)
  }

  ghost predicate Owner(role: seq<Role>, w: seq<Pid>, p: Pid) {
    p < |role| && Owns(role[p], p in w)
  }

  /** At most one owner, and the flag says whether there is one.  `group` says that the lock
      is held on behalf of several processes at once, none of which is its owner. */
  ghost predicate OwnInv(q: QLock, role: seq<Role>, w: seq<Pid>, group: bool) {
    && (forall p, p' :: Owner(role, w, p) && Owner(role, w, p') ==> p == p')
    && (group ==> forall p :: !Owner(role, w, p))
    && (q.locked <==> group || exists p :: Owner(role, w, p))
  }

  /** A sleeper that has left the queue has its token or one process on the way to hand it
      over; nobody else here has a token or is being woken. */
  ghost predicate TokenInv(token: seq<bool>, role: seq<Role>, w: seq<Pid>)
    requires |token| == |role|
  {
    && (forall p :: 0 <= p < |role| && role[p].Locking? && token[p] ==> role[p] == Locking(Sleep) && p !in w)
    && (forall p, q: Pid {:trigger Wakes(role[p], q)} :: 0 <= p < |role| && Wakes(role[p], q) ==>
          q < |role| && Waits(role[q]) && q !in w && !token[q])
    && (forall p, p', q: Pid {:trigger Wakes(role[p], q), Wakes(role[p'], q)} ::
          0 <= p < |role| && 0 <= p' < |role| && Wakes(role[p], q) && Wakes(role[p'], q) ==> p == p')
    && (forall q :: 0 <= q < |role| && Waits(role[q]) && q !in w && !token[q] ==>
          exists p :: 0 <= p < |role| && Wakes(role[p], q))
  }

  ghost predicate QInv(q: QLock, qnext: seq<Option<Pid>>, token: seq<bool>, role: seq<Role>, w: seq<Pid>, group: bool) {
    && |qnext| == |token| == |role|
    && SpinInv(q, role)
    && QueueInv(q, qnext, role, w)
    && OwnInv(q, role, w, group)
    && TokenInv(token, role, w)
  }

  // ------------------------------------------------------------- every step keeps QInv

  function AfterLock(r: LResult): Role {
    if r.next.Some? then Locking(r.next.value) else Owning
  }

  function QueueAfterLock(q: QLock, w: seq<Pid>, p: Pid, st: LStep): seq<Pid> {
    if st.Enter? && q.locked then w + [p] else w
  }

  lemma EnterQueue(q: QLock, qnext: seq<Option<Pid>>, token: seq<bool>, role: seq<Role>, w: seq<Pid>, p: Pid)
    requires |qnext| == |token| == |role| && QueueInv(q, qnext, role, w)
    requires p < |role| && role[p] == Locking(Enter) && q.locked
    ensures var r := LockStep(q, qnext, token, p, Enter);
            QueueInv(r.q, r.qnext, role[p := AfterLock(r)], w + [p])
  {
    var r := LockStep(q, qnext, token, p, Enter);
    var w' := w + [p];
    assert p !in w;
    forall i | 0 <= i < |w'|
      ensures w'[i] < |r.qnext| && r.qnext[w'[i]] == if i + 1 < |w'| then Some(w'[i + 1]) else None
    {
      if i < |w| {
        var x := w[i];
        assert x in w && qnext[x] == if i + 1 < |w| then Some(w[i + 1]) else None;
        assert i < |w| - 1 ==> x != w[|w| - 1];
      }
    }
  }

  /** A step that does not touch the queue keeps it in order. */
  lemma QueueStays(q: QLock, qnext: seq<Option<Pid>>, role: seq<Role>, w: seq<Pid>, q': QLock, p: Pid, r: Role)
    requires QueueInv(q, qnext, role, w) && p < |role|
    requires q'.head == q.head && q'.tail == q.tail && (w != [] ==> q'.locked)
    requires (p in w ==> Waits(r)) && (r == Locking(LeaveWait) ==> p in w)
    ensures QueueInv(q', qnext, role[p := r], w)
  {
    forall i | 0 <= i < |w| ensures w[i] < |role| && Waits(role[p := r][w[i]]) {
      assert w[i] in w;
    }
    forall x | 0 <= x < |role| && role[p := r][x] == Locking(LeaveWait) ensures x in w {
      assert x != p ==> role[x] == Locking(LeaveWait);
    }
  }

  lemma LockKeeps(q: QLock, qnext: seq<Option<Pid>>, token: seq<bool>, role: seq<Role>, w: seq<Pid>, group: bool,
                  p: Pid, st: LStep)
    requires QInv(q, qnext, token, role, w, group)
    requires p < |role| && role[p] == Locking(st) && CanLock(q, token, p, st)
    ensures var r := LockStep(q, qnext, token, p, st);
            QInv(r.q, r.qnext, r.token, role[p := AfterLock(r)], QueueAfterLock(q, w, p, st), group)
  {
    var r := LockStep(q, qnext, token, p, st);
    var role' := role[p := AfterLock(r)];
    var w' := QueueAfterLock(q, w, p, st);
    if st.Enter? && q.locked {
      EnterQueue(q, qnext, token, role, w, p);
    } else {
      assert p in w ==> st.LeaveWait?;
      QueueStays(q, qnext, role, w, r.q, p, AfterLock(r));
    }
    SpinAfterLock(q, qnext, token, role, p, st);
    OwnAfterLock(q, qnext, token, role, w, group, p, st);
    TokenAfterLock(q, qnext, token, role, w, group, p, st);
  }

  lemma SpinAfterLock(q: QLock, qnext: seq<Option<Pid>>, token: seq<bool>, role: seq<Role>, p: Pid, st: LStep)
    requires SpinInv(q, role) && |qnext| == |token| == |role|
    requires p < |role| && role[p] == Locking(st) && CanLock(q, token, p, st)
    ensures var r := LockStep(q, qnext, token, p, st);
            SpinInv(r.q, role[p := AfterLock(r)]) && |r.qnext| == |r.token| == |role|
  {
  }

  lemma OwnAfterLock(q: QLock, qnext: seq<Option<Pid>>, token: seq<bool>, role: seq<Role>, w: seq<Pid>, group: bool,
                     p: Pid, st: LStep)
    requires QInv(q, qnext, token, role, w, group)
    requires p < |role| && role[p] == Locking(st) && CanLock(q, token, p, st)
    ensures var r := LockStep(q, qnext, token, p, st);
            OwnInv(r.q, role[p := AfterLock(r)], QueueAfterLock(q, w, p, st), group)
  {
    var r := LockStep(q, qnext, token, p, st);
    var role' := role[p := AfterLock(r)];
    var w' := QueueAfterLock(q, w, p, st);
    forall x: Pid | x != p ensures Owner(role', w', x) == Owner(role, w, x) {}
    assert Owner(role', w', p) == (Owner(role, w, p) || (st.Enter? && !q.locked));
  }

  lemma TokenAfterLock(q: QLock, qnext: seq<Option<Pid>>, token: seq<bool>, role: seq<Role>, w: seq<Pid>, group: bool,
                       p: Pid, st: LStep)
    requires QInv(q, qnext, token, role, w, group)
    requires p < |role| && role[p] == Locking(st) && CanLock(q, token, p, st)
    ensures var r := LockStep(q, qnext, token, p, st);
            TokenInv(r.token, role[p := AfterLock(r)], QueueAfterLock(q, w, p, st))
  {
    var r := LockStep(q, qnext, token, p, st);
    var role' := role[p := AfterLock(r)];
    var w' := QueueAfterLock(q, w, p, st);
    WakersKept(token, role, w, p, AfterLock(r), r.token[p], w');
    assert r.token == token[p := r.token[p]];
  }

  /** A step of p that wakes nobody and touches no token but its own. */
  lemma WakersKept(token: seq<bool>, role: seq<Role>, w: seq<Pid>, p: Pid, r: Role, t: bool, w': seq<Pid>)
    requires |token| == |role| && p < |role| && TokenInv(token, role, w)
    requires forall x: Pid :: x != p ==> (x in w <==> x in w')
    requires !role[p].Unlocking? && !r.Unlocking?
    requires r.Locking? && t ==> r == Locking(Sleep) && p !in w'
    requires Waits(r) && p !in w' ==> Waits(role[p]) && p !in w && !token[p] && !t
    requires forall x :: 0 <= x < |role| && Wakes(role[x], p) ==> Waits(r) && p !in w' && !t
    ensures TokenInv(token[p := t], role[p := r], w')
  {
    var role', token' := role[p := r], token[p := t];
    forall x, q: Pid | 0 <= x < |role| && Wakes(role'[x], q)
      ensures q < |role| && Waits(role'[q]) && q !in w' && !token'[q]
    {
      assert x != p && Wakes(role[x], q);
      assert q < |role| && Waits(role[q]) && q !in w && !token[q];
      if q != p { assert q !in w'; }
    }
    forall x | 0 <= x < |role| && Waits(role'[x]) && x !in w' && !token'[x]
      ensures exists y :: 0 <= y < |role| && Wakes(role'[y], x)
    {
      assert Waits(role[x]) && x !in w && !token[x];
      var y :| 0 <= y < |role| && Wakes(role[y], x);
      assert role'[y] == role[y];
    }
  }

  // ------------------------------------------------------------------------- canqlock

  /** What a process is to the lock after a step of `canqlock`. */
  function AfterTry(r: TResult): Role {
    if r.next.Some? then Trying(r.next.value) else if r.got then Owning else Out
  }

  lemma TryKeeps(q: QLock, qnext: seq<Option<Pid>>, token: seq<bool>, role: seq<Role>, w: seq<Pid>, group: bool,
                 p: Pid, st: TStep)
    requires QInv(q, qnext, token, role, w, group)
    requires p < |role| && role[p] == Trying(st)
    ensures var r := TryStep(q, p, st);
            QInv(r.q, qnext, token, role[p := AfterTry(r)], w, group)
  {
    var r := TryStep(q, p, st);
    var role' := role[p := AfterTry(r)];
    assert p !in w;
    assert QueueInv(r.q, qnext, role', w);
    TryOwn(q, role, w, group, p, st);
    WakersKept(token, role, w, p, AfterTry(r), token[p], w);
    assert token[p := token[p]] == token;
  }

  lemma TryOwn(q: QLock, role: seq<Role>, w: seq<Pid>, group: bool, p: Pid, st: TStep)
    requires OwnInv(q, role, w, group) && p < |role| && role[p] == Trying(st)
    ensures var r := TryStep(q, p, st); OwnInv(r.q, role[p := AfterTry(r)], w, group)
  {
    var r := TryStep(q, p, st);
    var role' := role[p := AfterTry(r)];
    forall x: Pid | x != p ensures Owner(role', w, x) == Owner(role, w, x) {}
    assert Owner(role', w, p) == (Owner(role, w, p) || (st.Test? && !q.locked));
  }

  // -------------------------------------------------------------------------- qunlock

  function AfterUnlock(r: UResult): Role {
    if r.next.Some? then Unlocking(r.next.value) else Out
  }

  function QueueAfterUnlock(w: seq<Pid>, st: UStep): seq<Pid> {
    if st.Pop? && w != [] then w[1..] else w
  }

  lemma UnlockKeeps(q: QLock, qnext: seq<Option<Pid>>, token: seq<bool>, role: seq<Role>, w: seq<Pid>, group: bool,
                    p: Pid, st: UStep)
    requires QInv(q, qnext, token, role, w, group)
    requires p < |role| && role[p] == Unlocking(st) && CanUnlock(q, st)
    ensures var r := UnlockStep(q, qnext, token, p, st);
            QInv(r.q, qnext, r.token, role[p := AfterUnlock(r)], QueueAfterUnlock(w, st), group)
  {
    var r := UnlockStep(q, qnext, token, p, st);
    var role' := role[p := AfterUnlock(r)];
    assert p !in w;
    if st.Pop? && w != [] {
      PopKeeps(q, qnext, token, role, w, group, p);
    } else if st.Wake? {
      assert Wakes(role[p], st.target);
      assert role[st.target] == Locking(Sleep);
      WakeKeeps(q, qnext, token, role, w, group, p, st.target);
    } else {
      PlainUnlock(q, qnext, token, role, w, group, p, st);
    }
  }

  lemma PlainUnlock(q: QLock, qnext: seq<Option<Pid>>, token: seq<bool>, role: seq<Role>, w: seq<Pid>, group: bool,
                    p: Pid, st: UStep)
    requires QInv(q, qnext, token, role, w, group)
    requires p < |role| && role[p] == Unlocking(st) && CanUnlock(q, st) && p !in w
    requires !(st.Pop? && w != []) && !st.Wake?
    ensures var r := UnlockStep(q, qnext, token, p, st);
            QInv(r.q, qnext, r.token, role[p := AfterUnlock(r)], w, group)
  {
    var r := UnlockStep(q, qnext, token, p, st);
    var role' := role[p := AfterUnlock(r)];
    assert SpinInv(r.q, role');
    assert QueueInv(r.q, qnext, role', w);
    UnlockOwn(q, qnext, token, role, w, group, p, st);
    SameWakers(token, role, w, p, AfterUnlock(r));
  }

  lemma UnlockOwn(q: QLock, qnext: seq<Option<Pid>>, token: seq<bool>, role: seq<Role>, w: seq<Pid>, group: bool,
                  p: Pid, st: UStep)
    requires QueueIs(q, qnext, w) && OwnInv(q, role, w, group) && p < |role| && role[p] == Unlocking(st)
    requires !(st.Pop? && w != []) && !st.Wake?
    ensures var r := UnlockStep(q, qnext, token, p, st); OwnInv(r.q, role[p := AfterUnlock(r)], w, group)
  {
    var r := UnlockStep(q, qnext, token, p, st);
    var role' := role[p := AfterUnlock(r)];
    forall x: Pid | x != p ensures Owner(role', w, x) == Owner(role, w, x) {}
    assert Owner(role', w, p) == (Owner(role, w, p) && !st.Pop?);
  }

  lemma SameWakers(token: seq<bool>, role: seq<Role>, w: seq<Pid>, p: Pid, r: Role)
    requires |token| == |role| && p < |role| && TokenInv(token, role, w)
    requires role[p].Unlocking? && (r.Unlocking? || r == Out)
    requires forall x: Pid :: Wakes(r, x) == Wakes(role[p], x)
    ensures TokenInv(token, role[p := r], w)
  {
    var role' := role[p := r];
    forall x, q: Pid | 0 <= x < |role| ensures Wakes(role'[x], q) == Wakes(role[x], q) {}
    forall x | 0 <= x < |role| && Waits(role'[x]) && x !in w && !token[x]
      ensures exists y :: 0 <= y < |role| && Wakes(role'[y], x)
    {
      assert Waits(role[x]);
      var y :| 0 <= y < |role| && Wakes(role[y], x);
      assert Wakes(role'[y], x);
    }
  }

  /** The lock passes to the first sleeper without being released in between. */
  lemma PopKeeps(q: QLock, qnext: seq<Option<Pid>>, token: seq<bool>, role: seq<Role>, w: seq<Pid>, group: bool, p: Pid)
    requires QInv(q, qnext, token, role, w, group)
    requires p < |role| && role[p] == Unlocking(Pop) && w != []
    ensures var r := UnlockStep(q, qnext, token, p, Pop);
            && QInv(r.q, qnext, r.token, role[p := AfterUnlock(r)], w[1..], group)
            && r.next == Some(LeaveReady(w[0])) && r.q.locked
            && Owner(role[p := AfterUnlock(r)], w[1..], w[0])
  {
    var r := UnlockStep(q, qnext, token, p, Pop);
    var role' := role[p := AfterUnlock(r)];
    PopQueue(q, qnext, token, role, w, p);
    PopOwn(q, role, w, group, p);
    PopToken(token, role, w, p);
  }

  lemma TailOf(w: seq<Pid>)
    requires w != [] && forall i, j :: 0 <= i < j < |w| ==> w[i] != w[j]
    ensures w[0] !in w[1..]
    ensures forall x :: x != w[0] ==> (x in w <==> x in w[1..])
  {
    forall x | x != w[0] ensures x in w <==> x in w[1..] {
      if x in w { var i :| 0 <= i < |w| && w[i] == x; assert w[1..][i - 1] == x; }
    }
  }

  lemma PopQueue(q: QLock, qnext: seq<Option<Pid>>, token: seq<bool>, role: seq<Role>, w: seq<Pid>, p: Pid)
    requires SpinInv(q, role) && QueueInv(q, qnext, role, w)
    requires p < |role| && role[p] == Unlocking(Pop) && w != []
    ensures var r := UnlockStep(q, qnext, token, p, Pop);
            && QueueInv(r.q, qnext, role[p := AfterUnlock(r)], w[1..])
            && r.next == Some(LeaveReady(w[0])) && r.q.locked && r.q.use == q.use && r.token == token
  {
    var r := UnlockStep(q, qnext, token, p, Pop);
    var role' := role[p := AfterUnlock(r)];
    var w' := w[1..];
    assert q.head == Some(w[0]) && w[0] < |qnext| && qnext[w[0]] == if 1 < |w| then Some(w[1]) else None;
    forall i | 0 <= i < |w'|
      ensures w'[i] < |qnext| && qnext[w'[i]] == if i + 1 < |w'| then Some(w'[i + 1]) else None
      ensures w'[i] < |role'| && Waits(role'[w'[i]])
    {
      var x := w[i + 1];
      assert w'[i] == x && x < |qnext| && qnext[x] == if i + 2 < |w| then Some(w[i + 2]) else None;
      assert i + 1 < |w'| ==> w'[i + 1] == w[i + 2];
    }
    TailOf(w);
    forall x | 0 <= x < |role'| && role'[x] == Locking(LeaveWait) ensures x in w' {
      assert x != p && Uses(role[x]) && Uses(role[p]);
    }
    assert r.q.head == if w' == [] then None else Some(w'[0]);
    assert r.q.tail == if w' == [] then None else Some(w'[|w'| - 1]);
    assert QueueIs(r.q, qnext, w') by {
      forall i, j | 0 <= i < j < |w'| ensures w'[i] != w'[j] {
        assert w'[i] == w[i + 1] && w'[j] == w[j + 1];
      }
    }
  }

  lemma PopOwn(q: QLock, role: seq<Role>, w: seq<Pid>, group: bool, p: Pid)
    requires OwnInv(q, role, w, group) && p < |role| && role[p] == Unlocking(Pop)
    requires q.locked && w != [] && w[0] < |role| && Waits(role[w[0]])
    requires forall i, j :: 0 <= i < j < |w| ==> w[i] != w[j]
    ensures forall q': QLock :: q'.locked ==> OwnInv(q', role[p := Unlocking(LeaveReady(w[0]))], w[1..], group)
    ensures Owner(role[p := Unlocking(LeaveReady(w[0]))], w[1..], w[0])
  {
    var h, w' := w[0], w[1..];
    var role' := role[p := Unlocking(LeaveReady(h))];
    TailOf(w);
    forall x: Pid | x != p && x != h ensures Owner(role', w', x) == Owner(role, w, x) {}
    assert Owner(role, w, p) && !Owner(role', w', p) && Owner(role', w', h);
  }

  lemma PopToken(token: seq<bool>, role: seq<Role>, w: seq<Pid>, p: Pid)
    requires |token| == |role| && p < |role| && TokenInv(token, role, w) && role[p] == Unlocking(Pop)
    requires w != [] && w[0] < |role| && Waits(role[w[0]])
    requires forall i, j :: 0 <= i < j < |w| ==> w[i] != w[j]
    ensures TokenInv(token, role[p := Unlocking(LeaveReady(w[0]))], w[1..])
  {
    var h, w' := w[0], w[1..];
    var role' := role[p := Unlocking(LeaveReady(h))];
    assert h in w && !token[h];
    TailOf(w);
    forall x, q: Pid | 0 <= x < |role|
      ensures Wakes(role'[x], q) == (Wakes(role[x], q) || (x == p && q == h)) {}
    forall x | 0 <= x < |role| && Waits(role'[x]) && x !in w' && !token[x]
      ensures exists y :: 0 <= y < |role| && Wakes(role'[y], x)
    {
      assert Waits(role[x]);
      if x == h {
        assert Wakes(role'[p], x);
      } else {
        var y :| 0 <= y < |role| && Wakes(role[y], x);
        assert Wakes(role'[y], x);
      }
    }
  }

  lemma WakeKeeps(q: QLock, qnext: seq<Option<Pid>>, token: seq<bool>, role: seq<Role>, w: seq<Pid>, group: bool,
                  p: Pid, h: Pid)
    requires QInv(q, qnext, token, role, w, group)
    requires p < |role| && role[p] == Unlocking(Wake(h)) && p !in w
    requires h < |role| && role[h] == Locking(Sleep)
    ensures QInv(q, qnext, token[h := true], role[p := Out], w, group)
  {
    var role' := role[p := Out];
    assert Wakes(role[p], h);
    assert QueueInv(q, qnext, role', w);
    forall x: Pid ensures Owner(role', w, x) == Owner(role, w, x) {}
    WakeToken(token, role, w, p, h);
  }

  lemma WakeToken(token: seq<bool>, role: seq<Role>, w: seq<Pid>, p: Pid, h: Pid)
    requires |token| == |role| && TokenInv(token, role, w)
    requires p < |role| && role[p] == Unlocking(Wake(h)) && h < |role| && role[h] == Locking(Sleep)
    ensures TokenInv(token[h := true], role[p := Out], w)
  {
    var role', token' := role[p := Out], token[h := true];
    assert Wakes(role[p], h);
    forall x, y: Pid | 0 <= x < |role|
      ensures Wakes(role'[x], y) == (Wakes(role[x], y) && x != p) {}
    forall x | 0 <= x < |role| && Waits(role'[x]) && x !in w && !token'[x]
      ensures exists y :: 0 <= y < |role| && Wakes(role'[y], x)
    {
      assert Waits(role[x]);
      var y :| 0 <= y < |role| && Wakes(role[y], x);
      assert Wakes(role'[y], x);
    }
  }

  // ------------------------------------------------------- entering and leaving the lock

  /** Steps on another queue lock touch qnext and token only of processes that are not
      inside `qlock` on this one. */
  lemma Frame(q: QLock, qnext: seq<Option<Pid>>, token: seq<bool>, role: seq<Role>, w: seq<Pid>, group: bool,
              qnext': seq<Option<Pid>>, token': seq<bool>)
    requires QInv(q, qnext, token, role, w, group)
    requires |qnext'| == |token'| == |role|
    requires forall x :: 0 <= x < |role| && role[x].Locking? ==> qnext'[x] == qnext[x] && token'[x] == token[x]
    ensures QInv(q, qnext', token', role, w, group)
  {
    forall i | 0 <= i < |w| ensures qnext'[w[i]] == qnext[w[i]] { assert Waits(role[w[i]]); }
    forall x | 0 <= x < |role| && Waits(role[x]) && x !in w && !token'[x]
      ensures exists y :: 0 <= y < |role| && Wakes(role[y], x)
    {
      assert !token[x];
    }
  }

  /** `qlock` writes `qnext` and tokens only of processes inside `qlock` on this lock. */
  lemma LockTouches(q: QLock, qnext: seq<Option<Pid>>, token: seq<bool>, role: seq<Role>, w: seq<Pid>, p: Pid,
                    st: LStep)
    requires |qnext| == |token| == |role| && QueueInv(q, qnext, role, w)
    requires p < |role| && role[p] == Locking(st)
    ensures var r := LockStep(q, qnext, token, p, st);
      && |r.qnext| == |r.token| == |role|
      && forall i :: 0 <= i < |role| && !role[i].Locking? ==> r.qnext[i] == qnext[i] && r.token[i] == token[i]
  {
    if q.tail.Some? { assert w[|w| - 1] == q.tail.value && Waits(role[q.tail.value]); }
  }

  /** `qunlock` gives a token only to a process inside `qlock` on this lock. */
  lemma UnlockTouches(q: QLock, qnext: seq<Option<Pid>>, token: seq<bool>, role: seq<Role>, w: seq<Pid>, p: Pid,
                      st: UStep)
    requires |qnext| == |token| == |role| && TokenInv(token, role, w)
    requires p < |role| && role[p] == Unlocking(st)
    ensures var r := UnlockStep(q, qnext, token, p, st);
      && |r.token| == |role|
      && forall i :: 0 <= i < |role| && !role[i].Locking? ==> r.token[i] == token[i]
  {
    if st.Wake? { assert Wakes(role[p], st.target); }
  }

  /** A lock in use, held or waited for has a process to show for it. */
  lemma Witnesses(q: QLock, qnext: seq<Option<Pid>>, token: seq<bool>, role: seq<Role>, w: seq<Pid>, group: bool)
    requires QInv(q, qnext, token, role, w, group)
    ensures q.use.Some? ==> q.use.value < |role| && Uses(role[q.use.value])
    ensures q.locked && !group ==> exists p: Pid :: p < |role| && Owns(role[p], p in w)
    ensures |w| > 0 ==> w[0] < |role| && Waits(role[w[0]])
    ensures w == [] ==> q.head == None && q.tail == None
  {
    if q.locked && !group {
      var p: Pid :| Owner(role, w, p);
      assert Owns(role[p], p in w);
    }
  }

  lemma OwnerNotQueued(q: QLock, qnext: seq<Option<Pid>>, token: seq<bool>, role: seq<Role>, w: seq<Pid>,
                       group: bool, p: Pid)
    requires QInv(q, qnext, token, role, w, group) && Owner(role, w, p)
    ensures p !in w
  {
  }

  /** A process about to be woken is at `osblock`, outside the spin lock and the queue. */
  lemma WakeTarget(q: QLock, qnext: seq<Option<Pid>>, token: seq<bool>, role: seq<Role>, w: seq<Pid>, group: bool,
                   p: Pid, h: Pid)
    requires QInv(q, qnext, token, role, w, group) && p < |role| && role[p] == Unlocking(Wake(h))
    ensures h < |role| && role[h] == Locking(Sleep) && h !in w && !token[h]
  {
    assert Wakes(role[p], h);
  }

  /** A change of role that neither takes nor gives up the lock, nor its spin lock. */
  lemma Begin(q: QLock, qnext: seq<Option<Pid>>, token: seq<bool>, role: seq<Role>, w: seq<Pid>, group: bool,
              p: Pid, r: Role)
    requires QInv(q, qnext, token, role, w, group) && p < |role|
    requires || (role[p] == Out && r == Locking(Acquire) && !token[p])
             || (role[p] == Out && r == Trying(Try))
             || (role[p] == Owning && r == Unlocking(Release))
    ensures QInv(q, qnext, token, role[p := r], w, group)
  {
    var role' := role[p := r];
    assert p !in w;
    assert QueueInv(q, qnext, role', w);
    forall x: Pid ensures Owner(role', w, x) == Owner(role, w, x) {}
    NoWaker(token, role, w, p, r);
  }

  /** The owner leaves the lock to a group, or a member takes it back to release it. */
  lemma ChangeGroup(q: QLock, qnext: seq<Option<Pid>>, token: seq<bool>, role: seq<Role>, w: seq<Pid>, group: bool,
                p: Pid, r: Role)
    requires QInv(q, qnext, token, role, w, group) && p < |role|
    requires || (role[p] == Owning && r == Out && !group)
             || (role[p] == Out && r == Unlocking(Release) && group)
    ensures QInv(q, qnext, token, role[p := r], w, !group)
  {
    var role' := role[p := r];
    assert p !in w;
    assert QueueInv(q, qnext, role', w);
    forall x: Pid | x != p ensures Owner(role', w, x) == Owner(role, w, x) {}
    assert Owner(role, w, p) == !group && Owner(role', w, p) == group;
    NoWaker(token, role, w, p, r);
  }

  lemma NoWaker(token: seq<bool>, role: seq<Role>, w: seq<Pid>, p: Pid, r: Role)
    requires |token| == |role| && p < |role| && TokenInv(token, role, w)
    requires role[p] == Out || role[p] == Owning
    requires r == Out || r == Unlocking(Release) || r == Trying(Try) || (r == Locking(Acquire) && !token[p])
    ensures TokenInv(token, role[p := r], w)
  {
    var role' := role[p := r];
    forall x, y: Pid | 0 <= x < |role| ensures Wakes(role'[x], y) == Wakes(role[x], y) {}
    forall x | 0 <= x < |role| && Waits(role'[x]) && x !in w && !token[x]
      ensures exists y :: 0 <= y < |role| && Wakes(role'[y], x)
    {
      assert Waits(role[x]);
      var y :| 0 <= y < |role| && Wakes(role[y], x);
      assert Wakes(role'[y], x);
    }
  }
}
