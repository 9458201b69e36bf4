/** Path cleaning (lib9/cleanname.c).  Its meaning is a stack of path components, and the text
    it leaves in the buffer is the canonical spelling of that stack. */
module CleanName {

  import opened Bytes

  const SLASH: Byte := 47
  const PERIOD: Byte := 46
  const HASH: Byte := 35    // #

  /** What has become of the path so far.  `atStart` says that nothing of it has been read;
      `erased` that the beginning of an unrooted path has been taken away. */
  datatype St = St(rooted: bool, atStart: bool, stack: seq<Text>, erased: bool)

  const DOT: Text := [PERIOD]
  const DOTDOT: Text := [PERIOD, PERIOD]

  // ------------------------------------------------------------------ what a path means

  /** The length of the component at the beginning of r. */
  function CompLen(r: Text): (n: nat)
    ensures n <= |r| && (n < |r| ==> r[n] == SLASH) && SLASH !in r[..n]
    ensures r != [] && r[0] != SLASH ==> n > 0
  {
    if r == [] || r[0] == SLASH then 0
    else
      var m := CompLen(r[1..]);
      assert r[..m + 1] == [r[0]] + r[1..][..m];
      m + 1
  }

  function Pop(stack: seq<Text>): seq<Text>
    requires stack != []
  {
    stack[..|stack| - 1]
  }

  function Last(stack: seq<Text>): Text
    requires stack != []
  {
    stack[|stack| - 1]
  }

  /** One component: `.` is nothing, `..` goes back one component if there is one to go back
      over, is dropped at a root, and otherwise stays; everything else is pushed. */
  function Step(st: St, c: Text): St {
    if c == DOT then st.(atStart := false, erased := st.erased || st.atStart)
    else if c == DOTDOT then
      var stack :=
        if st.stack != [] && Last(st.stack) != DOTDOT then Pop(st.stack)
        else if st.rooted then st.stack
        else st.stack + [DOTDOT];
      st.(atStart := false, stack := stack, erased := st.erased || (!st.rooted && stack == []))
    else st.(atStart := false, stack := st.stack + [c])
  }

  /** The components of r, one after the other; empty ones do not count. */
  function Fold(r: Text, st: St): St
    decreases |r|
  {
    if r == [] then st
    else if r[0] == SLASH then Fold(r[1..], st.(atStart := false))
    else Fold(r[CompLen(r)..], Step(st, r[..CompLen(r)]))
  }

  function Rooted(s: Text): bool { s != [] && s[0] == SLASH }

  function Start(s: Text): St { St(Rooted(s), !Rooted(s), [], false) }

  /** The spelling of a stack: a slash at the root, and slashes between components. */
  function Spell(rooted: bool, stack: seq<Text>): Text {
    if stack == [] then (if rooted then [SLASH] else [])
    else Spell(rooted, Pop(stack)) + (if |stack| > 1 then [SLASH] else []) + Last(stack)
  }

  /** The canonical name: never empty, and no device name unless the path began with one. */
  function Spelling(st: St): Text {
    var t := Spell(st.rooted, st.stack);
    if t == [] then DOT
    else if st.erased && t[0] == HASH then [PERIOD, SLASH] + t
    else t
  }

  function Path(s: Text): St { Fold(s[if Rooted(s) then 1 else 0..], Start(s)) }

  function Clean(s: Text): Text { Spelling(Path(s)) }

  // ------------------------------------------------------- stacks as the code keeps them

  /** A component: not empty, no slash and no NUL in it, and not `.`. */
  predicate IsComp(c: Text) {
    c != [] && SLASH !in c && 0 !in c && c != DOT
  }

  /** The first k components are `..`, the others are not; a rooted stack has no `..`. */
  ghost predicate Canonical(rooted: bool, stack: seq<Text>, k: nat) {
    && k <= |stack| && (rooted ==> k == 0)
    && (forall i :: 0 <= i < |stack| ==> IsComp(stack[i]))
    && (forall i :: 0 <= i < |stack| ==> (stack[i] == DOTDOT <==> i < k))
  }

  /** How many components `..` can not go back over, after one more component. */
  function Fixed(st: St, k: nat, c: Text): nat {
    if c == DOTDOT && !(st.stack != [] && Last(st.stack) != DOTDOT) && !st.rooted then k + 1 else k
  }

  lemma StepCanonical(st: St, c: Text, k: nat)
    requires Canonical(st.rooted, st.stack, k) && c != [] && SLASH !in c && 0 !in c
    ensures Canonical(st.rooted, Step(st, c).stack, Fixed(st, k, c))
    ensures Step(st, c).rooted == st.rooted
    ensures (st.stack != [] && Last(st.stack) != DOTDOT) <==> |st.stack| > k
  {
  }

  lemma {:induction false} FoldCanonical(r: Text, st: St, k: nat) returns (k': nat)
    requires Canonical(st.rooted, st.stack, k) && 0 !in r
    ensures Canonical(st.rooted, Fold(r, st).stack, k') && Fold(r, st).rooted == st.rooted
    decreases |r|
  {
    if r == [] {
      k' := k;
    } else if r[0] == SLASH {
      k' := FoldCanonical(r[1..], st.(atStart := false), k);
    } else {
      var c := r[..CompLen(r)];
      StepCanonical(st, c, k);
      k' := FoldCanonical(r[CompLen(r)..], Step(st, c), Fixed(st, k, c));
    }
  }

  // -------------------------------------------------------------- spelling and reading

  /** The components of the stack from i on, each after a slash. */
  function Tail(stack: seq<Text>, i: nat): Text
    requires i <= |stack|
    decreases |stack| - i
  {
    if i == |stack| then [] else [SLASH] + stack[i] + Tail(stack, i + 1)
  }

  lemma {:induction false} SpellFrom(rooted: bool, stack: seq<Text>, i: nat)
    requires 1 <= i <= |stack|
    ensures Spell(rooted, stack) == Spell(rooted, stack[..i]) + Tail(stack, i)
    decreases |stack| - i
  {
    if i == |stack| {
      assert stack[..i] == stack;
    } else {
      SpellFrom(rooted, stack, i + 1);
      SpellPush(rooted, stack[..i], stack[i]);
      assert stack[..i + 1] == stack[..i] + [stack[i]];
      Regroup(Spell(rooted, stack[..i]), [SLASH] + stack[i], Tail(stack, i + 1));
    }
  }

  lemma SpellPush(rooted: bool, stack: seq<Text>, c: Text)
    ensures Spell(rooted, stack + [c]) == Spell(rooted, stack) + ((if stack != [] then [SLASH] else []) + c)
  {
    assert Pop(stack + [c]) == stack;
    Regroup(Spell(rooted, stack), if stack != [] then [SLASH] else [], c);
  }

  /** Reading a component that is followed by a slash or by nothing. */
  lemma FoldComp(c: Text, rest: Text, st: St)
    requires c != [] && SLASH !in c && (rest == [] || rest[0] == SLASH)
    ensures Fold(c + rest, st) == Fold(rest, Step(st, c))
  {
    CompLenIs(c, rest);
    var r := c + rest;
    assert r[..|c|] == c && r[|c|..] == rest;
  }

  lemma {:induction false} CompLenIs(c: Text, rest: Text)
    requires SLASH !in c && (rest == [] || rest[0] == SLASH)
    ensures CompLen(c + rest) == |c|
    decreases |c|
  {
    var r := c + rest;
    if c == [] {
      assert r == rest;
    } else {
      assert r[0] == c[0] && r[1..] == c[1..] + rest;
      CompLenIs(c[1..], rest);
    }
  }

  lemma {:induction false} FoldTail(stack: seq<Text>, i: nat, st: St, k: nat)
    requires Canonical(st.rooted, stack, k) && i <= |stack| && st.stack == stack[..i] && !st.atStart
    ensures Fold(Tail(stack, i), st) == st.(stack := stack)
    decreases |stack| - i
  {
    if i == |stack| {
      assert stack[..i] == stack;
    } else {
      var c := stack[i];
      var t := Tail(stack, i);
      assert t[1..] == c + Tail(stack, i + 1);
      FoldComp(c, Tail(stack, i + 1), st);
      StepOn(stack, i, st, k);
      FoldTail(stack, i + 1, Step(st, c), k);
    }
  }

  lemma StepOn(stack: seq<Text>, i: nat, st: St, k: nat)
    requires Canonical(st.rooted, stack, k) && i < |stack| && st.stack == stack[..i] && !st.atStart
    ensures Step(st, stack[i]) == st.(stack := stack[..i + 1])
  {
    assert stack[..i + 1] == stack[..i] + [stack[i]];
  }

  /** Reading the components of a canonical stack, from nothing, gives the stack. */
  lemma ReadStack(stack: seq<Text>, k: nat, st: St)
    requires Canonical(st.rooted, stack, k) && stack != [] && st.stack == []
    ensures Fold(stack[0] + Tail(stack, 1), st) == st.(atStart := false, stack := stack)
  {
    var c := stack[0];
    FoldComp(c, Tail(stack, 1), st);
    assert stack[..1] == [c];
    FoldTail(stack, 1, Step(st, c), k);
  }

  lemma SpellSplit(rooted: bool, stack: seq<Text>)
    requires stack != []
    ensures Spell(rooted, stack) == (if rooted then [SLASH] else []) + (stack[0] + Tail(stack, 1))
  {
    SpellFrom(rooted, stack, 1);
    SpellPush(rooted, [], stack[0]);
    assert stack[..1] == [] + [stack[0]];
  }

  /** Reading the spelling of a canonical stack gives the stack back, and erases nothing. */
  lemma ReadBack(rooted: bool, stack: seq<Text>, k: nat)
    requires Canonical(rooted, stack, k)
    ensures Rooted(Spell(rooted, stack)) == rooted
    ensures var st := Path(Spell(rooted, stack)); st.rooted == rooted && st.stack == stack && !st.erased
  {
    var t := Spell(rooted, stack);
    if stack != [] {
      SpellSplit(rooted, stack);
      assert t[if rooted then 1 else 0..] == stack[0] + Tail(stack, 1);
      ReadStack(stack, k, Start(t));
    }
  }

  /** The same with `./` in front: the stack is the same, and the front is erased. */
  lemma ReadBackDotted(stack: seq<Text>, k: nat)
    requires Canonical(false, stack, k) && stack != []
    ensures var st := Path([PERIOD, SLASH] + Spell(false, stack)); st.rooted == false && st.stack == stack && st.erased
  {
    var t := Spell(false, stack);
    SpellSplit(false, stack);
    assert t == stack[0] + Tail(stack, 1);
    DotSlash(t);
    ReadStack(stack, k, St(false, false, [], true));
  }

  lemma DotSlash(t: Text)
    ensures Path([PERIOD, SLASH] + t) == Fold(t, St(false, false, [], true))
  {
    var u := [PERIOD, SLASH] + t;
    assert u == DOT + ([SLASH] + t) && u[0..] == u;
    FoldComp(DOT, [SLASH] + t, Start(u));
    assert ([SLASH] + t)[1..] == t;
  }

  // -------------------------------------------------------------------- the main theorems

  /** What a clean name stands for: no `.` anywhere, and `..` only at its beginning. */
  lemma PathIsCanonical(s: Text) returns (k: nat)
    requires 0 !in s
    ensures Canonical(Path(s).rooted, Path(s).stack, k) && Path(s).rooted == Rooted(s)
  {
    k := FoldCanonical(s[if Rooted(s) then 1 else 0..], Start(s), 0);
  }

  lemma {:induction false} FoldErasedUnrooted(r: Text, st: St)
    requires st.rooted ==> !st.atStart && !st.erased
    ensures Fold(r, st).rooted == st.rooted && (st.rooted ==> !Fold(r, st).erased)
    decreases |r|
  {
    if r != [] {
      if r[0] == SLASH { FoldErasedUnrooted(r[1..], st.(atStart := false)); }
      else { FoldErasedUnrooted(r[CompLen(r)..], Step(st, r[..CompLen(r)])); }
    }
  }

  /** Cleaning twice is cleaning once. */
  lemma Idempotent(s: Text)
    requires 0 !in s
    ensures Clean(Clean(s)) == Clean(s)
  {
    var k := PathIsCanonical(s);
    var st := Path(s);
    FoldErasedUnrooted(s[if Rooted(s) then 1 else 0..], Start(s));
    ReadBack(st.rooted, st.stack, k);
    if st.stack == [] {
      if !st.rooted {
        assert Fold(DOT[0..], Start(DOT)) == St(false, false, [], true) by {
          FoldComp(DOT, [], Start(DOT));
          assert DOT + [] == DOT[0..];
        }
      }
    } else {
      SpellSplit(st.rooted, st.stack);
      if Clean(s) != Spell(st.rooted, st.stack) {
        ReadBackDotted(st.stack, k);
      }
    }
  }

  /** The first component stays, or the beginning is known to be erased. */
  lemma {:induction false} FirstStays(r: Text, st: St)
    requires !st.rooted && (st.erased || st.stack != [])
    ensures var f := Fold(r, st);
      (st.erased ==> f.erased) && (f.erased || (f.stack != [] && st.stack != [] && f.stack[0] == st.stack[0]))
    decreases |r|
  {
    if r != [] {
      if r[0] == SLASH { FirstStays(r[1..], st.(atStart := false)); }
      else { FirstStays(r[CompLen(r)..], Step(st, r[..CompLen(r)])); }
    }
  }

  /** A name that is not a device name does not become one. */
  lemma NoNewDevice(s: Text)
    requires 0 !in s
    ensures Clean(s) != [] && (Clean(s)[0] == HASH ==> s != [] && s[0] == HASH)
  {
    var k := PathIsCanonical(s);
    var st := Path(s);
    FoldErasedUnrooted(s[if Rooted(s) then 1 else 0..], Start(s));
    if st.stack != [] { SpellSplit(st.rooted, st.stack); }
    if !Rooted(s) && s != [] {
      assert s[0..] == s;
      FirstStays(s[CompLen(s)..], Step(Start(s), s[..CompLen(s)]));
    }
  }

  // ----------------------------------------------------------- reading keeps ahead of writing

  /** What has been written of st fits before p, where r is still to be read: there is room
      for a slash before the next component, and for a `./` in front if the beginning has been
      erased. */
  ghost predicate Room(st: St, r: Text, p: int) {
    && (st.atStart ==> p == 0 && !st.rooted && st.stack == [] && !st.erased)
    && (st.rooted ==> !st.erased)
    && p - |Spell(st.rooted, st.stack)| >=
         (if !st.erased then 0 else if st.stack == [] then 1 else 2)
         + (if r != [] && r[0] != SLASH && (st.stack != [] || st.erased) then 1 else 0)
  }

  lemma SpellPop(rooted: bool, stack: seq<Text>)
    requires stack != []
    ensures Spell(rooted, stack) == Spell(rooted, Pop(stack)) + ((if |stack| > 1 then [SLASH] else []) + Last(stack))
  {
    Regroup(Spell(rooted, Pop(stack)), if |stack| > 1 then [SLASH] else [], Last(stack));
  }

  lemma RoomStep(st: St, c: Text, rest: Text, p: int)
    requires Room(st, c + rest, p) && p >= 0 && c != [] && c[0] != SLASH && (rest == [] || rest[0] == SLASH)
    requires forall i :: 0 <= i < |st.stack| ==> st.stack[i] != []
    ensures Room(Step(st, c), rest, p + |c|)
  {
    assert (c + rest)[0] == c[0];
    var st' := Step(st, c);
    if c == DOT {
    } else if c == DOTDOT && st.stack != [] && Last(st.stack) != DOTDOT {
      SpellPop(st.rooted, st.stack);
    } else {
      SpellPush(st.rooted, st.stack, c);
    }
  }

  lemma RoomSkip(st: St, r: Text, p: int)
    requires Room(st, r, p) && r != [] && r[0] == SLASH
    ensures Room(st.(atStart := false), r[1..], p + 1)
  {
  }

  lemma {:induction false} FoldFits(r: Text, st: St, p: int, k: nat)
    requires Room(st, r, p) && p >= 0 && Canonical(st.rooted, st.stack, k) && 0 !in r
    ensures Room(Fold(r, st), [], p + |r|)
    decreases |r|
  {
    if r == [] {
    } else if r[0] == SLASH {
      RoomSkip(st, r, p);
      FoldFits(r[1..], st.(atStart := false), p + 1, k);
    } else {
      var c, rest := r[..CompLen(r)], r[CompLen(r)..];
      assert r == c + rest;
      RoomStep(st, c, rest, p);
      StepCanonical(st, c, k);
      FoldFits(rest, Step(st, c), p + |c|, Fixed(st, k, c));
    }
  }

  /** A clean name is no longer than the name, except that the empty name becomes `.`. */
  lemma NoLonger(s: Text)
    requires 0 !in s
    ensures |Clean(s)| <= if s == [] then 1 else |s|
  {
    FoldFits(s[if Rooted(s) then 1 else 0..], Start(s), if Rooted(s) then 1 else 0, 0);
  }

  // ----------------------------------------------------------------------- the code itself

  /** The C string at the beginning of a buffer. */
  function CString(s: Text): (r: Text)
    ensures 0 !in r && |r| <= |s| && r == s[..|r|] && (|r| < |s| ==> s[|r|] == 0)
  {
    if s == [] || s[0] == 0 then [] else [s[0]] + CString(s[1..])
  }

  lemma {:induction false} CStringIs(s: Text, n: nat)
    requires n < |s| && s[n] == 0 && 0 !in s[..n]
    ensures CString(s) == s[..n]
    decreases n
  {
    if n > 0 {
      assert s[0] == s[..n][0] && s[1..][..n - 1] == s[..n][1..];
      CStringIs(s[1..], n - 1);
    }
  }

  predicate IsSep(x: Byte) { x == SLASH || x == 0 }

  /** The last slash of a spelling stands before the last component. */
  lemma LastSlash(rooted: bool, stack: seq<Text>, k: nat)
    requires Canonical(rooted, stack, k) && |stack| > k
    ensures var t, back := Spell(rooted, stack), Spell(rooted, Pop(stack));
      && |back| < |t| && t[..|back|] == back && (|stack| > 1 ==> |back| + 1 < |t| && t[|back|] == SLASH)
      && forall x :: |back| + (if |stack| > 1 then 1 else 0) <= x < |t| ==> t[x] != SLASH
  {
    var back, last := Spell(rooted, Pop(stack)), Last(stack);
    SpellPop(rooted, stack);
    var t, sep := Spell(rooted, stack), if |stack| > 1 then [SLASH] else [];
    forall x | |back| + |sep| <= x < |t| ensures t[x] != SLASH {
      assert t[x] == last[x - |back| - |sep|];
    }
  }

  /** Looks for the slash before the last component written, but not before dotdot: the place
      where the component before it ends. */
  method Backtrack(name: array<Byte>, q0: nat, dotdot: nat, ghost rooted: bool, ghost stack: seq<Text>, ghost k: nat)
    returns (q: nat)
    requires Canonical(rooted, stack, k) && |stack| > k
    requires q0 <= name.Length && name[..q0] == Spell(rooted, stack) && dotdot == |Spell(rooted, stack[..k])|
    ensures q == |Spell(rooted, Pop(stack))| < q0 && name[..q] == Spell(rooted, Pop(stack))
  {
    ghost var t, back := name[..q0], Spell(rooted, Pop(stack));
    LastSlash(rooted, stack, k);
    FixedIsShort(rooted, Pop(stack), k);
    assert Pop(stack)[..k] == stack[..k];
    q := q0 - 1;
    while q > dotdot && name[q] != SLASH
      invariant |back| <= q < q0 && dotdot <= |back|
    {
      assert t[q] == name[q];
      q := q - 1;
    }
    assert t[q] == name[q];
    assert name[..q] == t[..q];
  }

  lemma {:induction false} FixedIsShort(rooted: bool, stack: seq<Text>, k: nat)
    requires k <= |stack| && forall i :: 0 <= i < |stack| ==> stack[i] != []
    ensures |Spell(rooted, stack[..k])| <= |Spell(rooted, stack)|
    ensures |Spell(rooted, stack[..k])| == |Spell(rooted, stack)| ==> k == |stack|
    decreases |stack|
  {
    if k == |stack| {
      assert stack[..k] == stack;
    } else {
      FixedIsShort(rooted, Pop(stack), k);
      assert Pop(stack)[..k] == stack[..k];
      SpellPop(rooted, stack);
    }
  }

  /** The first q characters spell the stack, and dotdot is where `..` can not go back any
      further. */
  ghost predicate Written(buf: Text, st: St, k: nat, q: int, dotdot: int) {
    Canonical(st.rooted, st.stack, k) && 0 <= q <= |buf| && buf[..q] == Spell(st.rooted, st.stack)
    && dotdot == |Spell(st.rooted, st.stack[..k])|
  }

  /** The name s is still there from p on. */
  ghost predicate Unread(buf: Text, s: Text, p: int) {
    0 <= p <= |s| < |buf| && 0 !in s && buf[p..|s|] == s[p..] && buf[|s|] == 0
  }

  /** What has been read of s, up to p, has led to st. */
  ghost predicate Ahead(s: Text, st: St, p: int, erased: bool) {
    && 0 <= p <= |s| && st.rooted == Rooted(s) && Room(st, s[p..], p) && (st.atStart <==> p == 0) && erased == st.erased
    && Fold(s[p..], st) == Path(s)
  }

  /** Nothing has changed from p on. */
  ghost predicate Same(buf: Text, buf': Text, p: int) {
    |buf'| == |buf| && forall x :: p <= x < |buf| && 0 <= x ==> buf'[x] == buf[x]
  }

  lemma SameSlice(buf: Text, buf': Text, p: nat, a: nat, b: nat)
    requires Same(buf, buf', p) && p <= a <= b <= |buf|
    ensures buf'[a..b] == buf[a..b]
  {
  }

  lemma AheadSkip(s: Text, st: St, p: int, erased: bool)
    requires Ahead(s, st, p, erased) && p < |s| && s[p] == SLASH
    ensures Ahead(s, st.(atStart := false), p + 1, erased)
  {
    assert s[p..][1..] == s[p + 1..];
    RoomSkip(st, s[p..], p);
  }

  lemma AheadComp(s: Text, st: St, k: nat, p: int, erased: bool, c: Text)
    requires Ahead(s, st, p, erased) && Canonical(st.rooted, st.stack, k) && p < |s| && s[p] != SLASH
    requires c == s[p..][..CompLen(s[p..])] && s[p..] == c + s[p + |c|..] && p + |c| <= |s|
    requires p + |c| < |s| ==> s[p + |c|] == SLASH
    ensures Ahead(s, Step(st, c), p + |c|, Step(st, c).erased)
  {
    assert s[p..][|c|..] == s[p + |c|..];
    RoomStep(st, c, s[p + |c|..], p);
  }

  /** The component at p, as the code sees it. */
  lemma CompAt(buf: Text, s: Text, p: int)
    requires Unread(buf, s, p) && p < |s| && s[p] != SLASH
    ensures var c := s[p..][..CompLen(s[p..])];
      && c == s[p..p + |c|] && c != [] && SLASH !in c && 0 !in c && p + |c| <= |s|
      && s[p..] == c + s[p + |c|..] && (p + |c| < |s| ==> s[p + |c|] == SLASH)
      && (forall x :: p <= x < p + |c| ==> buf[x] == s[x] && !IsSep(buf[x])) && IsSep(buf[p + |c|])
      && (c == DOT <==> buf[p] == PERIOD && IsSep(buf[p + 1]))
      && (c == DOTDOT <==> buf[p] == PERIOD && buf[p + 1] == PERIOD && p + 2 <= |s| && IsSep(buf[p + 2]))
  {
    var c := s[p..][..CompLen(s[p..])];
    assert c == s[p..p + |c|];
    forall x | p <= x < |s| ensures buf[x] == s[x] { assert buf[p..|s|][x - p] == s[p..][x - p]; }
    forall x | p <= x < p + |c| ensures !IsSep(buf[x]) { assert s[x] == c[x - p] && c[x - p] in c; assert s[x] in s; }
    assert p + |c| < |s| ==> s[p..][|c|] == s[p + |c|];
    assert s[p..][|c|..] == s[p + |c|..];
  }

  /** Copies the component at p0 down to q0, and what ends it with it: p and q are left on the
      slash or the NUL and on its copy. */
  method CopyDown(name: array<Byte>, p0: nat, q0: nat, ghost m: nat) returns (p: nat, q: nat)
    requires q0 <= p0 < p0 + m < name.Length
    requires (forall x :: p0 <= x < p0 + m ==> !IsSep(name[x])) && IsSep(name[p0 + m])
    modifies name
    ensures p == p0 + m && q == q0 + m
    ensures name[..q] == old(name[..q0]) + old(name[p0..p]) && Same(old(name[..]), name[..], p)
  {
    ghost var was := name[..];
    p, q := p0, q0;
    name[q] := name[p];
    while name[q] != SLASH && name[q] != 0
      invariant p0 <= p <= p0 + m && q == q0 + p - p0
      invariant name[q] == was[p] && forall x :: p < x < name.Length ==> name[x] == was[x]
      invariant q < p ==> name[p] == was[p]
      invariant name[..q] == was[..q0] + was[p0..p]
      decreases p0 + m - p
    {
      ghost var done := name[..q + 1];
      assert done == was[..q0] + was[p0..p + 1];
      p, q := p + 1, q + 1;
      name[q] := name[p];
      assert name[..q] == done;
    }
  }

  /** The slash before an element, where one is needed. */
  method Slash(name: array<Byte>, q0: nat, needed: bool) returns (q: nat)
    requires needed ==> q0 < name.Length
    requires q0 <= name.Length
    modifies name
    ensures q == q0 + (if needed then 1 else 0) && name[..q] == old(name[..q0]) + (if needed then [SLASH] else [])
    ensures Same(old(name[..]), name[..], q)
  {
    q := q0;
    if needed {
      name[q] := SLASH;
      q := q + 1;
    }
  }

  /** A real path element: copied down behind what has been written. */
  method CopyElement(name: array<Byte>, p0: nat, q0: nat, rooted: nat, ghost m: nat) returns (p: nat, q: nat)
    requires rooted <= q0 <= p0 < p0 + m < name.Length && (q0 == rooted || q0 < p0)
    requires (forall x :: p0 <= x < p0 + m ==> !IsSep(name[x])) && IsSep(name[p0 + m])
    modifies name
    ensures p == p0 + m && q <= p
    ensures name[..q] == old(name[..q0]) + ((if q0 == rooted then [] else [SLASH]) + old(name[p0..p0 + m]))
    ensures Same(old(name[..]), name[..], p)
  {
    ghost var was := name[..];
    q := Slash(name, q0, q0 != rooted);
    SameSlice(was, name[..], q, p0, p0 + m);
    ghost var comp := name[p0..p0 + m];
    p, q := CopyDown(name, p0, q, m);
    Regroup(old(name[..q0]), if q0 == rooted then [] else [SLASH], comp);
  }

  /** A `..` that stays is written out. */
  method WriteDotDot(name: array<Byte>, p: nat, q0: nat, ghost stack: seq<Text>) returns (q: nat)
    requires q0 + 2 <= p < name.Length && (q0 > 0 ==> q0 + 3 <= p) && (q0 == 0 <==> stack == [])
    requires name[..q0] == Spell(false, stack)
    modifies name
    ensures q <= p && 0 < q && name[..q] == Spell(false, stack + [DOTDOT]) && Same(old(name[..]), name[..], p)
  {
    SpellPush(false, stack, DOTDOT);
    q := Slash(name, q0, q0 > 0);
    ghost var front := name[..q];
    name[q] := PERIOD;
    name[q + 1] := PERIOD;
    q := q + 2;
    assert name[..q] == front + DOTDOT;
    Regroup(Spell(false, stack), if stack != [] then [SLASH] else [], DOTDOT);
  }

  /** A `..` that takes the component before it away. */
  method BackDotDot(name: array<Byte>, q0: nat, dotdot: nat, ghost rooted: bool, ghost stack: seq<Text>, ghost k: nat)
    returns (q: nat)
    requires Canonical(rooted, stack, k) && |stack| > k
    requires q0 <= name.Length && name[..q0] == Spell(rooted, stack) && dotdot == |Spell(rooted, stack[..k])|
    ensures q < q0 && name[..q] == Spell(rooted, Pop(stack)) && (q == 0 <==> !rooted && Pop(stack) == [])
    ensures dotdot == |Spell(rooted, Pop(stack)[..k])|
  {
    q := Backtrack(name, q0, dotdot, rooted, stack, k);
    assert Pop(stack)[..k] == stack[..k];
    EmptySpelling(rooted, Pop(stack));
  }

  /** There is a component that `..` takes away exactly if the spelling goes on behind the fixed
      ones. */
  lemma AboveFixed(rooted: bool, stack: seq<Text>, k: nat)
    requires Canonical(rooted, stack, k)
    ensures |Spell(rooted, stack)| > |Spell(rooted, stack[..k])| <==> |stack| > k
    ensures |stack| == k ==> stack[..k] == stack
  {
    FixedIsShort(rooted, stack, k);
    if |stack| == k { assert stack[..k] == stack; }
  }

  lemma DotDotStep(rooted: bool, stack: seq<Text>, k: nat)
    requires Canonical(rooted, stack, k)
    ensures Step(St(rooted, false, stack, false), DOTDOT).stack ==
      if |stack| > k then Pop(stack) else if rooted then stack else stack + [DOTDOT]
    ensures Fixed(St(rooted, false, stack, false), k, DOTDOT) == if |stack| == k && !rooted then k + 1 else k
  {
    assert stack != [] ==> (Last(stack) != DOTDOT <==> |stack| > k);
  }

  /** `..`: backtrack, or write it out if there is nothing to go back over, or drop it. */
  method DotDotElement(name: array<Byte>, p: nat, q0: nat, dotdot0: nat, rooted: bool, ghost stack: seq<Text>,
                       ghost k: nat)
    returns (q: nat, dotdot: nat)
    requires Canonical(rooted, stack, k) && q0 <= p < name.Length && (q0 > 0 && !rooted ==> q0 + 3 <= p) && p >= 2
    requires name[..q0] == Spell(rooted, stack) && dotdot0 == |Spell(rooted, stack[..k])|
    modifies name
    ensures var stack' := Step(St(rooted, false, stack, false), DOTDOT).stack;
      var k' := Fixed(St(rooted, false, stack, false), k, DOTDOT);
      && q <= p && name[..q] == Spell(rooted, stack') && k' <= |stack'| && dotdot == |Spell(rooted, stack'[..k'])|
      && (q == 0 <==> !rooted && stack' == [])
    ensures Same(old(name[..]), name[..], p)
  {
    q, dotdot := q0, dotdot0;
    AboveFixed(rooted, stack, k);
    DotDotStep(rooted, stack, k);
    EmptySpelling(rooted, stack);
    if q > dotdot {
      q := BackDotDot(name, q0, dotdot, rooted, stack, k);
    } else if !rooted {
      q := WriteDotDot(name, p, q, stack);
      dotdot := q;
      assert (stack + [DOTDOT])[..|stack| + 1] == stack + [DOTDOT];
    }
  }

  /** The rest of the name is still there after what lies before it has changed. */
  lemma RestStays(buf: Text, buf': Text, s: Text, p0: int, p: int)
    requires Unread(buf, s, p0) && p0 <= p <= |s| && Same(buf, buf', p)
    ensures Unread(buf', s, p)
  {
    forall x | p <= x < |s| ensures buf'[x] == s[x] {
      assert buf[x] == buf[p0..|s|][x - p0] == s[p0..][x - p0];
    }
  }

  /** `..` in a name. */
  method DealDotDot(name: array<Byte>, p: nat, q0: nat, dotdot0: nat, rooted: bool, erased0: bool,
                    ghost st: St, ghost k: nat)
    returns (q: nat, dotdot: nat, erased: bool)
    requires Written(name[..], st, k, q0, dotdot0) && rooted == st.rooted
    requires q0 <= p < name.Length && (q0 > 0 && !rooted ==> q0 + 3 <= p) && p >= 2
    modifies name
    ensures Written(name[..], Step(st, DOTDOT), Fixed(st, k, DOTDOT), q, dotdot) && Same(old(name[..]), name[..], p)
    ensures erased == (erased0 || Step(st.(erased := false, atStart := false), DOTDOT).erased)
  {
    erased := erased0;
    StepCanonical(st, DOTDOT, k);
    assert name[..][..q0] == name[..q0];
    q, dotdot := DotDotElement(name, p, q0, dotdot0, rooted, st.stack, k);
    if q == 0 {
      erased := true;
    }
    assert name[..][..q] == name[..q];
  }

  /** A real element in a name. */
  method DealReal(name: array<Byte>, p0: nat, q0: nat, ghost dotdot: nat, rooted: bool,
                  ghost st: St, ghost k: nat, ghost c: Text)
    returns (p: nat, q: nat)
    requires Written(name[..], st, k, q0, dotdot) && rooted == st.rooted
    requires c != [] && p0 + |c| < name.Length && name[p0..p0 + |c|] == c && c != DOT && c != DOTDOT
    requires SLASH !in c && 0 !in c && (forall x :: p0 <= x < p0 + |c| ==> !IsSep(name[x])) && IsSep(name[p0 + |c|])
    requires q0 <= p0 && (st.stack != [] ==> q0 < p0)
    modifies name
    ensures p == p0 + |c| && Written(name[..], Step(st, c), Fixed(st, k, c), q, dotdot)
      && Same(old(name[..]), name[..], p)
  {
    StepCanonical(st, c, k);
    SpellPush(rooted, st.stack, c);
    EmptySpelling(rooted, st.stack);
    assert name[..][..q0] == name[..q0] && (st.stack + [c])[..k] == st.stack[..k];
    p, q := CopyElement(name, p0, q0, if rooted then 1 else 0, |c|);
    assert name[..][..q] == name[..q];
  }

  /** What the loop of cleanname keeps. */
  ghost predicate Inv(buf: Text, s: Text, st: St, k: nat, p: int, q: int, dotdot: int, rooted: bool, erased: bool) {
    Written(buf, st, k, q, dotdot) && Unread(buf, s, p) && Ahead(s, st, p, erased) && rooted == st.rooted
  }

  /** The component c is at p. */
  ghost predicate Facing(buf: Text, n: nat, p: int, c: Text) {
    && c != [] && SLASH !in c && 0 !in c && 0 <= p && p + |c| <= n < |buf| && buf[p..p + |c|] == c
    && (forall x :: p <= x < p + |c| ==> !IsSep(buf[x])) && IsSep(buf[p + |c|])
    && (c == DOT <==> buf[p] == PERIOD && IsSep(buf[p + 1]))
    && (c == DOTDOT <==> buf[p] == PERIOD && buf[p + 1] == PERIOD && p + 2 <= n && IsSep(buf[p + 2]))
  }

  /** Writing is behind p. */
  ghost predicate Behind(st: St, p: int, q: int) {
    q <= p && (st.stack != [] ==> q < p) && (st.atStart <==> p == 0) && (!st.rooted && q > 0 ==> q < p)
  }

  lemma Face(buf: Text, s: Text, p: nat) returns (c: Text)
    requires Unread(buf, s, p) && p < |s| && s[p] != SLASH
    ensures Facing(buf, |s|, p, c) && c == s[p..][..CompLen(s[p..])]
    ensures s[p..] == c + s[p + |c|..] && (p + |c| < |s| ==> s[p + |c|] == SLASH)
  {
    CompAt(buf, s, p);
    c := s[p..][..CompLen(s[p..])];
    assert buf[p..p + |c|] == s[p..p + |c|];
  }

  lemma StaysBehind(s: Text, st: St, p: int, q: int, erased: bool)
    requires Ahead(s, st, p, erased) && p < |s| && s[p] != SLASH && q == |Spell(st.rooted, st.stack)|
    requires forall i :: 0 <= i < |st.stack| ==> st.stack[i] != []
    ensures Behind(st, p, q)
  {
    EmptySpelling(st.rooted, st.stack);
    assert s[p..][0] == s[p];
  }

  lemma Prepare(buf: Text, s: Text, st: St, k: nat, p: nat, q: int, dotdot: int, rooted: bool, erased: bool)
    returns (c: Text)
    requires Inv(buf, s, st, k, p, q, dotdot, rooted, erased) && p < |s| && s[p] != SLASH
    ensures Facing(buf, |s|, p, c) && Behind(st, p, q) && Ahead(s, Step(st, c), p + |c|, Step(st, c).erased)
  {
    c := Face(buf, s, p);
    AheadComp(s, st, k, p, erased, c);
    StaysBehind(s, st, p, q, erased);
  }

  /** Put together: what was written, what is left, and what was read. */
  lemma Meet(buf: Text, buf': Text, s: Text, st: St, k: nat, p0: int, p: int, q: int, dotdot: int, rooted: bool,
             erased: bool)
    requires Written(buf', st, k, q, dotdot) && Unread(buf, s, p0) && Ahead(s, st, p, st.erased)
    requires p0 <= p && Same(buf, buf', p) && rooted == st.rooted && erased == st.erased
    ensures Inv(buf', s, st, k, p, q, dotdot, rooted, erased)
  {
    RestStays(buf, buf', s, p0, p);
  }

  lemma SkipSlash(buf: Text, s: Text, st: St, k: nat, p: int, q: int, dotdot: int, rooted: bool, erased: bool)
    requires Inv(buf, s, st, k, p, q, dotdot, rooted, erased) && p < |s| && s[p] == SLASH
    ensures Inv(buf, s, st.(atStart := false), k, p + 1, q, dotdot, rooted, erased)
  {
    AheadSkip(s, st, p, erased);
    RestStays(buf, buf, s, p, p + 1);
  }

  /** One turn of the loop. */
  method Turn(name: array<Byte>, p0: nat, q0: nat, dotdot0: nat, rooted: bool, erased0: bool,
              ghost s: Text, ghost st: St, ghost k: nat)
    returns (p: nat, q: nat, dotdot: nat, erased: bool, ghost st': St, ghost k': nat)
    requires Inv(name[..], s, st, k, p0, q0, dotdot0, rooted, erased0) && p0 < |s|
    modifies name
    ensures Inv(name[..], s, st', k', p, q, dotdot, rooted, erased) && p0 < p
  {
    AtEnd(name[..], s, p0);
    p, q, dotdot, erased := p0, q0, dotdot0, erased0;
    if name[p] == SLASH {
      SkipSlash(name[..], s, st, k, p, q, dotdot, rooted, erased);
      st', k' := st.(atStart := false), k;
      p := p + 1;
    } else {
      p, q, dotdot, erased, st', k' := OneElement(name, p, q, dotdot, rooted, erased, s, st, k);
    }
  }

  /** The part of the loop body that deals with a component. */
  method OneElement(name: array<Byte>, p0: nat, q0: nat, dotdot0: nat, rooted: bool, erased0: bool,
                    ghost s: Text, ghost st: St, ghost k: nat)
    returns (p: nat, q: nat, dotdot: nat, erased: bool, ghost st': St, ghost k': nat)
    requires Inv(name[..], s, st, k, p0, q0, dotdot0, rooted, erased0) && p0 < |s| && s[p0] != SLASH
    modifies name
    ensures Inv(name[..], s, st', k', p, q, dotdot, rooted, erased) && p0 < p
  {
    ghost var buf := name[..];
    ghost var c := Prepare(buf, s, st, k, p0, q0, dotdot0, rooted, erased0);
    st', k' := Step(st, c), Fixed(st, k, c);
    p, q, dotdot, erased := Deal(name, p0, q0, dotdot0, rooted, erased0, |s|, st, k, c);
    Meet(buf, name[..], s, st', k', p0, p, q, dotdot, rooted, erased);
  }

  lemma DotIsNothing(buf: Text, st: St, k: nat, q: int, dotdot: int)
    requires Written(buf, st, k, q, dotdot)
    ensures Written(buf, Step(st, DOT), Fixed(st, k, DOT), q, dotdot)
  {
  }

  /** The three kinds of component. */
  method Deal(name: array<Byte>, p0: nat, q0: nat, dotdot0: nat, rooted: bool, erased0: bool,
              ghost n: nat, ghost st: St, ghost k: nat, ghost c: Text)
    returns (p: nat, q: nat, dotdot: nat, erased: bool)
    requires Written(name[..], st, k, q0, dotdot0) && Facing(name[..], n, p0, c) && Behind(st, p0, q0)
    requires rooted == st.rooted && erased0 == st.erased
    modifies name
    ensures Written(name[..], Step(st, c), Fixed(st, k, c), q, dotdot) && erased == Step(st, c).erased
    ensures p == p0 + |c| && Same(old(name[..]), name[..], p)
  {
    p, q, dotdot, erased := p0, q0, dotdot0, erased0;
    if name[p] == PERIOD && IsSep(name[p + 1]) {
      if p == 0 {
        erased := true;
      }
      p := p + 1;
      DotIsNothing(name[..], st, k, q, dotdot);
      assert c == DOT;
    } else if name[p] == PERIOD && name[p + 1] == PERIOD && IsSep(name[p + 2]) {
      assert c == DOTDOT;
      p := p + 2;
      q, dotdot, erased := DealDotDot(name, p, q, dotdot, rooted, erased, st, k);
    } else {
      p, q := DealReal(name, p, q, dotdot, rooted, st, k, c);
    }
  }

  lemma EmptySpelling(rooted: bool, stack: seq<Text>)
    requires forall i :: 0 <= i < |stack| ==> stack[i] != []
    ensures |Spell(rooted, stack)| == (if rooted then 1 else 0) <==> stack == []
    ensures |Spell(rooted, stack)| >= if rooted then 1 else 0
  {
    FixedIsShort(rooted, stack, 0);
  }

  /** cleanname: rewrite the name in place.  A name needs room for itself and its NUL; the
      empty name needs one more byte, for the `.` it becomes. */
  method CleanNameInPlace(name: array<Byte>)
    requires 0 in name[..] && name.Length >= 2
    modifies name
    ensures 0 in name[..] && CString(name[..]) == Clean(old(CString(name[..])))
  {
    ghost var s := CString(name[..]);
    HasNul(name[..]);
    var rooted := name[0] == SLASH;
    var erased := false;
    var p: nat, q: nat, dotdot: nat := 0, 0, 0;
    if rooted {
      p, q, dotdot := 1, 1, 1;
    }
    ghost var st: St, k: nat := Start(s), 0;
    assert st.stack[..k] == st.stack;
    while name[p] != 0
      invariant Inv(name[..], s, st, k, p, q, dotdot, rooted, erased)
      decreases |s| - p
    {
      AtEnd(name[..], s, p);
      p, q, dotdot, erased, st, k := Turn(name, p, q, dotdot, rooted, erased, s, st, k);
    }
    AtEnd(name[..], s, p);
    assert name[..][..q] == name[..q];
    Finish(name, q, rooted, erased, s, st, k);
  }

  lemma HasNul(buf: Text)
    requires 0 in buf
    ensures |CString(buf)| < |buf| && buf[|CString(buf)|] == 0
  {
    var s := CString(buf);
    assert |s| == |buf| ==> s == buf;
  }

  /** The loop ends where the name does. */
  lemma AtEnd(buf: Text, s: Text, p: int)
    requires Unread(buf, s, p)
    ensures buf[p] == 0 <==> p == |s|
    ensures p < |s| ==> buf[p] == s[p]
  {
    if p < |s| { assert buf[p] == buf[p..|s|][0] == s[p..][0] == s[p]; assert s[p] in s; }
  }

  /** The end of cleanname: the empty name, the NUL, and the device name. */
  method Finish(name: array<Byte>, q0: nat, rooted: bool, erased: bool, ghost s: Text, ghost st: St, ghost k: nat)
    requires Canonical(st.rooted, st.stack, k) && st == Path(s) && rooted == st.rooted && erased == st.erased
    requires |s| < name.Length && 2 <= name.Length && q0 <= |s| && name[..q0] == Spell(rooted, st.stack)
      && Room(st, [], |s|)
    modifies name
    ensures 0 in name[..] && CString(name[..]) == Clean(s)
  {
    ghost var t := Spell(rooted, st.stack);
    EmptySpelling(rooted, st.stack);
    SpellNoNul(rooted, st.stack);
    var q := q0;
    if q == 0 {
      name[q] := PERIOD;
      q := q + 1;
      assert name[..q] == DOT;
    }
    name[q] := 0;
    ghost var u := if t == [] then DOT else t;
    assert name[..q] == u && name[..][..q] == u;
    if erased && name[0] == HASH {
      assert u[0] == name[0];
      forall x | 0 <= x < q + 1 {
        name[2 + x] := name[x];
      }
      name[0] := PERIOD;
      name[1] := SLASH;
      assert name[..][..q + 2] == [PERIOD, SLASH] + u;
      CStringIs(name[..], q + 2);
    } else {
      assert u != [] && u[0] == name[0];
      CStringIs(name[..], q);
    }
  }

  lemma {:induction false} SpellNoNul(rooted: bool, stack: seq<Text>)
    requires forall i :: 0 <= i < |stack| ==> IsComp(stack[i])
    ensures 0 !in Spell(rooted, stack)
    decreases |stack|
  {
    if stack != [] { SpellNoNul(rooted, Pop(stack)); }
  }
}
