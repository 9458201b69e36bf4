/** What a clean name looks like as a text (lib9/cleanname.c): which pieces of the name are kept,
    and how they are written. */
module CleanText {
  import opened Bytes
  import opened CleanName

  /** The text cut at its slashes. */
  function Pieces(t: Text): (ps: seq<Text>)
    ensures ps != []
  {
    if t == [] then [[]]
    else
      var ps := Pieces(t[1..]);
      if t[0] == SLASH then [[]] + ps else [[t[0]] + ps[0]] + ps[1..]
  }

  /** Which of the first k pieces are kept, by their places: an empty piece and `.` are not, `..`
      takes back the piece kept last unless that is a `..` itself, and at a root then nothing. */
  function Kept(ps: seq<Text>, k: nat, rooted: bool): (ks: seq<nat>)
    requires k <= |ps|
    ensures forall i :: 0 <= i < |ks| ==> ks[i] < k
  {
    if k == 0 then []
    else
      var ks, c := Kept(ps, k - 1, rooted), ps[k - 1];
      if c == [] || c == DOT then ks
      else if c != DOTDOT then ks + [k - 1]
      else if ks != [] && ps[ks[|ks| - 1]] != DOTDOT then ks[..|ks| - 1]
      else if rooted then ks
      else ks + [k - 1]
  }

  function Pick(ps: seq<Text>, ks: seq<nat>): (cs: seq<Text>)
    requires forall i :: 0 <= i < |ks| ==> ks[i] < |ps|
    ensures |cs| == |ks|
  {
    seq(|ks|, i requires 0 <= i < |ks| => ps[ks[i]])
  }

  // ------------------------------------------------------------- the code keeps these pieces

  lemma {:induction false} FirstPiece(r: Text)
    ensures var ps, n := Pieces(r), CompLen(r);
      ps[0] == r[..n] && SLASH !in ps[0] && if n < |r| then ps[1..] == Pieces(r[n + 1..]) else |ps| == 1
    decreases |r|
  {
    if r != [] && r[0] != SLASH {
      FirstPiece(r[1..]);
      var n := CompLen(r[1..]);
      assert r[..n + 1] == [r[0]] + r[1..][..n];
      assert n < |r[1..]| ==> r[1..][n + 1..] == r[n + 2..];
    }
  }

  /** The state of the fold after the first k pieces. */
  ghost predicate After(ps: seq<Text>, k: nat, st: St)
    requires k <= |ps|
  {
    var ks := Kept(ps, k, st.rooted);
    && st.stack == Pick(ps, ks) && (st.atStart <==> !st.rooted && k == 0)
    && (st.erased <==> !st.rooted && k > 0 && (ks == [] || ks[0] != 0))
  }

  lemma OnePiece(ps: seq<Text>, k: nat, st: St)
    requires k < |ps| && After(ps, k, st) && (ps[k] == [] && k == 0 ==> st.rooted)
    ensures After(ps, k + 1, if ps[k] == [] then st.(atStart := false) else Step(st, ps[k]))
  {
    var ks, ks' := Kept(ps, k, st.rooted), Kept(ps, k + 1, st.rooted);
    if ks != [] { assert Last(st.stack) == ps[ks[|ks| - 1]]; }
    assert Pick(ps, ks + [k]) == Pick(ps, ks) + [ps[k]];
    if ks != [] { assert Pick(ps, ks[..|ks| - 1]) == Pop(Pick(ps, ks)); }
  }

  lemma {:induction false} FoldKeeps(r: Text, st: St, ps: seq<Text>, k: nat)
    requires k < |ps| && Pieces(r) == ps[k..] && After(ps, k, st) && (k == 0 && !st.rooted ==> r == [] || r[0] != SLASH)
    requires k == 0 && !st.rooted ==> r != []
    ensures After(ps, |ps|, Fold(r, st).(atStart := false))
    decreases |ps| - k
  {
    FirstPiece(r);
    var n := CompLen(r);
    OnePiece(ps, k, st);
    var st' := if n == 0 then st.(atStart := false) else Step(st, r[..n]);
    if n < |r| {
      if n > 0 { assert r[n..][1..] == r[n + 1..]; }
      FoldKeeps(r[n + 1..], st', ps, k + 1);
    }
  }

  // ---------------------------------------------------------------- cut and joined again

  lemma {:induction false} PiecesOf(t: Text)
    requires SLASH !in t
    ensures Pieces(t) == [t]
  {
    if t != [] {
      PiecesOf(t[1..]);
      assert [t[0]] + t[1..] == t;
    }
  }

  lemma {:induction false} PiecesMore(t: Text, c: Text)
    requires SLASH !in c
    ensures Pieces(t + ([SLASH] + c)) == Pieces(t) + [c]
    decreases |t|
  {
    var u := t + ([SLASH] + c);
    if t == [] {
      assert u[1..] == c && u[0] == SLASH;
      PiecesOf(c);
    } else {
      assert u[0] == t[0] && u[1..] == t[1..] + ([SLASH] + c);
      PiecesMore(t[1..], c);
    }
  }

  lemma {:induction false} PiecesOfSpelling(stack: seq<Text>, k: nat)
    requires Canonical(false, stack, k) && stack != []
    ensures Pieces(Spell(false, stack)) == stack
    decreases |stack|
  {
    SpellPop(false, stack);
    assert stack == Pop(stack) + [Last(stack)];
    if |stack| == 1 {
      assert Spell(false, stack) == Last(stack);
      PiecesOf(Last(stack));
    } else {
      PiecesOfSpelling(Pop(stack), if k < |stack| then k else k - 1);
      PiecesMore(Spell(false, Pop(stack)), Last(stack));
    }
  }

  lemma Unrooted(stack: seq<Text>, k: nat)
    requires Canonical(true, stack, k)
    ensures Canonical(false, stack, k) && Spell(true, stack) == [SLASH] + Spell(false, stack)
  {
    if stack != [] {
      SpellSplit(true, stack);
      SpellSplit(false, stack);
    }
  }

  lemma PiecesDotted(t: Text)
    ensures Pieces([PERIOD, SLASH] + t) == [DOT] + Pieces(t)
  {
    var u := [PERIOD, SLASH] + t;
    assert u[1..][1..] == t && u[1..][0] == SLASH;
    assert ([[]] + Pieces(t))[1..] == Pieces(t) && Pieces(u)[0] == DOT;
  }

  // ---------------------------------------------------------------------- the clean text

  /** A name without the slash at its root. */
  function Body(t: Text): Text { t[if Rooted(t) then 1 else 0..] }

  /** The places of the pieces of s that cleaning keeps. */
  function Places(s: Text): seq<nat> { Kept(Pieces(Body(s)), |Pieces(Body(s))|, Rooted(s)) }

  function KeptPieces(s: Text): seq<Text> { Pick(Pieces(Body(s)), Places(s)) }

  /** The name of a device begins with #. */
  predicate Device(c: Text) { c != [] && c[0] == 35 }

  /** The first piece kept looks like a device, but it is not what s begins with. */
  predicate NewDevice(s: Text) {
    !Rooted(s) && Places(s) != [] && Places(s)[0] != 0 && Device(KeptPieces(s)[0])
  }

  lemma PathKeeps(s: Text)
    requires 0 !in s
    ensures Path(s).stack == KeptPieces(s) && Path(s).rooted == Rooted(s)
    ensures Places(s) != [] ==> (Path(s).erased <==> !Rooted(s) && Places(s)[0] != 0)
  {
    hide Canonical, Step;
    var k := PathIsCanonical(s);
    var ps := Pieces(Body(s));
    if s == [] {
      assert s[0..] == [] && Path(s) == Start(s);
      assert Kept(ps, 1, false) == Kept(ps, 0, false) == [];
    } else {
      assert ps[0..] == ps && (!Rooted(s) ==> Body(s) == s);
      FoldKeeps(Body(s), Start(s), ps, 0);
    }
  }

  lemma SpelledRooted(st: St, k: nat)
    requires st.rooted && Canonical(true, st.stack, k) && st.stack != []
    ensures var c := Spelling(st); Rooted(c) && Body(c) != [] && Pieces(Body(c)) == st.stack
  {
    Unrooted(st.stack, k);
    PiecesOfSpelling(st.stack, k);
    FirstOf(false, st.stack, k);
    var t := Spell(false, st.stack);
    assert Spelling(st) == [SLASH] + t && ([SLASH] + t)[1..] == t;
  }

  lemma SpelledUnrooted(st: St, k: nat)
    requires !st.rooted && Canonical(false, st.stack, k) && st.stack != []
    ensures var c := Spelling(st);
      && !Rooted(c) && Body(c) == c != []
      && Pieces(c) == (if st.erased && Device(st.stack[0]) then [DOT] else []) + st.stack
  {
    PiecesOfSpelling(st.stack, k);
    FirstOf(false, st.stack, k);
    var t := Spell(false, st.stack);
    assert IsComp(st.stack[0]) && st.stack[0][0] in st.stack[0];
    PiecesDotted(t);
    assert Spelling(st)[0..] == Spelling(st);
  }

  /** A clean name is rooted if the name was, and its pieces are those that are kept, with `.` in
      front if and only if they would make it a device name that it was not. */
  lemma CleanPieces(s: Text)
    requires 0 !in s
    ensures Rooted(Clean(s)) == Rooted(s)
    ensures KeptPieces(s) == [] ==> Clean(s) == if Rooted(s) then [SLASH] else DOT
    ensures KeptPieces(s) != [] ==> Body(Clean(s)) != []
    ensures KeptPieces(s) != [] ==>
      Pieces(Body(Clean(s))) == (if NewDevice(s) then [DOT] else []) + KeptPieces(s)
  {
    hide Kept, Pick, Fold, Canonical;
    var k := PathIsCanonical(s);
    var st := Path(s);
    PathKeeps(s);
    if st.stack == [] {
    } else if st.rooted {
      SpelledRooted(st, k);
    } else {
      SpelledUnrooted(st, k);
    }
  }

  lemma BeginsDotted(t: Text)
    ensures [PERIOD, SLASH] <= t <==> |t| >= 2 && t[0] == PERIOD && t[1] == SLASH
  {
    if |t| >= 2 { assert t[..2] == [t[0], t[1]]; }
  }

  lemma FirstOf(rooted: bool, stack: seq<Text>, k: nat)
    requires Canonical(rooted, stack, k) && stack != []
    ensures var t := Spell(rooted, stack);
      t != [] && t[0] == (if rooted then SLASH else stack[0][0]) && !([PERIOD, SLASH] <= t)
  {
    var t, c := Spell(rooted, stack), stack[0];
    SpellSplit(rooted, stack);
    assert IsComp(c) && SLASH !in c && c != DOT;
    assert if rooted then t[0] == SLASH else t[0] == c[0] && (|c| > 1 ==> t[1] == c[1]);
    assert |c| == 1 ==> c == [c[0]];
    BeginsDotted(t);
  }

  /** A name is cleaned to one that begins with `./` if and only if it would become a device name
      that it was not. */
  lemma DottedIsNew(s: Text)
    requires 0 !in s
    ensures [PERIOD, SLASH] <= Clean(s) <==> NewDevice(s)
    ensures NewDevice(s) ==> [PERIOD, SLASH, HASH] <= Clean(s)
  {
    var k := PathIsCanonical(s);
    PathKeeps(s);
    var st := Path(s);
    BeginsDotted(Clean(s));
    if st.stack != [] {
      FirstOf(st.rooted, st.stack, k);
      assert st.stack[0] == KeptPieces(s)[0] != [];
    }
  }

  /** What a clean name looks like: no piece of it is empty; a piece is `.` only if it is the whole
      name or keeps a device name away; and `..` comes only before all others, and not at a root. */
  lemma LooksClean(s: Text)
    requires 0 !in s
    ensures var c, ps := Clean(s), Pieces(Body(Clean(s)));
      && c != [] && (c != [SLASH] ==> forall i :: 0 <= i < |ps| ==> ps[i] != [])
      && (forall i :: 0 <= i < |ps| && ps[i] == DOT ==> i == 0 && (c == DOT || [PERIOD, SLASH, HASH] <= c))
      && (forall i :: 0 <= i < |ps| && ps[i] == DOTDOT ==> !Rooted(c) && forall j :: 0 <= j < i ==> ps[j] == DOTDOT)
  {
    var k := PathIsCanonical(s);
    PathKeeps(s);
    CleanPieces(s);
    DottedIsNew(s);
    var c, ps := Clean(s), Pieces(Body(Clean(s)));
    if KeptPieces(s) == [] {
      PiecesOf(Body(c));
    } else {
      LooksCanonical(Rooted(s), KeptPieces(s), k, NewDevice(s), ps);
    }
  }

  lemma LooksCanonical(rooted: bool, stack: seq<Text>, k: nat, dotted: bool, ps: seq<Text>)
    requires Canonical(rooted, stack, k) && ps == (if dotted then [DOT] else []) + stack
    requires dotted ==> stack != [] && Device(stack[0])
    ensures forall i :: 0 <= i < |ps| ==> ps[i] != [] && (ps[i] == DOT ==> i == 0 && dotted)
    ensures forall i :: 0 <= i < |ps| && ps[i] == DOTDOT ==> !rooted && forall j :: 0 <= j < i ==> ps[j] == DOTDOT
  {
    assert dotted ==> k == 0;
    forall i | 0 <= i < |ps| ensures ps[i] == if dotted && i == 0 then DOT else stack[if dotted then i - 1 else i] {}
  }
}
