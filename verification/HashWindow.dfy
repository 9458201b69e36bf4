/** The string table of writeimage (libdraw/writeimage.c): a ring of the last NMEM positions
    of the block, each on a doubly linked chain of the positions with the same hash value.

    A list node is a number: 0 to NMEM-1 are the slots of the ring, NMEM and up the heads of
    the chains, -1 is the null pointer.  Positions are counted from the start of the block;
    b[i] is the chain that position i was put on. */
module HashWindow {
  import opened Bytes
  import opened ImageCode

  const NHASH := 512

  /** The latest position before i, and not before lo, on chain h; -1 if there is none. */
  ghost function Older(b: seq<int>, lo: int, i: int, h: int): int
    requires 0 <= lo && i <= |b|
    decreases i - lo
  {
    if i <= lo then -1 else if b[i - 1] == h then i - 1 else Older(b, lo, i - 1, h)
  }

  /** The first position after i on chain h; -1 if there is none. */
  ghost function Newer(b: seq<int>, i: int, h: int): int
    requires 0 <= i
    decreases |b| - i
  {
    if i + 1 >= |b| then -1 else if b[i + 1] == h then i + 1 else Newer(b, i + 1, h)
  }

  lemma {:induction false} OlderSpec(b: seq<int>, lo: int, i: int, h: int)
    requires 0 <= lo && i <= |b|
    ensures var r := Older(b, lo, i, h);
      && (r == -1 || (lo <= r < i && b[r] == h))
      && forall k :: lo <= k < i && r < k ==> b[k] != h
    decreases i - lo
  {
    if lo < i && b[i - 1] != h { OlderSpec(b, lo, i - 1, h); }
  }

  lemma {:induction false} NewerSpec(b: seq<int>, i: int, h: int)
    requires 0 <= i
    ensures var r := Newer(b, i, h);
      && (r == -1 || (i < r < |b| && b[r] == h))
      && forall k :: i < k < |b| && (r == -1 || k < r) ==> b[k] != h
    decreases |b| - i
  {
    if i + 1 < |b| && b[i + 1] != h { NewerSpec(b, i + 1, h); }
  }

  /** The ring slot of position i. */
  function Slot(i: int): int
  {
    if i < 0 then -1 else i % NMEM
  }

  ghost function PrevNode(b: seq<int>, i: int): int
    requires 0 <= i < |b|
  {
    var z := Newer(b, i, b[i]);
    if z < 0 then NMEM + b[i] else Slot(z)
  }

  /** The head of chain h leads to the latest position on it. */
  ghost predicate Heads(nxt: seq<int>, b: seq<int>, lo: int)
    requires |nxt| == NMEM + NHASH && 0 <= lo
  {
    forall h :: 0 <= h < NHASH ==> nxt[NMEM + h] == Slot(Older(b, lo, |b|, h))
  }

  /** next leads to the latest earlier position on the same chain. */
  ghost predicate Nexts(nxt: seq<int>, b: seq<int>, lo: int)
    requires |nxt| == NMEM + NHASH && 0 <= lo
  {
    forall i {:trigger nxt[Slot(i)]} :: lo <= i < |b| ==> nxt[Slot(i)] == Slot(Older(b, lo, i, b[i]))
  }

  /** prev leads to the first later position on the same chain, or to the head. */
  ghost predicate Prevs(prv: seq<int>, b: seq<int>, lo: int)
    requires |prv| == NMEM && 0 <= lo
  {
    forall i {:trigger prv[Slot(i)]} :: lo <= i < |b| ==> prv[Slot(i)] == PrevNode(b, i)
  }

  ghost predicate Places(pos: seq<int>, b: seq<int>, start: int, lo: int)
    requires |pos| == NMEM && 0 <= lo
  {
    forall i {:trigger pos[Slot(i)]} :: lo <= i < |b| ==> pos[Slot(i)] == start + i
  }

  /** The ring holds exactly the positions from lo on, and the chains link them exactly. */
  ghost predicate Linked(nxt: seq<int>, prv: seq<int>, pos: seq<int>, b: seq<int>, start: int, lo: int) {
    && |nxt| == NMEM + NHASH && |prv| == NMEM && |pos| == NMEM
    && 0 <= lo <= |b| <= lo + NMEM
    && (forall i :: 0 <= i < |b| ==> 0 <= b[i] < NHASH)
    && Heads(nxt, b, lo) && Nexts(nxt, b, lo) && Prevs(prv, b, lo) && Places(pos, b, start, lo)
    && (forall j :: |b| <= j < NMEM ==> prv[j] == -1)
  }

  lemma SlotsDiffer(i: int, j: int)
    requires 0 <= i < j < i + NMEM
    ensures Slot(i) != Slot(j)
  {
  }

  // ----------------------------------------------------------- taking the oldest one out

  lemma OlderWithout(b: seq<int>, lo: int, i: int, h: int)
    requires 0 <= lo < |b| && lo <= i <= |b|
    ensures Older(b, lo + 1, i, h) == if Older(b, lo, i, h) == lo then -1 else Older(b, lo, i, h)
  {
    OlderSpec(b, lo, i, h);
    OlderSpec(b, lo + 1, i, h);
  }

  /** Only the first later position on the same chain, or the head, points at lo. */
  lemma OlderIsLowest(b: seq<int>, lo: int, i: int)
    requires 0 <= lo < i < |b|
    ensures Older(b, lo, i, b[i]) == lo <==> Newer(b, lo, b[lo]) == i
  {
    OlderSpec(b, lo, i, b[i]);
    NewerSpec(b, lo, b[lo]);
  }

  lemma HeadIsLowest(b: seq<int>, lo: int, h: int)
    requires 0 <= lo < |b|
    ensures Older(b, lo, |b|, h) == lo <==> (b[lo] == h && Newer(b, lo, b[lo]) == -1)
  {
    OlderSpec(b, lo, |b|, h);
    NewerSpec(b, lo, b[lo]);
  }

  lemma CutHeads(nxt: seq<int>, b: seq<int>, lo: int, node: int)
    requires |nxt| == NMEM + NHASH && 0 <= lo < |b| <= lo + NMEM && Heads(nxt, b, lo)
    requires 0 <= b[lo] < NHASH && node == PrevNode(b, lo)
    ensures Heads(nxt[node := -1], b, lo + 1)
  {
    var lo' := lo + 1;
    forall h | 0 <= h < NHASH ensures nxt[node := -1][NMEM + h] == Slot(Older(b, lo', |b|, h)) {
      OlderWithout(b, lo, |b|, h);
      HeadIsLowest(b, lo, h);
      NewerSpec(b, lo, b[lo]);
    }
  }

  lemma CutNexts(nxt: seq<int>, b: seq<int>, lo: int, node: int)
    requires |nxt| == NMEM + NHASH && 0 <= lo < |b| <= lo + NMEM && Nexts(nxt, b, lo)
    requires 0 <= b[lo] < NHASH && node == PrevNode(b, lo)
    ensures Nexts(nxt[node := -1], b, lo + 1)
  {
    var z := Newer(b, lo, b[lo]);
    NewerSpec(b, lo, b[lo]);
    forall i | lo + 1 <= i < |b| ensures nxt[node := -1][Slot(i)] == Slot(Older(b, lo + 1, i, b[i])) {
      OlderWithout(b, lo, i, b[i]);
      OlderIsLowest(b, lo, i);
      if z > i { SlotsDiffer(i, z); } else if 0 <= z < i { SlotsDiffer(z, i); }
    }
  }

  /** Clearing the link to the oldest position, the tail of its chain, takes it off the chain. */
  lemma Cut(nxt: seq<int>, prv: seq<int>, pos: seq<int>, b: seq<int>, start: int, lo: int)
    requires Linked(nxt, prv, pos, b, start, lo) && lo < |b|
    ensures 0 <= prv[Slot(lo)] < |nxt| && nxt[Slot(lo)] == -1
    ensures Linked(nxt[prv[Slot(lo)] := -1], prv, pos, b, start, lo + 1)
  {
    var node := prv[Slot(lo)];
    assert node == PrevNode(b, lo);
    CutHeads(nxt, b, lo, node);
    CutNexts(nxt, b, lo, node);
  }

  // -------------------------------------------------------------- putting a new one in

  lemma OlderAfter(b: seq<int>, lo: int, i: int, h: int, c: int)
    requires 0 <= lo <= i <= |b|
    ensures Older(b + [c], lo, i, h) == Older(b, lo, i, h)
  {
    OlderSpec(b, lo, i, h);
    OlderSpec(b + [c], lo, i, h);
  }

  lemma PrevAfter(b: seq<int>, lo: int, i: int, c: int)
    requires 0 <= lo <= i < |b|
    ensures PrevNode(b + [c], i) ==
            if Older(b, lo, |b|, c) == i then Slot(|b|) else PrevNode(b, i)
  {
    var b' := b + [c];
    var z, z' := Newer(b, i, b[i]), Newer(b', i, b'[i]);
    OlderSpec(b, lo, |b|, c);
    NewerSpec(b, i, b[i]);
    NewerSpec(b', i, b'[i]);
    assert b'[i] == b[i] && b'[|b|] == c;
    assert z >= 0 ==> b'[z] == b[z];
    assert 0 <= z' < |b| ==> b[z'] == b'[z'];
  }

  ghost function PushNext(nxt: seq<int>, h: int, cp: int): seq<int>
    requires |nxt| == NMEM + NHASH && 0 <= h < NHASH && 0 <= cp < NMEM
  {
    nxt[cp := nxt[NMEM + h]][NMEM + h := cp]
  }

  ghost function PushPrev(nxt: seq<int>, prv: seq<int>, h: int, cp: int): seq<int>
    requires |nxt| == NMEM + NHASH && |prv| == NMEM && 0 <= h < NHASH && 0 <= cp < NMEM
  {
    var p := prv[cp := NMEM + h];
    var first := nxt[NMEM + h];
    if 0 <= first < NMEM then p[first := cp] else p
  }

  lemma PushHeads(nxt: seq<int>, b: seq<int>, lo: int, h: int)
    requires |nxt| == NMEM + NHASH && 0 <= lo <= |b| && Heads(nxt, b, lo) && 0 <= h < NHASH
    ensures Heads(PushNext(nxt, h, Slot(|b|)), b + [h], lo)
  {
    forall g | 0 <= g < NHASH
      ensures PushNext(nxt, h, Slot(|b|))[NMEM + g] == Slot(Older(b + [h], lo, |b + [h]|, g))
    {
      OlderAfter(b, lo, |b|, g, h);
    }
  }

  lemma PushNexts(nxt: seq<int>, b: seq<int>, lo: int, h: int)
    requires |nxt| == NMEM + NHASH && 0 <= lo <= |b| < lo + NMEM && Heads(nxt, b, lo) && Nexts(nxt, b, lo)
      && 0 <= h < NHASH
    ensures Nexts(PushNext(nxt, h, Slot(|b|)), b + [h], lo)
  {
    var b' := b + [h];
    forall i | lo <= i < |b'|
      ensures PushNext(nxt, h, Slot(|b|))[Slot(i)] == Slot(Older(b', lo, i, b'[i]))
    {
      OlderAfter(b, lo, i, b'[i], h);
      if i < |b| {
        SlotsDiffer(i, |b|);
        assert nxt[Slot(i)] == Slot(Older(b, lo, i, b[i]));
      }
    }
  }

  lemma PushPrevs(nxt: seq<int>, prv: seq<int>, b: seq<int>, lo: int, h: int)
    requires |nxt| == NMEM + NHASH && |prv| == NMEM && 0 <= lo <= |b| < lo + NMEM && 0 <= h < NHASH
    requires Heads(nxt, b, lo) && Prevs(prv, b, lo)
    ensures Prevs(PushPrev(nxt, prv, h, Slot(|b|)), b + [h], lo)
  {
    var b', first := b + [h], Older(b, lo, |b|, h);
    OlderSpec(b, lo, |b|, h);
    forall i | lo <= i < |b'| ensures PushPrev(nxt, prv, h, Slot(|b|))[Slot(i)] == PrevNode(b', i) {
      if i < |b| {
        SlotsDiffer(i, |b|);
        PrevAfter(b, lo, i, h);
        assert prv[Slot(i)] == PrevNode(b, i);
        if 0 <= first < i { SlotsDiffer(first, i); } else if first > i { SlotsDiffer(i, first); }
      } else if first >= 0 {
        SlotsDiffer(first, i);
      }
    }
  }

  /** The new position goes to the front of chain h. */
  lemma Push(nxt: seq<int>, prv: seq<int>, pos: seq<int>, b: seq<int>, start: int, lo: int, h: int)
    requires Linked(nxt, prv, pos, b, start, lo) && |b| < lo + NMEM && 0 <= h < NHASH
    ensures Linked(PushNext(nxt, h, Slot(|b|)), PushPrev(nxt, prv, h, Slot(|b|)), pos[Slot(|b|) := start + |b|],
                   b + [h], start, lo)
  {
    PushHeads(nxt, b, lo, h);
    PushNexts(nxt, b, lo, h);
    PushPrevs(nxt, prv, b, lo, h);
    PushPlaces(pos, b, start, lo, h);
    PushUnused(nxt, prv, b, lo, h);
  }

  lemma PushPlaces(pos: seq<int>, b: seq<int>, start: int, lo: int, h: int)
    requires |pos| == NMEM && 0 <= lo <= |b| < lo + NMEM && Places(pos, b, start, lo)
    ensures Places(pos[Slot(|b|) := start + |b|], b + [h], start, lo)
  {
    forall i | lo <= i < |b| ensures Slot(i) != Slot(|b|) { SlotsDiffer(i, |b|); }
  }

  lemma PushUnused(nxt: seq<int>, prv: seq<int>, b: seq<int>, lo: int, h: int)
    requires |nxt| == NMEM + NHASH && |prv| == NMEM && 0 <= lo <= |b| < lo + NMEM && 0 <= h < NHASH
    requires Heads(nxt, b, lo) && forall j :: |b| <= j < NMEM ==> prv[j] == -1
    ensures forall j :: |b + [h]| <= j < NMEM ==> PushPrev(nxt, prv, h, Slot(|b|))[j] == -1
  {
    OlderSpec(b, lo, |b|, h);
    assert nxt[NMEM + h] == Slot(Older(b, lo, |b|, h));
  }

  lemma HeadSlot(nxt: seq<int>, b: seq<int>, lo: int, h: int)
    requires |nxt| == NMEM + NHASH && 0 <= lo && Heads(nxt, b, lo) && 0 <= h < NHASH
    ensures nxt[NMEM + h] == Slot(Older(b, lo, |b|, h)) && -1 <= nxt[NMEM + h] < NMEM
  {
  }

  // ------------------------------------------------------------- what the chains hold

  /** The positions of chain h before i, latest first. */
  ghost function Chain(b: seq<int>, lo: int, i: int, h: int): seq<int>
    requires 0 <= lo && i <= |b|
    decreases i
  {
    var o := Older(b, lo, i, h);
    if lo <= o < i then [o] + Chain(b, lo, o, h) else []
  }

  /** What a walk along `next` from a node meets, by the positions recorded in the nodes. */
  ghost function Walk(nxt: seq<int>, pos: seq<int>, node: int, fuel: nat): seq<int>
    requires |pos| == NMEM && |nxt| == NMEM + NHASH
    decreases fuel
  {
    if fuel == 0 || !(0 <= node < NMEM) then [] else [pos[node]] + Walk(nxt, pos, nxt[node], fuel - 1)
  }

  lemma {:induction false} ChainHolds(b: seq<int>, lo: int, i: int, h: int)
    requires 0 <= lo <= i <= |b|
    ensures forall k :: k in Chain(b, lo, i, h) <==> lo <= k < i && b[k] == h
    ensures forall x, y :: 0 <= x < y < |Chain(b, lo, i, h)| ==> Chain(b, lo, i, h)[x] > Chain(b, lo, i, h)[y]
    decreases i
  {
    OlderSpec(b, lo, i, h);
    var o := Older(b, lo, i, h);
    if o >= 0 {
      ChainHolds(b, lo, o, h);
      var rest := Chain(b, lo, o, h);
      assert Chain(b, lo, i, h) == [o] + rest;
      forall y | 0 <= y < |rest| ensures rest[y] < o { assert rest[y] in rest; }
    }
  }

  lemma {:induction false} WalkFollows(nxt: seq<int>, prv: seq<int>, pos: seq<int>, b: seq<int>, start: int, lo: int,
                                       i: int, h: int, fuel: nat)
    requires Linked(nxt, prv, pos, b, start, lo) && lo <= i <= |b| && i - lo <= fuel
    ensures var c := Chain(b, lo, i, h);
            Walk(nxt, pos, Slot(Older(b, lo, i, h)), fuel) == seq(|c|, k requires 0 <= k < |c| => start + c[k])
    decreases fuel
  {
    OlderSpec(b, lo, i, h);
    var o := Older(b, lo, i, h);
    if o >= 0 {
      assert nxt[Slot(o)] == Slot(Older(b, lo, o, h)) && pos[Slot(o)] == start + o;
      WalkFollows(nxt, prv, pos, b, start, lo, o, h, fuel - 1);
    }
  }

  /** The table is an exact index of the positions in the ring.  The walk from the head of
      chain h meets exactly the positions put there, latest first; so each position is on one
      chain.  And the oldest, whose slot is reused next, is the last of its chain. */
  lemma ChainsAreExact(nxt: seq<int>, prv: seq<int>, pos: seq<int>, b: seq<int>, start: int, lo: int, h: int)
    requires Linked(nxt, prv, pos, b, start, lo) && 0 <= h < NHASH
    ensures var walk := Walk(nxt, pos, nxt[NMEM + h], NMEM);
      && (forall i :: lo <= i < |b| ==> (start + i in walk <==> b[i] == h))
      && (forall x :: x in walk ==> start + lo <= x < start + |b|)
      && (forall x, y :: 0 <= x < y < |walk| ==> walk[x] > walk[y])
    ensures lo < |b| ==> nxt[Slot(lo)] == -1
  {
    ChainHolds(b, lo, |b|, h);
    WalkFollows(nxt, prv, pos, b, start, lo, |b|, h, NMEM);
    HeadSlot(nxt, b, lo, h);
    Indexed(b, lo, h, Chain(b, lo, |b|, h), Walk(nxt, pos, nxt[NMEM + h], NMEM), start);
    OldestIsLast(nxt, prv, pos, b, start, lo);
  }

  lemma OldestIsLast(nxt: seq<int>, prv: seq<int>, pos: seq<int>, b: seq<int>, start: int, lo: int)
    requires Linked(nxt, prv, pos, b, start, lo)
    ensures lo < |b| ==> nxt[Slot(lo)] == -1
  {
    if lo < |b| {
      var o := Slot(lo);
      assert nxt[o] == Slot(Older(b, lo, lo, b[lo]));
    }
  }

  lemma Indexed(b: seq<int>, lo: int, h: int, c: seq<int>, walk: seq<int>, start: int)
    requires 0 <= lo <= |b| && (forall k :: k in c <==> lo <= k < |b| && b[k] == h)
    requires forall x, y :: 0 <= x < y < |c| ==> c[x] > c[y]
    requires walk == seq(|c|, k requires 0 <= k < |c| => start + c[k])
    ensures forall i :: lo <= i < |b| ==> (start + i in walk <==> b[i] == h)
    ensures forall x :: x in walk ==> start + lo <= x < start + |b|
    ensures forall x, y :: 0 <= x < y < |walk| ==> walk[x] > walk[y]
  {
    forall i | lo <= i < |b| ensures start + i in walk <==> b[i] == h {
      InWalk(c, walk, start, start + i);
    }
    forall x | x in walk ensures start + lo <= x < start + |b| {
      InWalk(c, walk, start, x);
    }
  }

  lemma InWalk(c: seq<int>, walk: seq<int>, start: int, x: int)
    requires walk == seq(|c|, k requires 0 <= k < |c| => start + c[k])
    ensures x in walk <==> x - start in c
  {
    if x - start in c {
      var k :| 0 <= k < |c| && c[k] == x - start;
      assert walk[k] == x;
    }
  }

  /** prev leads back from where next leads, and next from where prev leads. */
  lemma PrevUndoesNext(nxt: seq<int>, prv: seq<int>, pos: seq<int>, b: seq<int>, start: int, lo: int, i: int)
    requires Linked(nxt, prv, pos, b, start, lo) && lo <= i < |b|
    ensures nxt[Slot(i)] != -1 ==> 0 <= nxt[Slot(i)] < NMEM && prv[nxt[Slot(i)]] == Slot(i)
    ensures 0 <= prv[Slot(i)] < |nxt| && nxt[prv[Slot(i)]] == Slot(i)
  {
    var y, z := Older(b, lo, i, b[i]), Newer(b, i, b[i]);
    OlderSpec(b, lo, i, b[i]);
    NewerSpec(b, i, b[i]);
    assert nxt[Slot(i)] == Slot(y) && prv[Slot(i)] == PrevNode(b, i);
    if y >= 0 {
      NewerSpec(b, y, b[y]);
      assert prv[Slot(y)] == PrevNode(b, y);
    }
    if z >= 0 {
      OlderSpec(b, lo, z, b[z]);
      assert nxt[Slot(z)] == Slot(Older(b, lo, z, b[z]));
    } else {
      OlderSpec(b, lo, |b|, b[i]);
      assert nxt[NMEM + b[i]] == Slot(Older(b, lo, |b|, b[i]));
    }
  }

  // -------------------------------------------------------------- the table as it is used

  function Lo(n: int): int { if n < NMEM then 0 else n - NMEM }

  /** How far the bytes at q and at p agree, up to es. */
  function MatchLen(data: seq<int>, q: int, p: int, es: int): (r: nat)
    requires 0 <= q < p <= es <= |data|
    ensures p + r <= es
    decreases es - p
  {
    if p == es || data[q] != data[p] then 0 else 1 + MatchLen(data, q + 1, p + 1, es)
  }

  lemma {:induction false} MatchLenIs(data: seq<int>, q: int, p: int, es: int, k: nat)
    requires 0 <= q < p && p + k <= es <= |data|
    requires forall x :: p <= x < p + k ==> data[x] == data[x - (p - q)]
    ensures MatchLen(data, q, p, es) >= k
    ensures p + k == es || data[p + k] != data[q + k] ==> MatchLen(data, q, p, es) == k
    decreases k
  {
    if k > 0 {
      assert data[p] == data[p - (p - q)];
      MatchLenIs(data, q + 1, p + 1, es, k - 1);
    }
  }

  lemma {:induction false} MatchLenAt(data: seq<int>, q: int, p: int, es: int, k: nat)
    requires 0 <= q < p <= es <= |data| && k < MatchLen(data, q, p, es)
    ensures data[p + k] == data[q + k]
    decreases k
  {
    if k > 0 { MatchLenAt(data, q + 1, p + 1, es, k - 1); }
  }

  lemma MatchedText(data: seq<int>, q: int, p: int, es: int)
    requires 0 <= q < p <= es <= |data|
    ensures var n := MatchLen(data, q, p, es); data[q..q + n] == data[p..p + n]
  {
    var n := MatchLen(data, q, p, es);
    var there, here := data[q..q + n], data[p..p + n];
    forall k | 0 <= k < n ensures there[k] == here[k] {
      MatchLenAt(data, q, p, es, k);
    }
  }

  /** The comparison of writeimage: backwards over the bytes that must agree if the match is
      to be longer than runlen, then forwards; 0 if it is not longer. */
  method CompareAt(data: seq<Byte>, q: int, p: int, es: int, runlen: nat) returns (n: nat)
    requires 0 <= q < p && p + runlen < es <= |data|
    ensures n == if MatchLen(data, q, p, es) > runlen then MatchLen(data, q, p, es) else 0
  {
    var s, t := p + runlen, q + runlen;
    while s >= p
      invariant p - 1 <= s <= p + runlen && t == s - (p - q)
      invariant forall x :: s < x <= p + runlen ==> data[x] == data[x - (p - q)]
    {
      if data[s] != data[t] {
        if MatchLen(data, q, p, es) > runlen { MatchLenAt(data, q, p, es, s - p); }
        return 0;
      }
      s, t := s - 1, t - 1;
    }
    t := t + (runlen + 2);
    s := s + (runlen + 2);
    while s < es && data[s] == data[t]
      invariant p + runlen < s <= es && t == s - (p - q)
      invariant forall x :: p <= x < s ==> data[x] == data[x - (p - q)]
    {
      s, t := s + 1, t + 1;
    }
    n := s - p;
    MatchLenIs(data, q, p, es, n);
  }

  /** The slot cp, about to be reused, has a prev exactly if it holds the oldest position of a
      full ring. */
  lemma CutRing(nxt: seq<int>, prv: seq<int>, pos: seq<int>, b: seq<int>, start: int, cp: int)
    requires Linked(nxt, prv, pos, b, start, Lo(|b|)) && cp == |b| % NMEM
    ensures -1 <= prv[cp] < |nxt|
    ensures Linked(if prv[cp] == -1 then nxt else nxt[prv[cp] := -1], prv, pos, b, start, Lo(|b| + 1))
  {
    if |b| >= NMEM {
      assert cp == Slot(Lo(|b|));
      Cut(nxt, prv, pos, b, start, Lo(|b|));
    }
  }

  lemma PushRing(nxt: seq<int>, prv: seq<int>, pos: seq<int>, b: seq<int>, start: int, h: int, cp: int)
    requires Linked(nxt, prv, pos, b, start, Lo(|b| + 1)) && cp == |b| % NMEM && 0 <= h < NHASH
    ensures -1 <= nxt[NMEM + h] < NMEM
    ensures Linked(PushNext(nxt, h, cp), PushPrev(nxt, prv, h, cp), pos[cp := start + |b|], b + [h], start,
                   Lo(|b + [h]|))
  {
    assert cp == Slot(|b|);
    Push(nxt, prv, pos, b, start, Lo(|b| + 1), h);
    HeadSlot(nxt, b, Lo(|b| + 1), h);
  }

  lemma NextSlot(n: nat)
    ensures (n + 1) % NMEM == if n % NMEM + 1 == NMEM then 0 else n % NMEM + 1
  {
  }

  /** What the node of position y says. */
  lemma NodeAt(nxt: seq<int>, prv: seq<int>, pos: seq<int>, b: seq<int>, start: int, y: int)
    requires Linked(nxt, prv, pos, b, start, Lo(|b|)) && Lo(|b|) <= y < |b|
    ensures 0 <= Slot(y) < NMEM && pos[Slot(y)] == start + y && nxt[Slot(y)] == Slot(Older(b, Lo(|b|), y, b[y]))
  {
  }

  /** No position after y on chain h matches longer than runlen. */
  ghost predicate BestAfter(data: seq<Byte>, b: seq<int>, start: int, p: int, es: int, h: int, y: int, runlen: int)
    requires 0 <= start && p == start + |b| && p <= es <= |data|
  {
    forall i :: Lo(|b|) <= i < |b| && y < i && b[i] == h ==> MatchLen(data, start + i, p, es) <= runlen
  }

  /** Every position after q on chain h matches shorter than runlen. */
  ghost predicate ShorterAfter(data: seq<Byte>, b: seq<int>, start: int, p: int, es: int, h: int, q: int, runlen: int)
    requires 0 <= start && p == start + |b| && p <= es <= |data| && start <= q
  {
    forall i :: q - start < i < |b| && b[i] == h ==> MatchLen(data, start + i, p, es) < runlen
  }

  /** What the search knows when it has come down chain h to position y, or to its end. */
  ghost predicate Found(data: seq<Byte>, b: seq<int>, start: int, p: int, es: int, h: int, y: int, runlen: int,
                        q: int) {
    && 0 <= start && p == start + |b| && p + runlen <= es <= |data| && es <= p + NRUN && 0 <= runlen
    && (y == -1 || (Lo(|b|) <= y < |b| && b[y] == h))
    && (runlen > 0 ==> start + Lo(|b|) <= q < p && MatchLen(data, q, p, es) == runlen
                       && y < q - start && b[q - start] == h && ShorterAfter(data, b, start, p, es, h, q, runlen))
    && BestAfter(data, b, start, p, es, h, y, runlen)
  }

  lemma FoundFirst(data: seq<Byte>, b: seq<int>, start: int, p: int, es: int, h: int)
    requires 0 <= start && p == start + |b| && p <= es <= |data| && es <= p + NRUN
    ensures Found(data, b, start, p, es, h, Older(b, Lo(|b|), |b|, h), 0, 0)
  {
    OlderSpec(b, Lo(|b|), |b|, h);
  }

  lemma FoundNext(data: seq<Byte>, b: seq<int>, start: int, p: int, es: int, h: int, y: int,
                  runlen: int, q: int, runlen': int, q': int)
    requires Found(data, b, start, p, es, h, y, runlen, q) && y >= 0
    requires var m := MatchLen(data, start + y, p, es);
      if m > runlen then runlen' == m && q' == start + y else runlen' == runlen && q' == q
    ensures Found(data, b, start, p, es, h, Older(b, Lo(|b|), y, h), runlen', q')
    ensures Older(b, Lo(|b|), y, h) < y
    ensures runlen' == NRUN ==> Found(data, b, start, p, es, h, -1, runlen', q')
  {
    OlderSpec(b, Lo(|b|), y, h);
  }

  class Window {
    const nxt: array<int>
    const prv: array<int>
    const pos: array<int>
    var cp: nat
    ghost var b: seq<int>
    ghost var start: int

    ghost predicate Valid()
      reads this, nxt, prv, pos
    {
      && nxt != prv && nxt != pos && prv != pos
      && Linked(nxt[..], prv[..], pos[..], b, start, Lo(|b|))
      && cp == |b| % NMEM
    }

    constructor ()
      ensures Valid() && fresh(nxt) && fresh(prv) && fresh(pos) && b == [] && start == 0
    {
      nxt := new int[NMEM + NHASH](_ => -1);
      prv := new int[NMEM](_ => -1);
      pos := new int[NMEM](_ => 0);
      cp := 0;
      b := [];
      start := 0;
    }

    /** Start a block: memset of both tables, and cp back to the first slot. */
    method Reset(line: int)
      requires Valid()
      modifies this`cp, this`b, this`start, nxt, prv, pos
      ensures Valid() && b == [] && start == line
    {
      forall i | 0 <= i < nxt.Length { nxt[i] := -1; }
      forall i | 0 <= i < prv.Length { prv[i] := -1; }
      forall i | 0 <= i < pos.Length { pos[i] := 0; }
      cp := 0;
      b := [];
      start := line;
    }

    /** The slot cp goes to the front of chain h. */
    method PushFront(p: int, h: int)
      requires nxt != prv && nxt != pos && prv != pos
      requires nxt.Length == NMEM + NHASH && prv.Length == NMEM && pos.Length == NMEM
      requires 0 <= h < NHASH && 0 <= cp < NMEM && -1 <= nxt[NMEM + h] < NMEM
      modifies nxt, prv, pos
      ensures nxt[..] == PushNext(old(nxt[..]), h, cp)
      ensures prv[..] == PushPrev(old(nxt[..]), old(prv[..]), h, cp)
      ensures pos[..] == old(pos[..])[cp := p]
    {
      nxt[cp] := nxt[NMEM + h];
      prv[cp] := NMEM + h;
      if nxt[cp] != -1 {
        prv[nxt[cp]] := cp;
      }
      nxt[prv[cp]] := cp;
      pos[cp] := p;
    }

    /** If the ring is full, the oldest position goes: the link to it is cleared. */
    method CutOldest()
      requires Valid()
      modifies nxt
      ensures Linked(nxt[..], prv[..], pos[..], b, start, Lo(|b| + 1))
    {
      ghost var n0, p0, s0 := nxt[..], prv[..], pos[..];
      CutRing(n0, p0, s0, b, start, cp);
      assert p0[cp] == prv[cp];
      if prv[cp] != -1 {
        nxt[prv[cp]] := -1;
        assert nxt[..] == n0[p0[cp] := -1];
      }
    }

    /** Put the next position on chain h, in place of the oldest if the ring is full. */
    method Insert(p: int, h: int)
      requires Valid() && p == start + |b| && 0 <= h < NHASH
      modifies this`cp, this`b, nxt, prv, pos
      ensures Valid() && b == old(b) + [h]
    {
      CutOldest();
      ghost var n1, p1, s1 := nxt[..], prv[..], pos[..];
      PushRing(n1, p1, s1, b, start, h, cp);
      PushFront(p, h);
      NextSlot(|b|);
      cp := if cp + 1 == NMEM then 0 else cp + 1;
      b := b + [h];
    }

    /** The longest match on chain h for the bytes at p, the latest such if there are several. */
    method Search(data: seq<Byte>, p: int, es: int, h: int) returns (runlen: nat, q: int)
      requires Valid() && 0 <= start && p == start + |b| && p < es <= |data| && es <= p + NRUN && 0 <= h < NHASH
      ensures p + runlen <= es
      ensures runlen > 0 ==> start + Lo(|b|) <= q < p && MatchLen(data, q, p, es) == runlen
      ensures BestAfter(data, b, start, p, es, h, -1, runlen)
      ensures runlen > 0 ==> b[q - start] == h && ShorterAfter(data, b, start, p, es, h, q, runlen)
    {
      hide MatchLen, BestAfter, ShorterAfter;
      q, runlen := 0, 0;
      ghost var y := Older(b, Lo(|b|), |b|, h);
      FoundFirst(data, b, start, p, es, h);
      HeadSlot(nxt[..], b, Lo(|b|), h);
      var hp := nxt[NMEM + h];
      while hp != -1
        invariant hp == Slot(y) && Found(data, b, start, p, es, h, y, runlen, q)
        decreases y
      {
        NodeAt(nxt[..], prv[..], pos[..], b, start, y);
        ghost var runlen0, q0 := runlen, q;
        runlen, q := Visit(data, pos[hp], p, es, runlen, q);
        FoundNext(data, b, start, p, es, h, y, runlen0, q0, runlen, q);
        if runlen == NRUN {
          break;
        }
        y := Older(b, Lo(|b|), y, h);
        hp := nxt[hp];
      }
    }
  }

  /** One turn of the search: a longer match replaces the one found before.  A match of NRUN
      bytes ends the search, which looks no further once runlen is NRUN. */
  method Visit(data: seq<Byte>, s: int, p: int, es: int, runlen: nat, q: int) returns (runlen': nat, q': int)
    requires 0 <= s < p && p + runlen <= es <= |data|
    ensures var m := MatchLen(data, s, p, es);
      if m > runlen then runlen' == m && q' == s else runlen' == runlen && q' == q
  {
    runlen', q' := runlen, q;
    if p + runlen < es {
      var n := CompareAt(data, s, p, es, runlen);
      if n > runlen {
        runlen', q' := n, s;
      }
    }
  }
}
