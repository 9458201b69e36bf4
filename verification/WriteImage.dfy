/** The compressor of writeimage (libdraw/writeimage.c).  The image has been read into data,
    n bytes in lines of bpl bytes; what libwrite would write is returned as a list of blocks. */
module WriteImage {
  import opened Bytes
  import opened ImageCode
  import opened HashWindow

  // ------------------------------------------------------------------------ hash values

  /** `hupdate`: nine bits, of which three are pushed out by each new byte. */
  function HUpdate(h: bv9, c: Byte): bv9 { (h << 3) ^ (c as bv9) }

  function Hash3(data: seq<Byte>, p: int): bv9
    requires 0 <= p && p + NMATCH <= |data|
  {
    HUpdate(HUpdate(HUpdate(0, data[p]), data[p + 1]), data[p + 2])
  }

  lemma ThreeUpdates(x: bv9, a: bv9, b: bv9, c: bv9)
    ensures (((((x << 3) ^ a) << 3) ^ b) << 3) ^ c == (((((0 << 3) ^ a) << 3) ^ b) << 3) ^ c
  {
  }

  /** h is the hash value of the three bytes at p, if there are three. */
  ghost predicate HashAt(data: seq<Byte>, n: nat, p: int, h: bv9)
    requires n <= |data|
  {
    0 <= p && p + NMATCH <= n ==> h == Hash3(data, p)
  }

  lemma HashNext(data: seq<Byte>, n: nat, p: int, h: bv9)
    requires n <= |data| && 0 <= p && HashAt(data, n, p, h)
    ensures p + NMATCH < n ==> HashAt(data, n, p + 1, HUpdate(h, data[p + NMATCH]))
    ensures p + NMATCH >= n ==> HashAt(data, n, p + 1, h)
  {
    if p + NMATCH < n {
      var a, b, c := data[p + 1] as bv9, data[p + 2] as bv9, data[p + 3] as bv9;
      ThreeUpdates(HUpdate(0, data[p]), a, b, c);
    }
  }

  /** Every position of the block with three bytes left is on the chain of those bytes. */
  ghost predicate Hashed(data: seq<Byte>, n: nat, b: seq<int>, start: int)
    requires n <= |data|
  {
    0 <= start && forall i :: 0 <= i < |b| && start + i + NMATCH <= n ==> b[i] == Hash3(data, start + i) as int
  }

  // ------------------------------------------------------------------------ greediness

  /** No match for the bytes at p, from anywhere in the window, is longer than k. */
  ghost predicate AtMost(data: seq<Byte>, bs: int, p: int, es: int, k: int)
    requires 0 <= bs <= p <= es <= |data|
  {
    forall q :: bs + Lo(p - bs) <= q < p ==> MatchLen(data, q, p, es) <= k
  }

  /** As the chain of three bytes is exact, the search is too: a match of three bytes or more
      is on the chain that was searched. */
  lemma SearchIsExact(data: seq<Byte>, n: nat, b: seq<int>, bs: int, p: int, es: int, h: bv9, runlen: nat)
    requires n <= |data| && 0 <= bs && p == bs + |b| && p <= es <= n
    requires Hashed(data, n, b, bs) && HashAt(data, n, p, h)
    requires BestAfter(data, b, bs, p, es, h as int, -1, runlen)
    ensures AtMost(data, bs, p, es, if runlen < NMATCH then NMATCH - 1 else runlen)
  {
    var k := if runlen < NMATCH then NMATCH - 1 else runlen;
    forall q | bs + Lo(p - bs) <= q < p ensures MatchLen(data, q, p, es) <= k {
      SameHash(data, q, p, es);
      assert MatchLen(data, q, p, es) >= NMATCH ==> b[q - bs] == Hash3(data, bs + (q - bs)) as int;
    }
  }

  lemma SameHash(data: seq<Byte>, q: int, p: int, es: int)
    requires 0 <= q < p <= es <= |data|
    ensures MatchLen(data, q, p, es) >= NMATCH ==> p + NMATCH <= es && Hash3(data, q) == Hash3(data, p)
  {
    if MatchLen(data, q, p, es) >= NMATCH {
      MatchLenAt(data, q, p, es, 0);
      MatchLenAt(data, q, p, es, 1);
      MatchLenAt(data, q, p, es, 2);
    }
  }

  /** The end of the line that position p of the block is on. */
  function LineEnd(bs: int, bpl: nat, p: int): int
    requires bpl > 0
  {
    bs + ((p - bs) / bpl + 1) * bpl
  }

  /** Where a match for the bytes at p has to end. */
  function MatchEnd(bs: int, bpl: nat, p: int): int
    requires bpl > 0
  {
    Min(LineEnd(bs, bpl, p), p + NRUN)
  }

  /** A literal at p is justified: nothing in the window matches three bytes. */
  ghost predicate LiteralAt(data: seq<Byte>, n: nat, bs: int, bpl: nat, p: int)
    requires bpl > 0
  {
    0 <= bs <= p < MatchEnd(bs, bpl, p) <= n <= |data| && AtMost(data, bs, p, MatchEnd(bs, bpl, p), NMATCH - 1)
  }

  ghost predicate Literals(data: seq<Byte>, n: nat, bs: int, bpl: nat, p: int, p': int)
    requires bpl > 0
  {
    forall j :: p <= j < p' ==> LiteralAt(data, n, bs, bpl, j)
  }

  /** A match of len bytes at p is justified: nothing in the window matches more. */
  ghost predicate MatchAt(data: seq<Byte>, n: nat, bs: int, bpl: nat, p: int, len: nat)
    requires bpl > 0
  {
    0 <= bs <= p < MatchEnd(bs, bpl, p) <= n <= |data| && AtMost(data, bs, p, MatchEnd(bs, bpl, p), len)
  }

  /** The code c, read from position p of the block, takes at every position the longest match
      there is, and a literal only where there is none; and none of its codes crosses the end of
      a line. */
  ghost predicate Greedy(c: seq<Byte>, data: seq<Byte>, n: nat, bs: int, bpl: nat, p: int)
    requires bpl > 0
    decreases |c|
  {
    if c == [] then true
    else if c[0] >= 128 then
      var k := c[0] - 127;
      && |c| >= 1 + k && p + k <= LineEnd(bs, bpl, p)
      && Literals(data, n, bs, bpl, p, p + k)
      && Greedy(c[1 + k..], data, n, bs, bpl, p + k)
    else
      && |c| >= 2 && p + RunLen(c[0]) <= LineEnd(bs, bpl, p)
      && MatchAt(data, n, bs, bpl, p, RunLen(c[0]))
      && Greedy(c[2..], data, n, bs, bpl, p + RunLen(c[0]))
  }

  /** The block code c stands for the bytes bs..p of the image, and is greedy. */
  ghost predicate Coded(c: seq<Byte>, data: seq<Byte>, n: nat, bs: int, bpl: nat, p: int)
    requires bpl > 0
  {
    0 <= bs <= p <= n <= |data| && Decode(c, []) == Some(data[bs..p]) && Greedy(c, data, n, bs, bpl, bs)
  }

  /** How many bytes a code stands for. */
  function Span(c: seq<Byte>): nat
    decreases |c|
  {
    if c == [] then 0
    else if c[0] >= 128 then if |c| < c[0] - 126 then 0 else c[0] - 127 + Span(c[1 + (c[0] - 127)..])
    else if |c| < 2 then 0 else RunLen(c[0]) + Span(c[2..])
  }

  lemma {:induction false} DecodeSpan(c: seq<Byte>, out: seq<Byte>)
    requires Decode(c, out).Some?
    ensures |Decode(c, out).value| == |out| + Span(c)
    decreases |c|
  {
    if c == [] {
    } else if c[0] >= 128 {
      DecodeSpan(c[1 + (c[0] - 127)..], out + c[1..1 + (c[0] - 127)]);
    } else {
      CopyIs(out, Dist(c[0], c[1]), RunLen(c[0]), 0);
      DecodeSpan(c[2..], Copy(out, Dist(c[0], c[1]), RunLen(c[0])));
    }
  }

  lemma GreedyTail(c: seq<Byte>, data: seq<Byte>, n: nat, bs: int, bpl: nat, p: int)
    requires bpl > 0 && c != [] && Greedy(c, data, n, bs, bpl, p)
    ensures FirstLen(c) <= |c| && Greedy(c[FirstLen(c)..], data, n, bs, bpl, p + FirstSpan(c))
    ensures Span(c) == FirstSpan(c) + Span(c[FirstLen(c)..]) && p + FirstSpan(c) <= LineEnd(bs, bpl, p)
  {
    if c[0] >= 128 { assert 1 + (c[0] - 127) == FirstLen(c); }
  }

  lemma GreedyFront(c: seq<Byte>, d: seq<Byte>, data: seq<Byte>, n: nat, bs: int, bpl: nat, p: int)
    requires bpl > 0 && c != [] && Greedy(c, data, n, bs, bpl, p) && FirstLen(c) <= |c|
    requires Greedy(c[FirstLen(c)..] + d, data, n, bs, bpl, p + FirstSpan(c))
    ensures Greedy(c + d, data, n, bs, bpl, p)
  {
    var k := FirstLen(c);
    FrontStays(c, d, k);
    if c[0] >= 128 { assert k == 1 + (c[0] - 127); }
  }

  lemma FrontStays(c: seq<Byte>, d: seq<Byte>, k: nat)
    requires c != [] && k <= |c|
    ensures (c + d)[0] == c[0] && (c + d)[k..] == c[k..] + d && |c + d| >= |c|
  {
  }

  lemma {:induction false} GreedyAppend(c: seq<Byte>, d: seq<Byte>, data: seq<Byte>, n: nat, bs: int, bpl: nat,
                                       p: int, e: int)
    requires bpl > 0 && Greedy(c, data, n, bs, bpl, p) && e == p + Span(c) && Greedy(d, data, n, bs, bpl, e)
    ensures Greedy(c + d, data, n, bs, bpl, p)
    decreases |c|
  {
    if c == [] {
      assert c + d == d;
    } else {
      hide Literals, MatchAt;
      GreedyTail(c, data, n, bs, bpl, p);
      GreedyAppend(c[FirstLen(c)..], d, data, n, bs, bpl, p + FirstSpan(c), e);
      GreedyFront(c, d, data, n, bs, bpl, p);
    }
  }

  /** Appending one more code to a block. */
  lemma Extend(c: seq<Byte>, d: seq<Byte>, data: seq<Byte>, n: nat, bs: int, bpl: nat, p: int, p': int)
    requires bpl > 0 && Coded(c, data, n, bs, bpl, p) && p <= p' <= n
    requires Decode(d, data[bs..p]) == Some(data[bs..p']) && Greedy(d, data, n, bs, bpl, p)
    ensures Coded(c + d, data, n, bs, bpl, p')
  {
    DecodeAppend(c, d, []);
    DecodeSpan(c, []);
    GreedyAppend(c, d, data, n, bs, bpl, bs, p);
  }

  lemma ExtendDump(c: seq<Byte>, dump: seq<Byte>, data: seq<Byte>, n: nat, bs: int, bpl: nat, p: int)
    requires bpl > 0 && 1 <= |dump| <= NDUMP && bs <= p - |dump| && p <= n <= |data|
    requires Coded(c, data, n, bs, bpl, p - |dump|) && dump == data[p - |dump|..p]
    requires Literals(data, n, bs, bpl, p - |dump|, p) && p <= LineEnd(bs, bpl, p - |dump|)
    ensures Coded(c + ([|dump| - 1 + 128] + dump), data, n, bs, bpl, p)
  {
    var d: seq<Byte> := [|dump| - 1 + 128] + dump;
    var out := data[bs..p - |dump|];
    assert d[1..1 + |dump|] == dump && d[1 + |dump|..] == [];
    assert out + dump == data[bs..p];
    Extend(c, d, data, n, bs, bpl, p - |dump|, p);
  }

  lemma ExtendMatch(c: seq<Byte>, data: seq<Byte>, n: nat, bs: int, bpl: nat, p: int, q: int, runlen: nat)
    requires bpl > 0 && Coded(c, data, n, bs, bpl, p) && bs + Lo(p - bs) <= q < p
    requires MatchAt(data, n, bs, bpl, p, runlen) && MatchLen(data, q, p, MatchEnd(bs, bpl, p)) == runlen
      && runlen >= NMATCH
    ensures var offs := p - q - 1;
      && 0 <= offs < NMEM && runlen <= NRUN
      && Coded(c + [(runlen - NMATCH) * 4 + offs / 256, offs % 256], data, n, bs, bpl, p + runlen)
  {
    var offs := p - q - 1;
    var d: seq<Byte> := [(runlen - NMATCH) * 4 + offs / 256, offs % 256];
    MatchedText(data, q, p, MatchEnd(bs, bpl, p));
    DecodedMatch(data, bs, p, q, runlen);
    GreedyMatch(d, data, n, bs, bpl, p, runlen, offs);
    hide Greedy, MatchAt, Decode, MatchLen;
    Extend(c, d, data, n, bs, bpl, p, p + runlen);
  }

  lemma DecodedMatch(data: seq<Byte>, bs: nat, p: nat, q: nat, runlen: nat)
    requires bs <= q < p && p + runlen <= |data| && NMATCH <= runlen <= NRUN && p - q <= NMEM
    requires data[q..q + runlen] == data[p..p + runlen]
    ensures Decode([(runlen - NMATCH) * 4 + (p - q - 1) / 256, (p - q - 1) % 256], data[bs..p]) ==
            Some(data[bs..p + runlen])
  {
    MatchBytes(runlen, p - q - 1);
    CopyRepeats(data, bs, p, p - q, runlen);
    MatchCode(runlen, p - q, [], data[bs..p]);
    var d: seq<Byte> := [(runlen - NMATCH) * 4 + (p - q - 1) / 256, (p - q - 1) % 256];
    assert d + [] == d;
  }

  lemma GreedyMatch(d: seq<Byte>, data: seq<Byte>, n: nat, bs: int, bpl: nat, p: int, runlen: nat, offs: nat)
    requires bpl > 0 && MatchAt(data, n, bs, bpl, p, runlen) && p + runlen <= MatchEnd(bs, bpl, p)
    requires runlen >= NMATCH && offs < NMEM && d == [(runlen - NMATCH) * 4 + offs / 256, offs % 256]
    ensures Greedy(d, data, n, bs, bpl, p)
  {
    hide MatchAt;
    MatchBytes(runlen, offs);
    assert d[2..] == [];
  }

  // ------------------------------------------------------------------- one line at a time

  lemma LineEndIs(bs: int, bpl: nat, line: int, p: int)
    requires bpl > 0 && bs <= line <= p < line + bpl && (line - bs) % bpl == 0
    ensures LineEnd(bs, bpl, p) == line + bpl
  {
    var k, r := (line - bs) / bpl, p - line;
    assert line - bs == bpl * k;
    DivUnique(p - bs, bpl, k, r);
    assert (k + 1) * bpl == k * bpl + bpl;
  }

  /** The string table is right for position p of the block. */
  ghost predicate Table(data: seq<Byte>, n: nat, bs: int, p: int, b: seq<int>, h: bv9)
    requires n <= |data|
  {
    0 <= bs && |b| == p - bs && Hashed(data, n, b, bs) && HashAt(data, n, p, h)
  }

  /** What w bytes of a line have cost at most, when no literals are pending. */
  function Cost(w: int): int { w + w / NDUMP }

  /** In the line at `line` everything before p is coded or in the dump; the line has taken
      `used` bytes of code, within `slack` of its budget. */
  ghost predicate Text(data: seq<Byte>, n: nat, bs: int, bpl: nat, line: int, p: int, code: seq<Byte>, used: int,
                       dump: seq<Byte>, slack: int)
    requires bpl > 0
  {
    && (line - bs) % bpl == 0
    && 0 <= bs <= line <= p - |dump| && p <= line + bpl <= n <= |data| && |dump| <= NDUMP
    && dump == data[p - |dump|..p]
    && Literals(data, n, bs, bpl, p - |dump|, p)
    && Coded(code, data, n, bs, bpl, p - |dump|)
    && used <= Cost(p - |dump| - line) + slack
  }

  lemma TextLiteral(data: seq<Byte>, n: nat, bs: int, bpl: nat, line: int, p: int, code: seq<Byte>, used: int,
                    dump: seq<Byte>)
    requires bpl > 0 && Text(data, n, bs, bpl, line, p, code, used, dump, 0)
    requires |dump| < NDUMP && p < line + bpl && LiteralAt(data, n, bs, bpl, p)
    ensures Text(data, n, bs, bpl, line, p + 1, code, used, dump + [data[p]], 0)
  {
    assert data[p - |dump|..p] + [data[p]] == data[p - |dump|..p + 1];
  }

  /** A dump of NDUMP bytes keeps the budget; a shorter one overdraws it by at most one. */
  lemma TextDump(data: seq<Byte>, n: nat, bs: int, bpl: nat, line: int, p: int, code: seq<Byte>, used: int,
                 dump: seq<Byte>)
    requires bpl > 0 && Text(data, n, bs, bpl, line, p, code, used, dump, 0) && dump != []
    ensures used + |dump| + 1 <= LineBound(bpl)
    ensures Text(data, n, bs, bpl, line, p, code + ([|dump| - 1 + 128] + dump), used + |dump| + 1, [],
                 if |dump| == NDUMP then 0 else 1)
  {
    LineEndIs(bs, bpl, line, p - |dump|);
    ExtendDump(code, dump, data, n, bs, bpl, p);
    assert data[p..p] == [];
  }

  /** A match makes good what a short dump has overdrawn. */
  lemma TextMatch(data: seq<Byte>, n: nat, bs: int, bpl: nat, line: int, p: int, code: seq<Byte>, used: int,
                  q: int, runlen: nat)
    requires bpl > 0 && Text(data, n, bs, bpl, line, p, code, used, [], 1)
    requires p + runlen <= line + bpl && bs + Lo(p - bs) <= q < p && runlen >= NMATCH
    requires MatchAt(data, n, bs, bpl, p, runlen) && MatchLen(data, q, p, MatchEnd(bs, bpl, p)) == runlen
    ensures used + 2 <= LineBound(bpl) && 0 <= p - q - 1 < NMEM && runlen <= NRUN
    ensures Text(data, n, bs, bpl, line, p + runlen,
                 code + [(runlen - NMATCH) * 4 + (p - q - 1) / 256, (p - q - 1) % 256], used + 2, [], 0)
  {
    ExtendMatch(code, data, n, bs, bpl, p, q, runlen);
    assert data[p + runlen..p + runlen] == [];
  }

  /** Copy the pending literals out: the length, then the bytes.  Not done if they do not fit. */
  method FlushDump(outbuf: array<Byte>, outp: nat, dumpbuf: array<Byte>, ndump: nat) returns (ok: bool, outp': nat)
    requires outp <= outbuf.Length && 1 <= ndump <= NDUMP == dumpbuf.Length && outbuf != dumpbuf
    modifies outbuf
    ensures ok <==> outbuf.Length - outp >= ndump + 1
    ensures ok ==> outp' == outp + ndump + 1 && outp' <= outbuf.Length &&
                   outbuf[..outp'] == old(outbuf[..outp]) + ([ndump - 1 + 128] + dumpbuf[..ndump])
    ensures !ok ==> outp' == outp && outbuf[..] == old(outbuf[..])
  {
    if outbuf.Length - outp < ndump + 1 {
      return false, outp;
    }
    outbuf[outp] := ndump - 1 + 128;
    forall j | 0 <= j < ndump {
      outbuf[outp + 1 + j] := dumpbuf[j];
    }
    ok, outp' := true, outp + 1 + ndump;
  }

  /** Put the positions p..p+runlen into the table. */
  method InsertRun(w: Window, data: seq<Byte>, n: nat, p: nat, runlen: nat, h0: bv9) returns (h: bv9)
    requires w.Valid() && n <= |data| && Table(data, n, w.start, p, w.b, h0)
    modifies w`cp, w`b, w.nxt, w.prv, w.pos
    ensures w.Valid() && Table(data, n, w.start, p + runlen, w.b, h)
  {
    h := h0;
    var x := p;
    while x != p + runlen
      invariant p <= x <= p + runlen && w.Valid() && Table(data, n, w.start, x, w.b, h)
    {
      w.Insert(x, h as int);
      HashNext(data, n, x, h);
      if n - x > NMATCH {
        h := HUpdate(h, data[x + NMATCH]);
      }
      x := x + 1;
    }
  }

  /** The three tables and the two buffers are separate objects. */
  ghost predicate Apart(w: Window, outbuf: array<Byte>, dumpbuf: array<Byte>) {
    && outbuf != dumpbuf && dumpbuf.Length == NDUMP
    && outbuf as object !in {w as object, w.nxt, w.prv, w.pos}
    && dumpbuf as object !in {w as object, w.nxt, w.prv, w.pos}
  }

  /** Flush the pending literals of a line. */
  method FlushText(ghost data: seq<Byte>, ghost n: nat, ghost bs: int, ghost bpl: nat, ghost line: nat, ghost p: nat,
                   outbuf: array<Byte>, outp: nat, dumpbuf: array<Byte>, ndump: nat, ghost outp0: nat)
    returns (ok: bool, outp': nat)
    requires outbuf != dumpbuf && dumpbuf.Length == NDUMP && bpl > 0
    requires outp0 <= outp <= outbuf.Length && 1 <= ndump <= NDUMP
    requires Text(data, n, bs, bpl, line, p, outbuf[..outp], outp - outp0, dumpbuf[..ndump], 0)
    modifies outbuf
    ensures outp <= outp' <= outbuf.Length && outbuf[..outp] == old(outbuf[..outp])
    ensures !ok ==> outbuf.Length - outp0 < LineBound(bpl)
    ensures outp' - outp0 <= LineBound(bpl)
    ensures ok ==> Text(data, n, bs, bpl, line, p, outbuf[..outp'], outp' - outp0, [], if ndump == NDUMP then 0 else 1)
  {
    ghost var code, dump := outbuf[..outp], dumpbuf[..ndump];
    TextDump(data, n, bs, bpl, line, p, code, outp - outp0, dump);
    ok, outp' := FlushDump(outbuf, outp, dumpbuf, ndump);
    if ok {
      assert outbuf[..outp] == outbuf[..outp'][..outp] == code;
    } else {
      assert outbuf[..outp] == outbuf[..][..outp];
    }
  }

  /** A literal: into the dump, which is flushed first if it is full. */
  method EmitLiteral(data: seq<Byte>, n: nat, ghost bs: int, bpl: nat, ghost line: nat, p: nat,
                     outbuf: array<Byte>, outp: nat, dumpbuf: array<Byte>, ndump: nat, ghost outp0: nat)
    returns (full: bool, outp': nat, ndump': nat)
    requires outbuf != dumpbuf && dumpbuf.Length == NDUMP && bpl > 0
    requires outp0 <= outp <= outbuf.Length && ndump <= NDUMP
    requires Text(data, n, bs, bpl, line, p, outbuf[..outp], outp - outp0, dumpbuf[..ndump], 0)
    requires p < line + bpl && LiteralAt(data, n, bs, bpl, p)
    modifies outbuf, dumpbuf
    ensures outp <= outp' <= outbuf.Length && outbuf[..outp] == old(outbuf[..outp])
    ensures full ==> outbuf.Length - outp0 < LineBound(bpl)
    ensures !full ==> ndump' <= NDUMP
    ensures !full ==> Text(data, n, bs, bpl, line, p + 1, outbuf[..outp'], outp' - outp0, dumpbuf[..ndump'], 0)
  {
    full, outp', ndump' := false, outp, ndump;
    if ndump == NDUMP {
      var ok;
      ok, outp' := FlushText(data, n, bs, bpl, line, p, outbuf, outp, dumpbuf, ndump, outp0);
      if !ok {
        full := true;
        return;
      }
      ndump' := 0;
    }
    ghost var dump := dumpbuf[..ndump'];
    TextLiteral(data, n, bs, bpl, line, p, outbuf[..outp'], outp' - outp0, dump);
    dumpbuf[ndump'] := data[p];
    ndump' := ndump' + 1;
    assert dumpbuf[..ndump'] == dump + [data[p]];
  }

  /** A match: the pending literals first, then the two bytes of the match. */
  method EmitMatch(data: seq<Byte>, n: nat, ghost bs: int, bpl: nat, ghost line: nat, p: nat, q: int, runlen: nat,
                   outbuf: array<Byte>, outp: nat, dumpbuf: array<Byte>, ndump: nat, ghost outp0: nat)
    returns (full: bool, outp': nat)
    requires outbuf != dumpbuf && dumpbuf.Length == NDUMP && bpl > 0
    requires outp0 <= outp <= outbuf.Length && ndump <= NDUMP
    requires Text(data, n, bs, bpl, line, p, outbuf[..outp], outp - outp0, dumpbuf[..ndump], 0)
    requires p + runlen <= line + bpl && bs + Lo(p - bs) <= q < p && runlen >= NMATCH
    requires MatchAt(data, n, bs, bpl, p, runlen) && MatchLen(data, q, p, MatchEnd(bs, bpl, p)) == runlen
    modifies outbuf
    ensures outp <= outp' <= outbuf.Length && outbuf[..outp] == old(outbuf[..outp])
    ensures full ==> outbuf.Length - outp0 < LineBound(bpl)
    ensures !full ==> Text(data, n, bs, bpl, line, p + runlen, outbuf[..outp'], outp' - outp0, [], 0)
  {
    outp' := outp;
    if ndump != 0 {
      var ok;
      ok, outp' := FlushText(data, n, bs, bpl, line, p, outbuf, outp, dumpbuf, ndump, outp0);
      if !ok {
        return true, outp';
      }
    } else {
      assert dumpbuf[..ndump] == [];
    }
    full, outp' := PutMatch(data, n, bs, bpl, line, p, q, runlen, outbuf, outp', outp0);
  }

  method PutMatch(data: seq<Byte>, n: nat, ghost bs: int, bpl: nat, ghost line: nat, p: nat, q: int, runlen: nat,
                  outbuf: array<Byte>, outp: nat, ghost outp0: nat)
    returns (full: bool, outp': nat)
    requires bpl > 0 && outp0 <= outp <= outbuf.Length
    requires Text(data, n, bs, bpl, line, p, outbuf[..outp], outp - outp0, [], 1)
    requires p + runlen <= line + bpl && bs + Lo(p - bs) <= q < p && runlen >= NMATCH
    requires MatchAt(data, n, bs, bpl, p, runlen) && MatchLen(data, q, p, MatchEnd(bs, bpl, p)) == runlen
    modifies outbuf
    ensures outp <= outp' <= outbuf.Length && outbuf[..outp] == old(outbuf[..outp])
    ensures full ==> outbuf.Length - outp0 < LineBound(bpl)
    ensures !full ==> Text(data, n, bs, bpl, line, p + runlen, outbuf[..outp'], outp' - outp0, [], 0)
  {
    hide Coded, MatchLen, MatchAt;
    ghost var code := outbuf[..outp];
    TextMatch(data, n, bs, bpl, line, p, code, outp - outp0, q, runlen);
    var offs := p - q - 1;
    if outbuf.Length - outp < 2 {
      return true, outp;
    }
    MatchBytes(runlen, offs);
    outbuf[outp] := (runlen - NMATCH) * 4 + offs / 256;
    outbuf[outp + 1] := offs % 256;
    assert outbuf[..outp + 2] == code + [(runlen - NMATCH) * 4 + offs / 256, offs % 256];
    return false, outp + 2;
  }

  /** One position of a line: find the longest match, and put a literal into the dump or the
      match into the code.  `full` says that the code did not fit. */
  method CompressOne(w: Window, data: seq<Byte>, n: nat, bpl: nat, line: nat, p: nat, h: bv9,
                     outbuf: array<Byte>, outp: nat, dumpbuf: array<Byte>, ndump: nat, ghost outp0: nat)
    returns (full: bool, runlen: nat, outp': nat, ndump': nat)
    requires w.Valid() && outbuf != dumpbuf && dumpbuf.Length == NDUMP && n <= |data| && bpl > 0
    requires outp0 <= outp <= outbuf.Length && ndump <= NDUMP && line <= p < line + bpl <= n
    requires 0 <= w.start <= line && (line - w.start) % bpl == 0
    requires Table(data, n, w.start, p, w.b, h)
    requires Text(data, n, w.start, bpl, line, p, outbuf[..outp], outp - outp0, dumpbuf[..ndump], 0)
    modifies outbuf, dumpbuf
    ensures outp <= outp' <= outbuf.Length && outbuf[..outp] == old(outbuf[..outp])
    ensures full ==> outbuf.Length - outp0 < LineBound(bpl)
    ensures !full ==> 1 <= runlen && p + runlen <= line + bpl && ndump' <= NDUMP
    ensures !full ==>
      Text(data, n, old(w.start), bpl, line, p + runlen, outbuf[..outp'], outp' - outp0, dumpbuf[..ndump'], 0)
  {
    hide Coded;
    ghost var bs := w.start;
    var q;
    runlen, q := FindMatch(w, data, n, bpl, line, p, h);
    if runlen < NMATCH {
      full, outp', ndump' := EmitLiteral(data, n, bs, bpl, line, p, outbuf, outp, dumpbuf, ndump, outp0);
      runlen := 1;
    } else {
      full, outp' := EmitMatch(data, n, bs, bpl, line, p, q, runlen, outbuf, outp, dumpbuf, ndump, outp0);
      ndump' := 0;
      assert dumpbuf[..ndump'] == [];
      assert !full ==> Text(data, n, bs, bpl, line, p + runlen, outbuf[..outp'], outp' - outp0, dumpbuf[..ndump'], 0);
    }
  }

  /** The longest match for the bytes at p, if there is one of at least three bytes. */
  method FindMatch(w: Window, data: seq<Byte>, n: nat, bpl: nat, line: nat, p: nat, h: bv9)
    returns (runlen: nat, q: int)
    requires w.Valid() && n <= |data| && bpl > 0 && line <= p < line + bpl <= n
    requires 0 <= w.start <= line && (line - w.start) % bpl == 0
    requires Table(data, n, w.start, p, w.b, h)
    ensures p + runlen <= line + bpl
    ensures runlen < NMATCH ==> LiteralAt(data, n, w.start, bpl, p)
    ensures runlen >= NMATCH ==> MatchAt(data, n, w.start, bpl, p, runlen) && w.start + Lo(p - w.start) <= q < p &&
                                 MatchLen(data, q, p, MatchEnd(w.start, bpl, p)) == runlen
  {
    var eline := line + bpl;
    var es := if eline - p < NRUN then eline else p + NRUN;
    LineEndIs(w.start, bpl, line, p);
    runlen, q := w.Search(data, p, es, h as int);
    SearchIsExact(data, n, w.b, w.start, p, es, h, runlen);
  }

  /** One turn of the loop over a line: code position p and put what is coded into the table. */
  method CompressStep(w: Window, data: seq<Byte>, n: nat, bpl: nat, line: nat, p: nat, h: bv9,
                      outbuf: array<Byte>, outp: nat, dumpbuf: array<Byte>, ndump: nat, ghost outp0: nat)
    returns (full: bool, p': nat, h': bv9, outp': nat, ndump': nat)
    requires w.Valid() && Apart(w, outbuf, dumpbuf) && n <= |data| && bpl > 0
    requires outp0 <= outp <= outbuf.Length && ndump <= NDUMP && line <= p < line + bpl <= n
    requires 0 <= w.start <= line && (line - w.start) % bpl == 0
    requires Table(data, n, w.start, p, w.b, h)
    requires Text(data, n, w.start, bpl, line, p, outbuf[..outp], outp - outp0, dumpbuf[..ndump], 0)
    modifies w`cp, w`b, w.nxt, w.prv, w.pos, outbuf, dumpbuf
    ensures w.Valid()
    ensures outp0 <= outp' <= outbuf.Length && outbuf[..outp0] == old(outbuf[..outp0])
    ensures full ==> outbuf.Length - outp0 < LineBound(bpl)
    ensures !full ==> p < p' <= line + bpl && ndump' <= NDUMP && Table(data, n, w.start, p', w.b, h')
    ensures !full ==> Text(data, n, w.start, bpl, line, p', outbuf[..outp'], outp' - outp0, dumpbuf[..ndump'], 0)
  {
    var runlen;
    full, runlen, outp', ndump' := CompressOne(w, data, n, bpl, line, p, h, outbuf, outp, dumpbuf, ndump, outp0);
    assert outbuf[..outp0] == outbuf[..outp][..outp0];
    assert old(outbuf[..outp0]) == old(outbuf[..outp])[..outp0];
    p', h' := p, h;
    if !full {
      h' := InsertRun(w, data, n, p, runlen, h);
      p' := p + runlen;
    }
  }

  /** The literals that are still pending when a line ends. */
  method EndLine(ghost data: seq<Byte>, ghost n: nat, ghost bs: int, ghost bpl: nat, ghost line: nat,
                 outbuf: array<Byte>, outp: nat, dumpbuf: array<Byte>, ndump: nat, ghost outp0: nat)
    returns (full: bool, outp': nat)
    requires outbuf != dumpbuf && dumpbuf.Length == NDUMP && bpl > 0
    requires outp0 <= outp <= outbuf.Length && ndump <= NDUMP
    requires Text(data, n, bs, bpl, line, line + bpl, outbuf[..outp], outp - outp0, dumpbuf[..ndump], 0)
    modifies outbuf
    ensures outp0 <= outp' <= outbuf.Length && outbuf[..outp0] == old(outbuf[..outp0])
    ensures full ==> outbuf.Length - outp0 < LineBound(bpl)
    ensures !full ==> outp' - outp0 <= LineBound(bpl) && Coded(outbuf[..outp'], data, n, bs, bpl, line + bpl)
  {
    full, outp' := false, outp;
    if ndump != 0 {
      var ok;
      ok, outp' := FlushText(data, n, bs, bpl, line, line + bpl, outbuf, outp, dumpbuf, ndump, outp0);
      assert outbuf[..outp0] == outbuf[..outp][..outp0];
      assert old(outbuf[..outp0]) == old(outbuf[..outp])[..outp0];
      full := !ok;
    }
  }

  /** One line.  If its code does not fit, what has been written of it is to be discarded. */
  method CompressLine(w: Window, data: seq<Byte>, n: nat, bpl: nat, line: nat, h0: bv9,
                      outbuf: array<Byte>, outp0: nat, dumpbuf: array<Byte>)
    returns (full: bool, outp: nat, h: bv9)
    requires w.Valid() && Apart(w, outbuf, dumpbuf) && n <= |data| && bpl > 0
    requires outp0 <= outbuf.Length && line + bpl <= n
    requires 0 <= w.start <= line && (line - w.start) % bpl == 0
    requires Table(data, n, w.start, line, w.b, h0)
    requires Coded(outbuf[..outp0], data, n, w.start, bpl, line)
    modifies w`cp, w`b, w.nxt, w.prv, w.pos, outbuf, dumpbuf
    ensures w.Valid()
    ensures outp0 <= outp <= outbuf.Length && outbuf[..outp0] == old(outbuf[..outp0])
    ensures full ==> outbuf.Length - outp0 < LineBound(bpl)
    ensures !full ==> outp - outp0 <= LineBound(bpl)
    ensures !full ==> Coded(outbuf[..outp], data, n, w.start, bpl, line + bpl)
    ensures !full ==> Table(data, n, w.start, line + bpl, w.b, h)
  {
    hide Coded;
    var p: nat, ndump: nat := line, 0;
    outp, h, full := outp0, h0, false;
    ghost var front := outbuf[..outp0];
    assert dumpbuf[..ndump] == [] && data[p..p] == [];
    while p != line + bpl
      invariant w.Valid() && line <= p <= line + bpl
      invariant outp0 <= outp <= outbuf.Length && ndump <= NDUMP && outbuf[..outp0] == front
      invariant Table(data, n, w.start, p, w.b, h)
      invariant Text(data, n, w.start, bpl, line, p, outbuf[..outp], outp - outp0, dumpbuf[..ndump], 0)
      decreases line + bpl - p
    {
      full, p, h, outp, ndump := CompressStep(w, data, n, bpl, line, p, h, outbuf, outp, dumpbuf, ndump, outp0);
      if full {
        return;
      }
    }
    full, outp := EndLine(data, n, w.start, bpl, line, outbuf, outp, dumpbuf, ndump, outp0);
  }

  // ------------------------------------------------------------------- blocks and images

  lemma {:induction false} MulMod(k: nat, d: nat)
    requires d > 0
    ensures (k * d) % d == 0
    decreases k
  {
    if k > 0 {
      MulMod(k - 1, d);
      assert k * d == (k - 1) * d + d;
      AddMod((k - 1) * d, d);
    }
  }

  lemma AddMod(x: nat, d: nat)
    requires d > 0 && x % d == 0
    ensures (x + d) % d == 0
  {
    DivUnique(x + d, d, x / d + 1, 0);
  }

  /** A block that stands for nothing has no code, and the other way round. */
  lemma CodedNothing(c: seq<Byte>, data: seq<Byte>, n: nat, bs: int, bpl: nat, p: int)
    requires bpl > 0 && Coded(c, data, n, bs, bpl, p)
    ensures c == [] <==> p == bs
  {
    DecodeSpan(c, []);
    if c != [] { GreedyTail(c, data, n, bs, bpl, bs); }
  }

  /** Line number k of a block of rows lines. */
  lemma LineAt(k: nat, rows: nat, bpl: nat)
    requires bpl > 0 && k <= rows
    ensures (k * bpl) % bpl == 0 && (k + 1) * bpl == k * bpl + bpl
    ensures k < rows ==> k * bpl + bpl <= rows * bpl
  {
    MulMod(k, bpl);
    if k < rows { MulMono(bpl, k, rows); }
  }

  lemma NextLine(line0: int, lines: nat, rows: nat, bpl: nat)
    requires bpl > 0 && lines <= rows
    ensures var line, n := line0 + lines * bpl, line0 + rows * bpl;
      && (line - line0) % bpl == 0 && (line == n <==> lines == rows) && line <= n
      && (lines < rows ==> line + bpl == line0 + (lines + 1) * bpl <= n)
  {
    LineAt(lines, rows, bpl);
    if lines < rows { LineAt(lines + 1, rows, bpl); }
  }

  /** One block: as many whole lines as fit. */
  method CompressBlock(w: Window, data: seq<Byte>, n: nat, bpl: nat, line0: nat, ghost rows: nat,
                       outbuf: array<Byte>, dumpbuf: array<Byte>)
    returns (lines: nat, loutp: nat)
    requires w.Valid() && Apart(w, outbuf, dumpbuf) && n <= |data| && bpl > 0
    requires n == line0 + rows * bpl && line0 + NMATCH <= |data|
    modifies w`cp, w`b, w`start, w.nxt, w.prv, w.pos, outbuf, dumpbuf
    ensures w.Valid()
    ensures lines <= rows && loutp <= outbuf.Length
    ensures Coded(outbuf[..loutp], data, n, line0, bpl, line0 + lines * bpl)
    ensures lines < rows ==> outbuf.Length - loutp < LineBound(bpl)
  {
    hide Coded;
    w.Reset(line0);
    var h := FirstHash(data, line0);
    lines, loutp := 0, 0;
    var line := line0;
    CodedStart(outbuf[..loutp], data, n, line0, bpl);
    while line != n
      invariant w.Valid() && w.start == line0 && lines <= rows && line == line0 + lines * bpl
      invariant loutp <= outbuf.Length
      invariant Table(data, n, line0, line, w.b, h)
      invariant Coded(outbuf[..loutp], data, n, line0, bpl, line)
      decreases n - line
    {
      NextLine(line0, lines, rows, bpl);
      var full, outp;
      full, outp, h := CompressLine(w, data, n, bpl, line, h, outbuf, loutp, dumpbuf);
      if full {
        return;
      }
      lines, line, loutp := lines + 1, line + bpl, outp;
    }
    NextLine(line0, lines, rows, bpl);
  }

  /** The hash value with which a block begins. */
  method FirstHash(data: seq<Byte>, line: nat) returns (h: bv9)
    requires line + NMATCH <= |data|
    ensures h == Hash3(data, line)
  {
    h := 0;
    for k := 0 to NMATCH
      invariant h == if k == 0 then 0 else if k == 1 then HUpdate(0, data[line])
                     else if k == 2 then HUpdate(HUpdate(0, data[line]), data[line + 1]) else Hash3(data, line)
    {
      h := HUpdate(h, data[line + k]);
    }
  }

  lemma CodedStart(c: seq<Byte>, data: seq<Byte>, n: nat, bs: nat, bpl: nat)
    requires c == [] && bs <= n <= |data| && bpl > 0
    ensures Coded(c, data, n, bs, bpl, bs)
  {
    assert data[bs..bs] == [];
  }

  /** What is written for one block: where the block ends, and its code. */
  datatype Block = Block(ymax: int, code: seq<Byte>)

  /** The byte of the image at which the last block ends. */
  function End(blocks: seq<Block>, miny: int, bpl: nat): int {
    if blocks == [] then 0 else (blocks[|blocks| - 1].ymax - miny) * bpl
  }

  /** Each block stands for the lines from the end of the block before to its own end, and is
      greedy. */
  ghost predicate Written(blocks: seq<Block>, data: seq<Byte>, n: nat, miny: int, bpl: nat)
    requires bpl > 0
  {
    blocks == [] ||
    var init := blocks[..|blocks| - 1];
    && Written(init, data, n, miny, bpl)
    && 0 <= End(init, miny, bpl) < End(blocks, miny, bpl)
    && Coded(blocks[|blocks| - 1].code, data, n, End(init, miny, bpl), bpl, End(blocks, miny, bpl))
  }

  /** Decoding the blocks one by one, each from an empty window. */
  function DecodeBlocks(blocks: seq<Block>): Option<seq<Byte>> {
    if blocks == [] then Some([])
    else
      var front, last := DecodeBlocks(blocks[..|blocks| - 1]), Decode(blocks[|blocks| - 1].code, []);
      if front.None? || last.None? then None else Some(front.value + last.value)
  }

  lemma {:induction false} WrittenDecodes(blocks: seq<Block>, data: seq<Byte>, n: nat, miny: int, bpl: nat)
    requires bpl > 0 && n <= |data| && Written(blocks, data, n, miny, bpl)
    ensures 0 <= End(blocks, miny, bpl) <= n
    ensures DecodeBlocks(blocks) == Some(data[..End(blocks, miny, bpl)])
    decreases |blocks|
  {
    if blocks != [] {
      var init := blocks[..|blocks| - 1];
      WrittenDecodes(init, data, n, miny, bpl);
      var m, e := End(init, miny, bpl), End(blocks, miny, bpl);
      assert data[..m] + data[m..e] == data[..e];
    }
  }

  /** The row that block k begins with: the one that the header of the block before names. */
  function Top(blocks: seq<Block>, k: nat, miny: int): int
    requires k <= |blocks|
  {
    if k == 0 then miny else blocks[k - 1].ymax
  }

  /** Block k by itself is one that creadmemimage accepts: its header names a row below the last,
      its code is not empty and fits, is made of that many lines, and decodes to the rows from
      there to that row. */
  ghost predicate BlockIs(blocks: seq<Block>, k: nat, data: seq<Byte>, rows: nat, miny: int, bpl: nat,
                          ncblock: nat)
    requires k < |blocks|
  {
    var y0, y1 := Top(blocks, k, miny), blocks[k].ymax;
    && miny <= y0 < y1 <= miny + rows && 0 < |blocks[k].code| <= ncblock
    && Loaded(blocks[k].code, bpl, bpl, y1 - y0 - 1) == |blocks[k].code|
    && 0 <= (y0 - miny) * bpl <= (y1 - miny) * bpl <= |data|
    && Decode(blocks[k].code, []) == Some(data[(y0 - miny) * bpl..(y1 - miny) * bpl])
  }

  lemma {:induction false} BlocksAre(blocks: seq<Block>, data: seq<Byte>, rows: nat, miny: int, bpl: nat, ncblock: nat)
    requires bpl > 0 && rows * bpl <= |data| && Written(blocks, data, rows * bpl, miny, bpl)
    requires forall i :: 0 <= i < |blocks| ==> |blocks[i].code| <= ncblock
    ensures forall k :: 0 <= k < |blocks| ==> BlockIs(blocks, k, data, rows, miny, bpl, ncblock)
    ensures miny <= Top(blocks, |blocks|, miny) <= miny + rows
    decreases |blocks|
  {
    if blocks != [] {
      var j := |blocks| - 1;
      var init := blocks[..j];
      BlocksAre(init, data, rows, miny, bpl, ncblock);
      LastBlock(blocks, data, rows, miny, bpl, ncblock);
      forall k | 0 <= k < |blocks| ensures BlockIs(blocks, k, data, rows, miny, bpl, ncblock) {
        if k < j { assert BlockIs(init, k, data, rows, miny, bpl, ncblock); }
      }
    }
  }

  lemma LastBlock(blocks: seq<Block>, data: seq<Byte>, rows: nat, miny: int, bpl: nat, ncblock: nat)
    requires bpl > 0 && rows * bpl <= |data| && blocks != [] && Written(blocks, data, rows * bpl, miny, bpl)
    requires |blocks[|blocks| - 1].code| <= ncblock && miny <= Top(blocks, |blocks| - 1, miny)
    ensures BlockIs(blocks, |blocks| - 1, data, rows, miny, bpl, ncblock)
  {
    var init, last := blocks[..|blocks| - 1], blocks[|blocks| - 1];
    var y0, bs, e := Top(blocks, |blocks| - 1, miny), End(init, miny, bpl), End(blocks, miny, bpl);
    assert Coded(last.code, data, rows * bpl, bs, bpl, e);
    hide Written, Greedy;
    CodedNothing(last.code, data, rows * bpl, bs, bpl, e);
    RowsBetween(y0 - miny, last.ymax - miny, rows, bpl);
    LinesLeft(y0 - miny, last.ymax - y0, bpl);
    LinesLoad(last.code, data, rows * bpl, bs, bpl, last.ymax - y0);
  }

  /** The code of whole lines, none of whose codes crosses the end of a line, is read line by
      line. */
  lemma LinesLoad(c: seq<Byte>, data: seq<Byte>, n: nat, bs: int, bpl: nat, lines: nat)
    requires bpl > 0 && lines > 0 && Coded(c, data, n, bs, bpl, bs + lines * bpl)
    ensures Loaded(c, bpl, bpl, lines - 1) == |c|
  {
    DecodeSpan(c, []);
    LinesLeft(1, lines - 1, bpl);
    LoadsFrom(c, data, n, bs, bpl, bs, 0, bpl, lines - 1);
  }

  /** The same for the rest c of a code, k lines into the block, with room bytes missing from the
      line. */
  lemma {:induction false} LoadsFrom(c: seq<Byte>, data: seq<Byte>, n: nat, bs: int, bpl: nat, p: int, k: nat,
                                     room: nat, more: nat)
    requires bpl > 0 && Greedy(c, data, n, bs, bpl, p) && room <= bpl && p == bs + k * bpl + bpl - room
    requires Span(c) == room + more * bpl
    ensures Loaded(c, room, bpl, more) == |c|
    decreases |c|, more
  {
    hide Literals, MatchAt, LineEnd, MatchEnd;
    LinesLeft(0, more, bpl);
    if room == 0 && more > 0 {
      LinesLeft(k, 1, bpl);
      LinesLeft(1, more - 1, bpl);
      LoadsFrom(c, data, n, bs, bpl, p, k + 1, bpl, more - 1);
    } else if c != [] {
      FirstFits(c, data, n, bs, bpl, p, k, room);
      hide Greedy;
      LoadsFrom(c[FirstLen(c)..], data, n, bs, bpl, p + FirstSpan(c), k, room - FirstSpan(c), more);
    }
  }

  lemma FirstFits(c: seq<Byte>, data: seq<Byte>, n: nat, bs: int, bpl: nat, p: int, k: nat, room: nat)
    requires bpl > 0 && c != [] && Greedy(c, data, n, bs, bpl, p) && p == bs + k * bpl + bpl - room && room <= bpl
    requires Span(c) > 0 ==> room > 0
    ensures 0 < FirstSpan(c) <= room && FirstLen(c) <= |c|
    ensures Greedy(c[FirstLen(c)..], data, n, bs, bpl, p + FirstSpan(c))
    ensures Span(c) == FirstSpan(c) + Span(c[FirstLen(c)..])
  {
    GreedyTail(c, data, n, bs, bpl, p);
    MulMod(k, bpl);
    hide Greedy;
    if room > 0 { LineEndIs(bs, bpl, bs + k * bpl, p); }
  }

  lemma RowsBetween(a: int, b: int, rows: nat, bpl: nat)
    requires bpl > 0 && a * bpl < b * bpl <= rows * bpl
    ensures a < b <= rows
  {
    if b > rows { MulMono(bpl, rows, b); }
  }

  /** The blocks with every code twiddled. */
  function TwiddleBlocks(blocks: seq<Block>): (r: seq<Block>)
    requires DecodeBlocks(blocks).Some?
    ensures |r| == |blocks|
  {
    if blocks == [] then []
    else
      var last := blocks[|blocks| - 1];
      DecodedIsWellFormed(last.code, []);
      TwiddleBlocks(blocks[..|blocks| - 1]) + [Block(last.ymax, Twiddle(last.code))]
  }

  /** What decodes can be twiddled, and twiddling every block complements every byte of the
      image. */
  lemma {:induction false} TwiddledImage(blocks: seq<Block>)
    requires DecodeBlocks(blocks).Some?
    ensures DecodeBlocks(TwiddleBlocks(blocks)) == Some(FlipAll(DecodeBlocks(blocks).value))
    decreases |blocks|
  {
    if blocks != [] {
      var init, last := blocks[..|blocks| - 1], blocks[|blocks| - 1];
      TwiddledImage(init);
      DecodedIsWellFormed(last.code, []);
      TwiddleCommutes(last.code, []);
      FlipAppend(DecodeBlocks(init).value, Decode(last.code, []).value);
      var r := TwiddleBlocks(blocks);
      assert r[..|r| - 1] == TwiddleBlocks(init) && FlipAll([]) == [];
    }
  }

  /** The blocks so far stand for the first maxy - miny lines, which end before `line`. */
  ghost predicate Progress(blocks: seq<Block>, data: seq<Byte>, rows: nat, bpl: nat, miny: int, maxy: int, line: int,
                           ncblock: nat)
    requires bpl > 0
  {
    && miny <= maxy <= miny + rows && line == (maxy - miny) * bpl == End(blocks, miny, bpl)
    && (blocks != [] ==> blocks[|blocks| - 1].ymax == maxy)
    && Written(blocks, data, rows * bpl, miny, bpl)
    && forall i :: 0 <= i < |blocks| ==> |blocks[i].code| <= ncblock
  }

  lemma ProgressMore(blocks: seq<Block>, data: seq<Byte>, rows: nat, bpl: nat, miny: int, maxy: int, line: nat,
                     ncblock: nat, lines: nat, code: seq<Byte>)
    requires bpl > 0 && Progress(blocks, data, rows, bpl, miny, maxy, line, ncblock)
    requires lines <= miny + rows - maxy && code != [] && |code| <= ncblock
    requires Coded(code, data, rows * bpl, line, bpl, line + lines * bpl)
    ensures Progress(blocks + [Block(maxy + lines, code)], data, rows, bpl, miny, maxy + lines, line + lines * bpl,
                     ncblock)
    ensures lines > 0 && line + lines * bpl >= 0
  {
    CodedNothing(code, data, rows * bpl, line, bpl, line + lines * bpl);
    LinesLeft(maxy - miny, lines, bpl);
    WrittenMore(blocks, data, rows * bpl, miny, bpl, Block(maxy + lines, code));
  }

  lemma NoLines(code: seq<Byte>, data: seq<Byte>, n: nat, line: int, bpl: nat, lines: nat)
    requires bpl > 0 && code == [] && Coded(code, data, n, line, bpl, line + lines * bpl)
    ensures lines == 0
  {
    CodedNothing(code, data, n, line, bpl, line + lines * bpl);
    LinesLeft(0, lines, bpl);
  }

  /** The next block: compressed and, unless it is empty, written. */
  method NextBlock(w: Window, data: seq<Byte>, rows: nat, bpl: nat, miny: int, maxy: int, line: nat, blocks: seq<Block>,
                   outbuf: array<Byte>, dumpbuf: array<Byte>)
    returns (ok: bool, maxy': int, line': nat, blocks': seq<Block>)
    requires w.Valid() && Apart(w, outbuf, dumpbuf) && bpl > 0
    requires rows * bpl <= |data| && (bpl < NMATCH ==> rows * bpl + NMATCH - 1 <= |data|)
    requires Progress(blocks, data, rows, bpl, miny, maxy, line, outbuf.Length) && maxy < miny + rows
    modifies w`cp, w`b, w`start, w.nxt, w.prv, w.pos, outbuf, dumpbuf
    ensures w.Valid()
    ensures Progress(blocks', data, rows, bpl, miny, maxy', line', outbuf.Length)
    ensures ok ==> maxy' > maxy
    ensures !ok ==> outbuf.Length < LineBound(bpl)
  {
    hide Coded, Written;
    var n := rows * bpl;
    ghost var left := miny + rows - maxy;
    LineAt(maxy - miny, rows, bpl);
    LinesLeft(maxy - miny, left, bpl);
    var lines, loutp := CompressBlock(w, data, n, bpl, line, left, outbuf, dumpbuf);
    ghost var code := outbuf[..loutp];
    ok, maxy', line', blocks' := true, maxy, line, blocks;
    if loutp == 0 {
      NoLines(code, data, n, line, bpl, lines);
      ok := false;
    } else {
      ProgressMore(blocks, data, rows, bpl, miny, maxy, line, outbuf.Length, lines, code);
      maxy', line', blocks' := maxy + lines, line + lines * bpl, blocks + [Block(maxy + lines, outbuf[..loutp])];
    }
  }

  /** The image of rows lines is written as blocks that decode to it, unless a single line may
      not fit into a block.  The lookahead of three bytes at the start of a block reads past
      the image when a line is shorter than that. */
  method Compress(data: seq<Byte>, rows: nat, bpl: nat, miny: int, ncblock: nat) returns (ok: bool, blocks: seq<Block>)
    requires bpl > 0 && rows * bpl <= |data| && (bpl < NMATCH ==> rows * bpl + NMATCH - 1 <= |data|)
    ensures ok ==> DecodeBlocks(blocks) == Some(data[..rows * bpl])
    ensures ok ==> Top(blocks, |blocks|, miny) == miny + rows
    ensures Written(blocks, data, rows * bpl, miny, bpl)
    ensures forall i :: 0 <= i < |blocks| ==> |blocks[i].code| <= ncblock
    ensures ncblock >= LineBound(bpl) ==> ok
  {
    var n := rows * bpl;
    var outbuf := new Byte[ncblock];
    var dumpbuf := new Byte[NDUMP];
    var w := new Window();
    blocks, ok := [], true;
    var line: nat, maxy := 0, miny;
    while line != n
      invariant ok && w.Valid() && Apart(w, outbuf, dumpbuf)
      invariant Progress(blocks, data, rows, bpl, miny, maxy, line, ncblock)
      decreases miny + rows - maxy
    {
      ok, maxy, line, blocks := NextBlock(w, data, rows, bpl, miny, maxy, line, blocks, outbuf, dumpbuf);
      if !ok {
        break;
      }
    }
    LineAt(maxy - miny, rows, bpl);
    WrittenDecodes(blocks, data, n, miny, bpl);
  }

  lemma LinesLeft(done: nat, more: nat, bpl: nat)
    ensures done * bpl + more * bpl == (done + more) * bpl
    ensures more > 0 && bpl > 0 ==> more * bpl > 0
  {
  }

  lemma WrittenMore(blocks: seq<Block>, data: seq<Byte>, n: nat, miny: int, bpl: nat, b: Block)
    requires bpl > 0 && Written(blocks, data, n, miny, bpl)
    requires 0 <= End(blocks, miny, bpl) < (b.ymax - miny) * bpl
    requires Coded(b.code, data, n, End(blocks, miny, bpl), bpl, (b.ymax - miny) * bpl)
    ensures Written(blocks + [b], data, n, miny, bpl)
    ensures End(blocks + [b], miny, bpl) == (b.ymax - miny) * bpl
  {
    assert (blocks + [b])[..|blocks|] == blocks;
  }

  /** writeimage with the block size it uses: the error exit for a line that does not fit is
      never taken, and what is written decodes to the image. */
  method WriteImage(data: seq<Byte>, rows: nat, bpl: nat, miny: int) returns (blocks: seq<Block>)
    requires rows * bpl <= |data| && (bpl < NMATCH ==> rows * bpl + NMATCH - 1 <= |data|)
    ensures DecodeBlocks(blocks) == Some(data[..rows * bpl])
    ensures forall k :: 0 <= k < |blocks| ==> BlockIs(blocks, k, data, rows, miny, bpl, CompBlockSize(bpl))
    ensures if bpl == 0 then blocks == [] else Top(blocks, |blocks|, miny) == miny + rows
  {
    if bpl == 0 {
      return [];
    }
    var ok;
    ok, blocks := Compress(data, rows, bpl, miny, CompBlockSize(bpl));
    BlocksAre(blocks, data, rows, miny, bpl, CompBlockSize(bpl));
  }
}
