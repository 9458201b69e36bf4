/** The format of compressed image blocks (libdraw/computil.c:4-8), with the decoder that
    gives it its meaning, and the operations of libdraw/computil.c on it. */
module ImageCode {
  import opened Bytes

  const NMATCH := 3        // shortest match possible
  const NRUN := NMATCH + 31 // longest match possible
  const NMEM := 1024       // window size
  const NDUMP := 128       // maximum length of dump
  const NCBLOCK := 6000    // size of compressed blocks

  // ------------------------------------------------------------------------- the decoder

  /** Repeat len bytes from dist back, one at a time, so that the copy may overlap itself. */
  function Copy(out: seq<Byte>, dist: nat, len: nat): seq<Byte>
    requires 1 <= dist <= |out|
    decreases len
  {
    if len == 0 then out else Copy(out + [out[|out| - dist]], dist, len - 1)
  }

  function RunLen(b: Byte): nat { b / 4 + NMATCH }

  function Dist(b: Byte, b': Byte): nat { b % 4 * 256 + b' + 1 }

  /** What the code c appends to the bytes out of the block so far; None if c is not a code. */
  function Decode(c: seq<Byte>, out: seq<Byte>): Option<seq<Byte>>
    decreases |c|
  {
    if c == [] then Some(out)
    else if c[0] >= 128 then
      var k := c[0] - 127;
      if |c| < 1 + k then None else Decode(c[1 + k..], out + c[1..1 + k])
    else if |c| < 2 || Dist(c[0], c[1]) > |out| then None
    else Decode(c[2..], Copy(out, Dist(c[0], c[1]), RunLen(c[0])))
  }

  lemma {:induction false} DecodeAppend(c: seq<Byte>, d: seq<Byte>, out: seq<Byte>)
    requires Decode(c, out).Some?
    ensures Decode(c + d, out) == Decode(d, Decode(c, out).value)
    decreases |c|
  {
    if c == [] {
      assert c + d == d;
    } else if c[0] >= 128 {
      var k := c[0] - 127;
      assert (c + d)[1 + k..] == c[1 + k..] + d;
      assert (c + d)[1..1 + k] == c[1..1 + k];
      DecodeAppend(c[1 + k..], d, out + c[1..1 + k]);
    } else {
      assert (c + d)[2..] == c[2..] + d;
      DecodeAppend(c[2..], d, Copy(out, Dist(c[0], c[1]), RunLen(c[0])));
    }
  }

  /** Copying from a place where the text repeats gives the text. */
  lemma {:induction false} CopyRepeats(text: seq<Byte>, lo: nat, p: nat, dist: nat, len: nat)
    requires 1 <= dist && lo + dist <= p && p + len <= |text|
    requires text[p - dist..p - dist + len] == text[p..p + len]
    ensures Copy(text[lo..p], dist, len) == text[lo..p + len]
    decreases len
  {
    if len > 0 {
      var a, b := text[p - dist..p - dist + len], text[p..p + len];
      assert a[0] == b[0];
      assert text[lo..p] + [text[p]] == text[lo..p + 1];
      assert text[p + 1 - dist..p + 1 - dist + (len - 1)] == a[1..] == b[1..] == text[p + 1..p + 1 + (len - 1)];
      CopyRepeats(text, lo, p + 1, dist, len - 1);
    }
  }

  /** A first byte from 128 on says how many bytes follow as they are. */
  lemma DumpCode(text: seq<Byte>, c: seq<Byte>, out: seq<Byte>)
    requires 1 <= |text| <= 128
    ensures Decode([127 + |text|] + text + c, out) == Decode(c, out + text)
  {
    var d := [127 + |text|] + text + c;
    assert d[0] == 127 + |text| && d[1..1 + |text|] == text && d[1 + |text|..] == c;
  }

  /** The first byte of a match has five bits of length, from 3 on, and two of the distance;
      the second has the other eight, and the distance counts from 1. */
  lemma MatchCode(len: nat, dist: nat, c: seq<Byte>, out: seq<Byte>)
    requires 3 <= len <= 34 && 1 <= dist <= 1024
    ensures Decode([(len - 3) * 4 + (dist - 1) / 256, (dist - 1) % 256] + c, out) ==
            if dist > |out| then None else Decode(c, Copy(out, dist, len))
  {
    hide Copy;
    var b, b' := (len - 3) * 4 + (dist - 1) / 256, (dist - 1) % 256;
    var d: seq<Byte> := [b, b'] + c;
    MatchBytes(len, dist - 1);
    assert d[0] == b && d[1] == b' && d[2..] == c;
  }

  lemma MatchBytes(len: nat, offs: nat)
    requires 3 <= len <= 34 && 0 <= offs < 1024
    ensures var b := (len - 3) * 4 + offs / 256;
      b < 128 && RunLen(b) == len && Dist(b, offs % 256) == offs + 1
  {
  }

  /** The bytes of a match are each equal to the one as far back. */
  lemma {:induction false} CopyIs(out: seq<Byte>, dist: nat, len: nat, i: nat)
    requires 1 <= dist <= |out| && i < |out| + len
    ensures |Copy(out, dist, len)| == |out| + len
    ensures Copy(out, dist, len)[i] == if i < |out| then out[i] else Copy(out, dist, len)[i - dist]
    decreases len
  {
    if len > 0 {
      var more := out + [out[|out| - dist]];
      CopyIs(more, dist, len - 1, i);
      if i >= |out| { CopyIs(more, dist, len - 1, i - dist); }
    }
  }

  // ------------------------------------------------------------------ _twiddlecompressed

  function Flip(b: Byte): Byte { 255 - b }

  /** Flipping is the exclusive or with 0xFF: every bit is inverted. */
  lemma FlipBits(b: Byte, k: nat)
    requires k < 8
    ensures Flip(b) / Pow2(k) % 2 == 1 - b / Pow2(k) % 2
  {
    if k == 0 { FlipBit(b, 1, 256); }
    else if k == 1 { FlipBit(b, 2, 128); }
    else if k == 2 { FlipBit(b, 4, 64); }
    else if k == 3 { FlipBit(b, 8, 32); }
    else if k == 4 { FlipBit(b, 16, 16); }
    else if k == 5 { FlipBit(b, 32, 8); }
    else if k == 6 { FlipBit(b, 64, 4); }
    else { FlipBit(b, 128, 2); }
    Powers(k);
  }

  lemma Powers(k: nat)
    requires k < 8
    ensures Pow2(k) == if k < 4 then (if k < 2 then 1 + k else 4 * k - 4)
                       else if k < 6 then 16 * k - 48 else 64 * k - 320
  {
    assert Pow2(0) == 1 && Pow2(1) == 2 * Pow2(0) && Pow2(2) == 2 * Pow2(1) && Pow2(3) == 2 * Pow2(2);
    assert Pow2(4) == 2 * Pow2(3) && Pow2(5) == 2 * Pow2(4) && Pow2(6) == 2 * Pow2(5) && Pow2(7) == 2 * Pow2(6);
  }

  lemma FlipBit(b: Byte, p: nat, e: nat)
    requires p > 0 && p * e == 256 && e % 2 == 0
    ensures Flip(b) / p % 2 == 1 - b / p % 2
  {
    var q, r := b / p, b % p;
    Turned(b, p, e, q, r);
    DivUnique(255 - b, p, e - 1 - q, p - 1 - r);
  }

  lemma Turned(b: Byte, p: nat, e: nat, q: nat, r: nat)
    requires p > 0 && p * e == 256 && q == b / p && r == b % p
    ensures 255 - b == p * (e - 1 - q) + (p - 1 - r)
  {
    assert b == p * q + r;
    assert p * (e - 1 - q) == p * e - p - p * q;
  }

  function FlipAll(s: seq<Byte>): (r: seq<Byte>)
    ensures |r| == |s|
  {
    seq(|s|, i requires 0 <= i < |s| => Flip(s[i]))
  }

  /** The length of the first code of c, and that code with its literals flipped. */
  function FirstLen(c: seq<Byte>): (k: nat)
    requires c != []
    ensures k >= 2
  {
    if c[0] >= 128 then c[0] - 126 else 2
  }

  function FirstFlipped(c: seq<Byte>): (f: seq<Byte>)
    requires c != [] && FirstLen(c) <= |c|
    ensures |f| == FirstLen(c)
  {
    if c[0] >= 128 then [c[0]] + FlipAll(c[1..FirstLen(c)]) else c[..2]
  }

  /** How many bytes the first code of c stands for. */
  function FirstSpan(c: seq<Byte>): nat
    requires c != []
  {
    if c[0] >= 128 then c[0] - 127 else RunLen(c[0])
  }

  /** c is made of whole byte codes, whatever they say. */
  predicate WellFormed(c: seq<Byte>)
    decreases |c|
  {
    c == [] || (FirstLen(c) <= |c| && WellFormed(c[FirstLen(c)..]))
  }

  /** Flip the literal bytes of c and nothing else. */
  function Twiddle(c: seq<Byte>): (r: seq<Byte>)
    requires WellFormed(c)
    ensures |r| == |c|
    decreases |c|
  {
    if c == [] then [] else FirstFlipped(c) + Twiddle(c[FirstLen(c)..])
  }

  lemma {:induction false} DecodedIsWellFormed(c: seq<Byte>, out: seq<Byte>)
    requires Decode(c, out).Some?
    ensures WellFormed(c)
    decreases |c|
  {
    if c == [] {
    } else if c[0] >= 128 {
      var k := c[0] - 127;
      assert FirstLen(c) == 1 + k;
      DecodedIsWellFormed(c[1 + k..], out + c[1..1 + k]);
    } else {
      DecodedIsWellFormed(c[2..], Copy(out, Dist(c[0], c[1]), RunLen(c[0])));
    }
  }

  lemma {:induction false} CopyFlips(out: seq<Byte>, dist: nat, len: nat)
    requires 1 <= dist <= |out|
    ensures Copy(FlipAll(out), dist, len) == FlipAll(Copy(out, dist, len))
    decreases len
  {
    if len > 0 {
      assert FlipAll(out) + [FlipAll(out)[|out| - dist]] == FlipAll(out + [out[|out| - dist]]);
      CopyFlips(out + [out[|out| - dist]], dist, len - 1);
    }
  }

  /** Twiddling goes code by code. */
  lemma TwiddleCons(f: seq<Byte>, rest: seq<Byte>)
    requires f != [] && FirstLen(f) == |f| && WellFormed(rest)
    ensures WellFormed(f + rest) && Twiddle(f + rest) == FirstFlipped(f) + Twiddle(rest)
  {
    var c := f + rest;
    assert c[0] == f[0] && c[|f|..] == rest;
    if f[0] >= 128 { assert c[1..|f|] == f[1..|f|]; } else { assert c[..2] == f[..2]; }
  }

  lemma DecodeCons(f: seq<Byte>, rest: seq<Byte>, out: seq<Byte>)
    requires f != [] && FirstLen(f) == |f|
    ensures Decode(f + rest, out) ==
      if f[0] >= 128 then Decode(rest, out + f[1..])
      else if Dist(f[0], f[1]) > |out| then None
      else Decode(rest, Copy(out, Dist(f[0], f[1]), RunLen(f[0])))
  {
    var c := f + rest;
    assert c[0] == f[0] && c[1] == f[1] && c[|f|..] == rest;
    if f[0] >= 128 { assert c[1..1 + (f[0] - 127)] == f[1..]; }
  }

  lemma FlipAppend(a: seq<Byte>, b: seq<Byte>)
    ensures FlipAll(a) + FlipAll(b) == FlipAll(a + b)
  {
  }

  lemma TakeDrop(c: seq<Byte>, k: nat)
    requires k <= |c|
    ensures c[..k] + c[k..] == c
  {
  }

  /** Flipping the literals of a code flips every byte it stands for; a code that does not
      decode still does not. */
  lemma {:induction false} TwiddleCommutes(c: seq<Byte>, out: seq<Byte>)
    requires WellFormed(c)
    ensures Decode(Twiddle(c), FlipAll(out)) ==
            if Decode(c, out).None? then None else Some(FlipAll(Decode(c, out).value))
    decreases |c|
  {
    if c != [] {
      var k := FirstLen(c);
      var f, rest := c[..k], c[k..];
      TakeDrop(c, k);
      DecodeCons(f, rest, out);
      DecodeCons(FirstFlipped(c), Twiddle(rest), FlipAll(out));
      if c[0] >= 128 {
        assert FirstFlipped(c)[1..] == FlipAll(f[1..]);
        FlipAppend(out, f[1..]);
        TwiddleCommutes(rest, out + f[1..]);
      } else if Dist(c[0], c[1]) <= |out| {
        CopyFlips(out, Dist(c[0], c[1]), RunLen(c[0]));
        TwiddleCommutes(rest, Copy(out, Dist(c[0], c[1]), RunLen(c[0])));
      }
    }
  }

  lemma FirstTwice(c: seq<Byte>)
    requires c != [] && FirstLen(c) <= |c|
    ensures FirstLen(FirstFlipped(c)) == FirstLen(c) && FirstFlipped(FirstFlipped(c)) == c[..FirstLen(c)]
  {
  }

  /** Twiddling is its own inverse. */
  lemma {:induction false} TwiddleTwice(c: seq<Byte>)
    requires WellFormed(c)
    ensures WellFormed(Twiddle(c)) && Twiddle(Twiddle(c)) == c
    decreases |c|
  {
    if c != [] {
      var k := FirstLen(c);
      TwiddleTwice(c[k..]);
      FirstTwice(c);
      TwiddleCons(FirstFlipped(c), Twiddle(c[k..]));
      TakeDrop(c, k);
    }
  }

  /** The inner loop of _twiddlecompressed. */
  method FlipRun(buf: array<Byte>, i: nat, k: nat)
    requires i + k <= buf.Length
    modifies buf
    ensures buf[i..i + k] == FlipAll(old(buf[i..i + k]))
    ensures buf[..i] == old(buf[..i]) && buf[i + k..] == old(buf[i + k..])
  {
    for j := 0 to k
      invariant forall x :: 0 <= x < buf.Length ==>
        buf[x] == if i <= x < i + j then Flip(old(buf[x])) else old(buf[x])
    {
      buf[i + j] := Flip(buf[i + j]);
    }
  }

  /** One turn of the outer loop of _twiddlecompressed. */
  method TwiddleCode(buf: array<Byte>, start: nat) returns (i: nat)
    requires start < buf.Length && start + FirstLen(buf[start..]) <= buf.Length
    modifies buf
    ensures i == start + FirstLen(old(buf[start..]))
    ensures buf[start..i] == FirstFlipped(old(buf[start..]))
    ensures buf[..start] == old(buf[..start]) && buf[i..] == old(buf[i..])
  {
    var c := buf[start];
    i := start + 1;
    if c >= 128 {
      i := FlipDump(buf, start);
    } else {
      i := i + 1;
      assert buf[start..][..2] == buf[start..i];
    }
  }

  method TwiddleTurn(buf: array<Byte>, start: nat) returns (i: nat)
    requires start < buf.Length && start + FirstLen(buf[start..]) <= buf.Length
    modifies buf
    ensures var left := old(buf[start..]);
      start < i <= buf.Length && buf[..i] == old(buf[..start]) + FirstFlipped(left)
        && buf[i..] == left[FirstLen(left)..]
  {
    ghost var left := buf[start..];
    i := TwiddleCode(buf, start);
    assert buf[..i] == buf[..start] + buf[start..i];
    assert old(buf[start + FirstLen(left)..]) == left[FirstLen(left)..];
  }

  /** A dump: flip the bytes that follow its code byte. */
  method FlipDump(buf: array<Byte>, start: nat) returns (i: nat)
    requires start < buf.Length && buf[start] >= 128 && start + FirstLen(buf[start..]) <= buf.Length
    modifies buf
    ensures i == start + FirstLen(old(buf[start..]))
    ensures buf[start..i] == FirstFlipped(old(buf[start..]))
    ensures buf[..start] == old(buf[..start]) && buf[i..] == old(buf[i..])
  {
    ghost var was := buf[..];
    var k := buf[start] - 128 + 1;
    FlipRun(buf, start + 1, k);
    i := start + 1 + k;
    FlippedAt(was, buf[..], start, i);
  }

  lemma FlippedAt(was: seq<Byte>, now: seq<Byte>, start: nat, i: nat)
    requires start < i <= |was| == |now| && was[start] >= 128 && i == start + FirstLen(was[start..])
    requires now[..start + 1] == was[..start + 1] && now[start + 1..i] == FlipAll(was[start + 1..i])
    ensures now[start..i] == FirstFlipped(was[start..]) && now[..start] == was[..start]
  {
    hide FlipAll;
    assert now[..start] == now[..start + 1][..start] == was[..start + 1][..start];
    assert now[start] == now[..start + 1][start] == was[start];
    assert was[start..][1..i - start] == was[start + 1..i];
    assert now[start..i] == [now[start]] + now[start + 1..i];
  }

  /** _twiddlecompressed: flip the literal bytes in place. */
  method TwiddleCompressed(buf: array<Byte>)
    requires WellFormed(buf[..])
    modifies buf
    ensures buf[..] == Twiddle(old(buf[..]))
  {
    ghost var was := buf[..];
    ghost var done, left := [], was;
    var i := 0;
    while i < buf.Length
      invariant 0 <= i <= buf.Length && buf[..i] == done && buf[i..] == left
      invariant WellFormed(left) && Twiddle(was) == done + Twiddle(left)
    {
      ghost var first, rest := FirstFlipped(left), left[FirstLen(left)..];
      Regroup(done, first, Twiddle(rest));
      i := TwiddleTurn(buf, i);
      done, left := done + first, rest;
    }
    assert buf[..] == done + left;
  }

  // --------------------------------------------------------------------- codes and lines

  /** How many bytes of c a reader takes that needs room bytes for the line it is on and bpl for
      each of `more` others, and wants no code to cross the end of a line; -1 if it can not. */
  function Loaded(c: seq<Byte>, room: nat, bpl: nat, more: nat): (k: int)
    ensures -1 <= k <= |c|
    decreases |c|, more
  {
    if room == 0 && more == 0 then 0
    else if room == 0 then if bpl == 0 then -1 else Loaded(c, bpl, bpl, more - 1)
    else if c == [] || FirstLen(c) > |c| || FirstSpan(c) > room then -1
    else
      var k := Loaded(c[FirstLen(c)..], room - FirstSpan(c), bpl, more);
      if k < 0 then -1 else FirstLen(c) + k
  }

  /** What the output has before a block makes no difference to a code that decodes without it. */
  lemma {:induction false} DecodeBehind(g: seq<Byte>, c: seq<Byte>, out: seq<Byte>)
    requires Decode(c, out).Some?
    ensures Decode(c, g + out) == Some(g + Decode(c, out).value)
    decreases |c|
  {
    if c == [] {
    } else if c[0] >= 128 {
      var k := c[0] - 127;
      Regroup(g, out, c[1..1 + k]);
      DecodeBehind(g, c[1 + k..], out + c[1..1 + k]);
    } else {
      CopyBehind(g, out, Dist(c[0], c[1]), RunLen(c[0]));
      DecodeBehind(g, c[2..], Copy(out, Dist(c[0], c[1]), RunLen(c[0])));
    }
  }

  lemma {:induction false} CopyBehind(g: seq<Byte>, out: seq<Byte>, dist: nat, len: nat)
    requires 1 <= dist <= |out|
    ensures Copy(g + out, dist, len) == g + Copy(out, dist, len)
    decreases len
  {
    if len > 0 {
      var v := out[|out| - dist];
      assert (g + out)[|g + out| - dist] == v;
      Regroup(g, out, [v]);
      CopyBehind(g, out + [v], dist, len - 1);
    }
  }

  /** Twiddling changes neither the lengths of the codes nor what they stand for. */
  lemma {:induction false} TwiddledLoads(c: seq<Byte>, room: nat, bpl: nat, more: nat)
    requires WellFormed(c)
    ensures Loaded(Twiddle(c), room, bpl, more) == Loaded(c, room, bpl, more)
    decreases |c|, more
  {
    if room == 0 && more == 0 {
    } else if room == 0 {
      if bpl > 0 { TwiddledLoads(c, bpl, bpl, more - 1); }
    } else if c != [] {
      var d, k := Twiddle(c), FirstLen(c);
      assert d[0] == c[0] && d[k..] == Twiddle(c[k..]);
      if FirstSpan(c) <= room { TwiddledLoads(c[k..], room - FirstSpan(c), bpl, more); }
    }
  }

  // ------------------------------------------------------------------------ _compblocksize

  /** The bytes one line of bpl bytes takes at most: one dump for every 128 of them. */
  function LineBound(bpl: nat): nat { bpl + (bpl + NDUMP - 1) / NDUMP }

  function CompBlockSize(bpl: nat): (r: nat)
    ensures r >= LineBound(bpl) && r >= 6000 && r >= 2 * bpl && (r == 6000 || r == 2 * bpl)
  {
    if 2 * bpl < NCBLOCK then NCBLOCK else 2 * bpl
  }
}
