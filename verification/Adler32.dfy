/** The Adler-32 checksum (libfreetype/adler32.c).  The reference is section 2.2 of RFC 1950,
    which reduces both sums after every byte. */
module Adler32 {
  import opened Bytes

  const BASE := 65521   // the largest prime below 65536
  const NMAX := 5552

  /** The two sums; the checksum is s2 * 65536 + s1. */
  datatype Sums = Sums(s1: nat, s2: nat)

  // ----------------------------------------------------------------- the reference

  /** The update of RFC 1950, byte by byte. */
  function Update(a: Sums, buf: seq<Byte>): Sums
    decreases |buf|
  {
    if buf == [] then a
    else
      var n := |buf| - 1;
      var p := Update(a, buf[..n]);
      var s1 := (p.s1 + buf[n]) % BASE;
      Sums(s1, (p.s2 + s1) % BASE)
  }

  function Join(a: Sums): nat { a.s2 * 65536 + a.s1 }

  function Parts(adler: nat): Sums { Sums(adler % 65536, adler / 65536 % 65536) }

  /** Checksumming a concatenation is checksumming its parts one after the other. */
  lemma {:induction false} UpdateAppend(a: Sums, x: seq<Byte>, y: seq<Byte>)
    ensures Update(a, x + y) == Update(Update(a, x), y)
    decreases |y|
  {
    if y == [] {
      assert x + y == x;
    } else {
      var n := |y| - 1;
      assert (x + y)[..|x + y| - 1] == x + y[..n];
      UpdateAppend(a, x, y[..n]);
    }
  }

  // -------------------------------------------------------- sums that are not reduced

  /** The same without reducing. */
  function Grow(a: Sums, buf: seq<Byte>): Sums
    decreases |buf|
  {
    if buf == [] then a
    else
      var n := |buf| - 1;
      var p := Grow(a, buf[..n]);
      Sums(p.s1 + buf[n], p.s2 + (p.s1 + buf[n]))
  }

  function Reduce(a: Sums): Sums { Sums(a.s1 % BASE, a.s2 % BASE) }

  lemma ModAdd(x: nat, y: nat)
    ensures (x % BASE + y) % BASE == (x + y) % BASE && (x % BASE + y % BASE) % BASE == (x + y) % BASE
  {
  }

  /** Reducing late is reducing early, except that sums of no bytes are not reduced. */
  lemma {:induction false} GrowThenReduce(a: Sums, buf: seq<Byte>)
    ensures Reduce(Grow(a, buf)) == Update(Reduce(a), buf)
    decreases |buf|
  {
    if buf != [] {
      var n := |buf| - 1;
      GrowThenReduce(a, buf[..n]);
      ReduceMore(Grow(a, buf[..n]), buf[n]);
      hide Reduce;
    }
  }

  lemma ReduceMore(g: Sums, b: Byte)
    ensures var s1 := (Reduce(g).s1 + b) % BASE;
      Reduce(Sums(g.s1 + b, g.s2 + (g.s1 + b))) == Sums(s1, (Reduce(g).s2 + s1) % BASE)
  {
    ModAdd(g.s1, b);
    ModAdd(g.s2, g.s1 + b);
  }

  // ------------------------------------------------------------- how large they can get

  const WORD := 0x1_0000_0000

  type Word = x: int | 0 <= x < WORD

  /** The largest s2 after n bytes, when neither sum was more than m before them. */
  function Peak(m: nat, n: nat): nat {
    if n == 0 then m else Peak(m, n - 1) + m + 255 * n
  }

  lemma {:induction false} PeakIs(m: nat, n: nat)
    ensures 2 * Peak(m, n) == 2 * m * (n + 1) + 255 * n * (n + 1)
  {
    if n > 0 {
      PeakIs(m, n - 1);
      PeakStep(m, n);
    }
  }

  lemma PeakStep(m: nat, n: nat)
    ensures 2 * m * (n + 1) + 255 * n * (n + 1) == 2 * m * n + 255 * (n - 1) * n + 2 * m + 2 * 255 * n
  {
    var x := n - 1;
    assert 255 * n * (n + 1) == 255 * n * n + 255 * n;
    assert 255 * x * n == 255 * n * n - 255 * n;
    assert 2 * m * (n + 1) == 2 * m * n + 2 * m;
  }

  lemma {:induction false} PeakGrows(m: nat, n: nat, k: nat)
    requires n <= k
    ensures Peak(m, n) <= Peak(m, k)
    decreases k - n
  {
    if n < k { PeakGrows(m, n + 1, k); }
  }

  lemma {:induction false} GrowBound(a: Sums, m: nat, buf: seq<Byte>)
    requires a.s1 <= m && a.s2 <= m
    ensures Grow(a, buf).s1 <= m + 255 * |buf| && Grow(a, buf).s2 <= Peak(m, |buf|)
    decreases |buf|
  {
    if buf != [] { GrowBound(a, m, buf[..|buf| - 1]); }
  }

  /** The peak is reached by bytes that are all 255. */
  lemma {:induction false} PeakReached(m: nat, n: nat)
    ensures var g := Grow(Sums(m, m), seq(n, _ => 255)); g.s1 == m + 255 * n && g.s2 == Peak(m, n)
  {
    if n > 0 {
      PeakReached(m, n - 1);
      assert seq(n, _ => 255)[..n - 1] == seq(n - 1, _ => 255);
    }
  }

  /** NMAX is the largest number of bytes whose sums can be left unreduced in 32 bits. */
  lemma NmaxIsLargest(n: nat)
    ensures n <= NMAX <==>
      forall a: Sums, buf: seq<Byte> :: a.s1 < BASE && a.s2 < BASE && |buf| == n ==> Grow(a, buf).s2 < WORD
  {
    if n <= NMAX {
      forall a: Sums, buf: seq<Byte> | a.s1 < BASE && a.s2 < BASE && |buf| == n ensures Grow(a, buf).s2 < WORD {
        Fits(a, buf);
      }
    } else {
      var a, buf: seq<Byte> := Sums(BASE - 1, BASE - 1), seq(n, _ => 255);
      PeakReached(BASE - 1, n);
      PeakGrows(BASE - 1, NMAX + 1, n);
      PeakIs(BASE - 1, NMAX + 1);
      assert a.s1 < BASE && a.s2 < BASE && |buf| == n && Grow(a, buf).s2 >= WORD;
    }
  }

  /** Up to NMAX bytes fit even if the sums were not reduced before, as in a starting value
      that is no checksum. */
  lemma Fits(a: Sums, buf: seq<Byte>)
    requires a.s1 < 65536 && a.s2 < 65536 && |buf| <= NMAX
    ensures Grow(a, buf).s1 < WORD && Grow(a, buf).s2 < WORD
  {
    GrowBound(a, 65535, buf);
    PeakGrows(65535, |buf|, NMAX);
    PeakIs(65535, NMAX);
  }

  // ------------------------------------------------------------------------ the code itself

  /** The sums of the chunk that begins at p0, as far as p. */
  ghost predicate Summing(buf: seq<Byte>, a: Sums, p0: int, p: int, s1: int, s2: int) {
    && 0 <= p0 <= p <= |buf| && p <= p0 + NMAX && a.s1 < 65536 && a.s2 < 65536
    && 0 <= s1 && 0 <= s2 && Sums(s1, s2) == Grow(a, buf[p0..p])
  }

  /** DO1: one byte is added to the first sum, and that to the second.  Neither leaves 32 bits. */
  method Do1(buf: seq<Byte>, p: nat, s1: Word, s2: Word, ghost a: Sums, ghost p0: nat) returns (s1': Word, s2': Word)
    requires Summing(buf, a, p0, p, s1, s2) && p < |buf| && p < p0 + NMAX
    ensures Summing(buf, a, p0, p + 1, s1', s2')
  {
    assert buf[p0..p + 1][..p - p0] == buf[p0..p];
    Fits(a, buf[p0..p + 1]);
    s1' := s1 + buf[p];
    s2' := s2 + s1';
  }

  /** DO2, DO4, DO8 and DO16: the next two, four, eight and sixteen bytes. */
  method Do2(buf: seq<Byte>, p: nat, s1: Word, s2: Word, ghost a: Sums, ghost p0: nat) returns (s1': Word, s2': Word)
    requires Summing(buf, a, p0, p, s1, s2) && p + 2 <= |buf| && p + 2 <= p0 + NMAX
    ensures Summing(buf, a, p0, p + 2, s1', s2')
  {
    s1', s2' := Do1(buf, p, s1, s2, a, p0);
    s1', s2' := Do1(buf, p + 1, s1', s2', a, p0);
  }

  method Do4(buf: seq<Byte>, p: nat, s1: Word, s2: Word, ghost a: Sums, ghost p0: nat) returns (s1': Word, s2': Word)
    requires Summing(buf, a, p0, p, s1, s2) && p + 4 <= |buf| && p + 4 <= p0 + NMAX
    ensures Summing(buf, a, p0, p + 4, s1', s2')
  {
    s1', s2' := Do2(buf, p, s1, s2, a, p0);
    s1', s2' := Do2(buf, p + 2, s1', s2', a, p0);
  }

  method Do8(buf: seq<Byte>, p: nat, s1: Word, s2: Word, ghost a: Sums, ghost p0: nat) returns (s1': Word, s2': Word)
    requires Summing(buf, a, p0, p, s1, s2) && p + 8 <= |buf| && p + 8 <= p0 + NMAX
    ensures Summing(buf, a, p0, p + 8, s1', s2')
  {
    s1', s2' := Do4(buf, p, s1, s2, a, p0);
    s1', s2' := Do4(buf, p + 4, s1', s2', a, p0);
  }

  method Do16(buf: seq<Byte>, p: nat, s1: Word, s2: Word, ghost a: Sums, ghost p0: nat) returns (s1': Word, s2': Word)
    requires Summing(buf, a, p0, p, s1, s2) && p + 16 <= |buf| && p + 16 <= p0 + NMAX
    ensures Summing(buf, a, p0, p + 16, s1', s2')
  {
    s1', s2' := Do8(buf, p, s1, s2, a, p0);
    s1', s2' := Do8(buf, p + 8, s1', s2', a, p0);
  }

  /** One chunk of k bytes, reduced at its end. */
  method Chunk(buf: seq<Byte>, p0: nat, k0: nat, t1: Word, t2: Word) returns (p: nat, s1: Word, s2: Word)
    requires p0 + k0 <= |buf| && 0 < k0 <= NMAX && t1 < 65536 && t2 < 65536
    ensures p == p0 + k0 && s1 < BASE && s2 < BASE && Sums(s1, s2) == Update(Sums(t1, t2), buf[p0..p])
  {
    ghost var a := Sums(t1, t2);
    var k := k0;
    p, s1, s2 := p0, t1, t2;
    while k >= 16
      invariant p + k == p0 + k0 && Summing(buf, a, p0, p, s1, s2)
    {
      s1, s2 := Do16(buf, p, s1, s2, a, p0);
      p, k := p + 16, k - 16;
    }
    while k != 0
      invariant p + k == p0 + k0 && Summing(buf, a, p0, p, s1, s2)
    {
      s1, s2 := Do1(buf, p, s1, s2, a, p0);
      p, k := p + 1, k - 1;
    }
    GrowThenReduce(a, buf[p0..p]);
    UpdateReduced(a, buf[p0..p]);
    s1 := s1 % BASE;
    s2 := s2 % BASE;
  }

  /** One byte is enough for the starting sums to be reduced. */
  lemma {:induction false} UpdateReduced(a: Sums, buf: seq<Byte>)
    requires buf != []
    ensures Update(Reduce(a), buf) == Update(a, buf)
    decreases |buf|
  {
    var n := |buf| - 1;
    if n > 0 {
      UpdateReduced(a, buf[..n]);
    } else {
      assert Update(a, buf[..n]) == a && Update(Reduce(a), buf[..n]) == Reduce(a);
      FirstReduces(a, buf[0]);
    }
  }

  lemma FirstReduces(a: Sums, b: Byte)
    ensures (a.s1 % BASE + b) % BASE == (a.s1 + b) % BASE
    ensures (a.s2 % BASE + (a.s1 + b) % BASE) % BASE == (a.s2 + (a.s1 + b) % BASE) % BASE
  {
    ModAdd(a.s1, b);
    ModAdd(a.s2, (a.s1 + b) % BASE);
  }

  /** adler32, for every starting value: the checksum of RFC 1950, and 1 for no buffer at all. */
  method Adler(adler: Word, buf: Option<seq<Byte>>) returns (r: Word)
    ensures r == if buf.None? then 1 else Join(Update(Parts(adler), buf.value))
  {
    var s1: Word, s2: Word := adler % 65536, adler / 65536 % 65536;
    if buf.None? {
      return 1;
    }
    var b := buf.value;
    var p: nat, len: nat := 0, |b|;
    while len > 0
      invariant p + len == |b| && s1 < 65536 && s2 < 65536 && Sums(s1, s2) == Update(Parts(adler), b[..p])
    {
      var k := if len < NMAX then len else NMAX;
      len := len - k;
      ghost var p0 := p;
      p, s1, s2 := Chunk(b, p, k, s1, s2);
      UpdateAppend(Parts(adler), b[..p0], b[p0..p]);
      assert b[..p] == b[..p0] + b[p0..p];
    }
    assert b[..p] == b;
    r := s2 * 65536 + s1;
  }

  function Sum(buf: seq<Byte>): nat {
    if buf == [] then 0 else buf[0] + Sum(buf[1..])
  }

  /** Every byte as many times as there are bytes from it on. */
  function Weighted(buf: seq<Byte>): nat {
    if buf == [] then 0 else |buf| * buf[0] + Weighted(buf[1..])
  }

  lemma {:induction false} SumMore(buf: seq<Byte>, b: Byte)
    ensures Sum(buf + [b]) == Sum(buf) + b
    ensures Weighted(buf + [b]) == Weighted(buf) + Sum(buf) + b
    decreases |buf|
  {
    var t := buf + [b];
    if buf == [] {
      assert t == [b] && [b][1..] == [];
    } else {
      assert t[1..] == buf[1..] + [b] && t[0] == buf[0];
      SumMore(buf[1..], b);
      assert |t| * t[0] == |buf| * buf[0] + buf[0];
    }
  }

  lemma {:induction false} GrowIs(buf: seq<Byte>)
    ensures Grow(Sums(1, 0), buf) == Sums(1 + Sum(buf), |buf| + Weighted(buf))
    decreases |buf|
  {
    if buf != [] {
      var n := |buf| - 1;
      GrowIs(buf[..n]);
      SumMore(buf[..n], buf[n]);
      assert buf == buf[..n] + [buf[n]];
    }
  }

  lemma One()
    ensures Parts(1) == Sums(1, 0) == Reduce(Sums(1, 0))
  {
  }

  /** The checksum of a buffer in one formula: the low half is one and the sum of the bytes, the
      high half their number and each byte times how many there are from it on, both modulo the
      prime. */
  lemma ClosedForm(buf: seq<Byte>)
    ensures Join(Update(Parts(1), buf)) == (|buf| + Weighted(buf)) % 65521 * 65536 + (1 + Sum(buf)) % 65521
  {
    hide Update, Grow, Sum, Weighted;
    One();
    hide Parts;
    GrowThenReduce(Sums(1, 0), buf);
    GrowIs(buf);
  }

  /** Two calls in a row checksum the concatenation. */
  lemma Chain(adler: Word, x: seq<Byte>, y: seq<Byte>)
    ensures Join(Update(Parts(adler), x)) < WORD
    ensures Join(Update(Parts(adler), x + y)) == Join(Update(Parts(Join(Update(Parts(adler), x))), y))
  {
    UpdateAppend(Parts(adler), x, y);
    SumsSmall(Parts(adler), x);
    PartsJoin(Update(Parts(adler), x));
  }

  lemma PartsJoin(u: Sums)
    requires u.s1 < 65536 && u.s2 < 65536
    ensures Join(u) < WORD && Parts(Join(u)) == u
  {
    var j := Join(u);
    assert j / 65536 == u.s2;
  }

  lemma {:induction false} SumsSmall(a: Sums, buf: seq<Byte>)
    requires a.s1 < 65536 && a.s2 < 65536
    ensures Update(a, buf).s1 < 65536 && Update(a, buf).s2 < 65536
  {
  }
}
