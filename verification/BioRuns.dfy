/** Whole sequences of calls on a buffered reader agree with an unbuffered one. */
module BioRuns {
  import opened Bytes
  import opened Bio

  datatype Op = Getc | Read(count: nat) | Line(delim: int) | Seek(n: int, base: int) | Offset

  datatype Result = Data(s: seq<Byte>) | NoLine | At(n: int) | Error

  // ------------------------------------------------------------- nothing lost or repeated

  /** Any mix of Bgetc, Bread and Brdline, on any pattern of short reads, delivers exactly the
      bytes of the file in order; Boffset is the count delivered. */
  method Deliver(bp: Biobuf, ops: seq<Op>) returns (out: seq<Byte>, at: int)
    requires bp.Stream()
    requires forall op :: op in ops ==> !op.Seek?
    modifies bp, bp.b, bp.fid
    ensures bp.Stream() && old(bp.Pos()) <= bp.Pos()
    ensures |out| == bp.Pos() - old(bp.Pos()) && (|out| > 0 ==> 0 <= old(bp.Pos()) && bp.Pos() <= |bp.fid.data|)
    ensures |out| > 0 ==> out == bp.fid.data[old(bp.Pos())..bp.Pos()]
    ensures bp.state != Binactive ==> at == old(bp.Pos()) + |out|
  {
    out := [];
    ghost var from := bp.Pos();
    for i := 0 to |ops|
      invariant bp.Stream() && 0 <= from && bp.Pos() == from + |out|
      invariant |out| > 0 ==> bp.Pos() <= |bp.fid.data|
      invariant out == if |out| > 0 then bp.fid.data[from..bp.Pos()] else []
    {
      assert !ops[i].Seek?;
      var more := DeliverOne(bp, ops[i]);
      out := out + more;
    }
    at := bp.Boffset();
  }

  /** What one call delivers. */
  method DeliverOne(bp: Biobuf, op: Op) returns (out: seq<Byte>)
    requires bp.Stream() && !op.Seek?
    modifies bp, bp.b, bp.fid
    ensures bp.Stream() && bp.Pos() == old(bp.Pos()) + |out|
    ensures |out| > 0 ==> 0 <= old(bp.Pos()) && bp.Pos() <= |bp.fid.data| && out == bp.fid.data[old(bp.Pos())..bp.Pos()]
  {
    out := [];
    match op
    case Getc =>
      var c := bp.Bgetc();
      if c >= 0 {
        out := [c];
        OneByte(bp.fid.data, old(bp.Pos()));
      }
    case Read(count) =>
      var dst := new Byte[count];
      var n := bp.Bread(dst, count);
      if n > 0 {
        out := dst[..n];
      }
    case Line(delim) =>
      var ip := bp.Brdline(delim);
      if ip >= 0 {
        out := bp.b[ip..ip + bp.rdline];
        LineText(bp, ip, old(bp.Pos()), delim);
      }
    case _ =>
  }

  lemma OneByte(data: seq<Byte>, p: int)
    requires 0 <= p < |data|
    ensures data[p..p + 1] == [data[p]]
  {
  }

  lemma LineText(bp: Biobuf, ip: int, from: int, delim: int)
    requires bp.GotLine(ip, from, delim)
    ensures bp.b[ip..ip + bp.rdline] == bp.fid.data[from..from + bp.rdline]
  {
    var line, text := bp.b[ip..ip + bp.rdline], bp.fid.data[from..from + bp.rdline];
    forall x | 0 <= x < bp.rdline ensures line[x] == text[x] {
      assert bp.b[ip + (from + x) - from] == bp.fid.data[from + x];
    }
  }

  // ---------------------------------------------------------------- the unbuffered reader

  /** The first index of delim in data, from p on and before e; e if there is none. */
  function FirstDelim(data: seq<Byte>, p: nat, e: nat, delim: int): (r: nat)
    requires p <= e <= |data|
    ensures p <= r <= e && (r < e ==> data[r] == delim)
    ensures forall j :: p <= j < r ==> data[j] != delim
    decreases e - p
  {
    if p == e || data[p] == delim then p else FirstDelim(data, p + 1, e, delim)
  }

  /** Where a seek from p goes. */
  function SeekTo(data: seq<Byte>, p: nat, op: Op): int
    requires op.Seek?
  {
    if op.base == 0 then op.n else if op.base == 1 then op.n + p else |data| + op.n
  }

  /** A displacement d that a reader with a buffer of bsize bytes never mistakes, whatever is
      in the buffer: not too far back, or so far that no sum of it with an icount wraps into
      the buffer or becomes the smallest int. */
  predicate SafeBack(d: int, bsize: nat) {
    || d > -0x8000_0000 + bsize
    || ((d + 0x8000_0000) % 0x1_0000_0000 > bsize && (d + bsize) % 0x1_0000_0000 > 2 * bsize)
  }

  /** That Bseek mistakes the displacement d when icount is ic and the whole buffer is good. */
  predicate Mistaken(d: int, bsize: nat, ic: int) {
    Loses(ic, d) || Wraps(ic, d, bsize)
  }

  lemma Congruent(x: int, r: int)
    requires 0 <= r < 0x1_0000_0000
    ensures (x - r) % 0x1_0000_0000 == 0 <==> x % 0x1_0000_0000 == r
  {
  }

  /** Being stored into an int as w is being w but for multiples of 2^32. */
  lemma WrapIs(x: int, w: int)
    requires -0x8000_0000 <= w < 0x8000_0000
    ensures Wrap32(x) == w <==> (x - w) % 0x1_0000_0000 == 0
  {
    Congruent(x + 0x8000_0000, w + 0x8000_0000);
  }

  lemma SafeMistakesNothing(d: int, bsize: nat, ic: int)
    requires 0 < bsize < 0x8000_0000 && 0 - bsize <= ic <= 0 && SafeBack(d, bsize)
    ensures !Mistaken(d, bsize, ic)
  {
    if ic + d <= -0x8000_0000 {
      var w := Wrap32(ic + d);
      WrapIs(ic + d, w);
      Congruent(d + 0x8000_0000, 0 - ic);
      if 0 <= -w <= bsize { Congruent(d + bsize, w - ic + bsize); }
    }
  }

  lemma UnsafeIsMistaken(d: int, bsize: nat) returns (ic: int)
    requires 0 < bsize < 0x8000_0000 && !SafeBack(d, bsize)
    ensures 0 - bsize <= ic <= 0 && Mistaken(d, bsize, ic)
  {
    var r, r' := (d + 0x8000_0000) % 0x1_0000_0000, (d + bsize) % 0x1_0000_0000;
    if r <= bsize {
      ic := 0 - r;
      Congruent(d + 0x8000_0000, r);
      WrapIs(ic + d, -0x8000_0000);
    } else {
      ic := if r' <= bsize then 0 else bsize - r';
      Congruent(d + bsize, r');
      WrapIs(ic + d, ic + r' - bsize);
    }
  }

  /** The condition is exact: an unsafe displacement is mistaken at some fill of the buffer. */
  lemma SafeIsExact(d: int, bsize: nat)
    requires 0 < bsize < 0x8000_0000
    ensures SafeBack(d, bsize) <==> forall ic :: 0 - bsize <= ic <= 0 ==> !Mistaken(d, bsize, ic)
  {
    if SafeBack(d, bsize) {
      forall ic | 0 - bsize <= ic <= 0 ensures !Mistaken(d, bsize, ic) { SafeMistakesNothing(d, bsize, ic); }
    } else {
      var ic := UnsafeIsMistaken(d, bsize);
    }
  }

  /** What Bseek would find.  Good: the window, all of it bytes of the file.  GoodAtEnd: the same,
      and a read has noticed the end of the file.  StaleAtEnd: the end was noticed by Bgetc,
      which sets gbuf to the front of the buffer; Bseek forgets the buffer.  Trusted: another
      Bgetc has made the reader active again, and Bseek trusts the whole buffer.  Dead: Bgetc or
      Bread has met an error, and every later call fails. */
  datatype Buffered = Good | GoodAtEnd | StaleAtEnd | Trusted | Dead

  /** A seek that is sure to go right: it stays inside the file's coordinates; its displacement
      is safe, unless it counts from the end of the file; and it does not go back into a buffer
      that is only trusted. */
  predicate Sane(data: seq<Byte>, max: nat, p: nat, m: Buffered, op: Op) {
    op.Seek? ==>
      && 0 <= op.base <= 2 && IsVlong(op.n)
      && 0 <= SeekTo(data, p, op) && IsVlong(SeekTo(data, p, op)) && IsVlong(p)
      && (op.base != 2 ==> SafeBack(SeekTo(data, p, op) - p, max)
                           && (m == Trusted ==> p <= SeekTo(data, p, op) || SeekTo(data, p, op) < p - max))
  }

  /** What Bseek would find after the call op at byte p of the file. */
  function Next(data: seq<Byte>, p: nat, m: Buffered, op: Op): (m': Buffered)
    ensures m != Dead ==> m' != Dead
  {
    match op
    case Getc =>
      if p < |data| || m == GoodAtEnd then Good else if m == StaleAtEnd then Trusted else StaleAtEnd
    case Read(count) =>
      if count == 0 || p + count <= |data| then m else if m.Good? || m.GoodAtEnd? then GoodAtEnd else StaleAtEnd
    case Line(_) => Good
    case Seek(_, base) => if m == Trusted && base != 2 && SeekTo(data, p, op) == p then Trusted else Good
    case Offset => m
  }

  /** The call on a reader without a buffer, at byte p of the file: its result and the new
      position.  A line may be at most max bytes long. */
  function Plain(data: seq<Byte>, max: nat, p: nat, op: Op): (Result, nat)
    requires op.Seek? ==> SeekTo(data, p, op) >= 0
  {
    match op
    case Getc => if p < |data| then (Data([data[p]]), p + 1) else (At(BEOF), p)
    case Read(count) =>
      var e := if p > |data| then p else Min(p + count, |data|);
      (Data(if e > p then data[p..e] else []), e)
    case Line(delim) =>
      if p >= |data| then (NoLine, p)
      else
        var e := Min(p + max, |data|);
        var r := FirstDelim(data, p, e, delim);
        if r == e then (NoLine, p) else (Data(data[p..r + 1]), r + 1)
    case Seek(_, _) => (At(SeekTo(data, p, op)), SeekTo(data, p, op))
    case Offset => (At(p), p)
  }

  /** Every call of the run is sane, judged where it is made; a Brdline may have met an error and
      found no line.  Nothing is asked of the calls on a dead reader. */
  predicate AllSane(data: seq<Byte>, max: nat, p: nat, m: Buffered, ops: seq<Op>)
    decreases |ops|
  {
    ops == [] || m == Dead ||
    (Sane(data, max, p, m, ops[0])
     && AllSane(data, max, Plain(data, max, p, ops[0]).1, Next(data, p, m, ops[0]), ops[1..])
     && (ops[0].Line? ==> AllSane(data, max, p, Good, ops[1..])))
  }

  function PlainRun(data: seq<Byte>, max: nat, p: nat, m: Buffered, ops: seq<Op>): seq<Result>
    requires m != Dead && AllSane(data, max, p, m, ops)
    decreases |ops|
  {
    if ops == [] then []
    else
      var r := Plain(data, max, p, ops[0]);
      [r.0] + PlainRun(data, max, r.1, Next(data, p, m, ops[0]), ops[1..])
  }

  /** Where a run is: the byte of the file that comes next, and what the buffer is good for. */
  datatype Spot = Spot(p: nat, m: Buffered)

  /** What a dead reader answers. */
  function DeadAnswer(op: Op): Result {
    match op
    case Read(_) => Error
    case Line(_) => NoLine
    case _ => At(BEOF)
  }

  /** The call op in a run at spot s answers r and leads to spot t; `bad` says that a read of the
      descriptor has failed during the call.  Then Bgetc reports the end of the file, Bread the
      bytes before the error, or the error if there are none, and the reader is dead; Brdline
      finds no line and consumes nothing. */
  predicate Answers(data: seq<Byte>, max: nat, s: Spot, op: Op, bad: bool, r: Result, t: Spot) {
    if s.m == Dead then !bad && r == DeadAnswer(op) && t == s
    else if !bad then
      (op.Seek? ==> SeekTo(data, s.p, op) >= 0)
      && (r, t.p) == Plain(data, max, s.p, op) && t.m == Next(data, s.p, s.m, op)
    else
      match op
      case Getc => r == At(BEOF) && t == Spot(s.p, Dead)
      case Read(count) =>
        && s.p <= t.p < s.p + count && (t.p > s.p ==> t.p <= |data|) && t.m == Dead
        && r == if t.p > s.p then Data(data[s.p..t.p]) else Error
      case Line(_) => r == NoLine && t == Spot(s.p, Good)
      case _ => false
  }

  /** The answers out to the calls ops, with the spots before and after them. */
  ghost predicate Ran(data: seq<Byte>, max: nat, ops: seq<Op>, bad: seq<bool>, out: seq<Result>, trail: seq<Spot>) {
    && |bad| == |out| == |ops| && |trail| == |ops| + 1
    && forall i {:trigger ops[i]} :: 0 <= i < |ops| ==>
      Answers(data, max, trail[i], ops[i], bad[i], out[i], trail[i + 1])
  }

  /** How many calls have met an error. */
  function Errors(bad: seq<bool>): nat {
    if bad == [] then 0 else Errors(bad[..|bad| - 1]) + if bad[|bad| - 1] then 1 else 0
  }

  lemma {:induction false} NoErrors(bad: seq<bool>, i: nat)
    requires Errors(bad) == 0 && i < |bad|
    ensures !bad[i]
    decreases |bad|
  {
    if i < |bad| - 1 { NoErrors(bad[..|bad| - 1], i); }
  }

  /** Without errors the answers are those of the unbuffered reader. */
  lemma {:induction false} PlainAnswers(data: seq<Byte>, max: nat, ops: seq<Op>, bad: seq<bool>, out: seq<Result>,
                                        trail: seq<Spot>)
    requires Ran(data, max, ops, bad, out, trail) && trail[0].m != Dead && forall i :: 0 <= i < |bad| ==> !bad[i]
    requires AllSane(data, max, trail[0].p, trail[0].m, ops)
    ensures out == PlainRun(data, max, trail[0].p, trail[0].m, ops)
    decreases |ops|
  {
    if ops != [] {
      assert Answers(data, max, trail[0], ops[0], bad[0], out[0], trail[1]);
      PlainAnswers(data, max, ops[1..], bad[1..], out[1..], trail[1..]);
    }
  }

  /** Once Bgetc or Bread has met an error, every later call fails. */
  lemma {:induction false} DeadAnswers(data: seq<Byte>, max: nat, ops: seq<Op>, bad: seq<bool>, out: seq<Result>,
                                       trail: seq<Spot>, i: nat, j: nat)
    requires Ran(data, max, ops, bad, out, trail) && i < j < |ops| && bad[i] && !ops[i].Line?
    ensures out[j] == DeadAnswer(ops[j]) && trail[j].m == Dead
    decreases j
  {
    assert Answers(data, max, trail[j - 1], ops[j - 1], bad[j - 1], out[j - 1], trail[j]);
    if i < j - 1 { DeadAnswers(data, max, ops, bad, out, trail, i, j - 1); }
    assert Answers(data, max, trail[j], ops[j], bad[j], out[j], trail[j + 1]);
  }

  /** The state of a run. */
  ghost predicate Running(bp: Biobuf, m: Buffered)
    reads bp, bp.b, bp.fid
  {
    && bp.Framed() && 0 <= bp.Pos()
    && match m {
         case Good => bp.Window() && bp.state == Bractive
         case GoodAtEnd => bp.Window() && bp.state == Bracteof
         case StaleAtEnd => bp.state == Bracteof && bp.gbuf == BUNGETSIZE
         case Trusted => bp.state == Bractive && bp.gbuf == BUNGETSIZE && |bp.fid.data| <= bp.Pos()
         case Dead => bp.state == Binactive
       }
  }

  /** Any sequence of Bgetc, Bread, Brdline, Bseek and Boffset gives the results that an
      unbuffered reader gives, whatever the pattern of short reads, up to the first error; and
      where a read fails the caller learns of it as `Answers` says. */
  method Run(bp: Biobuf, ops: seq<Op>, ghost m0: Buffered)
    returns (out: seq<Result>, ghost bad: seq<bool>, ghost trail: seq<Spot>)
    requires Running(bp, m0) && AllSane(bp.fid.data, bp.bsize, bp.Pos(), m0, ops)
    modifies bp, bp.b, bp.fid
    ensures Ran(bp.fid.data, bp.bsize, ops, bad, out, trail) && trail[0] == Spot(old(bp.Pos()), m0)
    ensures bp.Pos() == trail[|ops|].p && Running(bp, trail[|ops|].m)
    ensures bp.fid.errors == old(bp.fid.errors) + Errors(bad)
    ensures bp.fid.errors == old(bp.fid.errors) && m0 != Dead ==>
      out == PlainRun(bp.fid.data, bp.bsize, old(bp.Pos()), m0, ops)
  {
    out, bad, trail := [], [], [Spot(bp.Pos(), m0)];
    for i := 0 to |ops|
      invariant |trail| == i + 1 && Running(bp, trail[i].m) && bp.Pos() == trail[i].p
      invariant AllSane(bp.fid.data, bp.bsize, trail[i].p, trail[i].m, ops[i..])
      invariant Ran(bp.fid.data, bp.bsize, ops[..i], bad, out, trail) && trail[0] == Spot(old(bp.Pos()), m0)
      invariant bp.fid.errors == old(bp.fid.errors) + Errors(bad)
    {
      ghost var rest := ops[i..];
      assert rest[0] == ops[i] && rest[1..] == ops[i + 1..];
      ghost var was := bp.fid.errors;
      var r;
      ghost var t;
      r, t := RunOne(bp, ops[i], trail[i].m);
      ghost var e := bp.fid.errors > was;
      RanMore(bp.fid.data, bp.bsize, ops, i, bad, out, trail, e, r, t);
      out, bad, trail := out + [r], bad + [e], trail + [t];
    }
    assert ops[..|ops|] == ops;
    if bp.fid.errors == old(bp.fid.errors) && m0 != Dead {
      forall i | 0 <= i < |bad| ensures !bad[i] { NoErrors(bad, i); }
      PlainAnswers(bp.fid.data, bp.bsize, ops, bad, out, trail);
    }
  }

  lemma RanMore(data: seq<Byte>, max: nat, ops: seq<Op>, i: nat, bad: seq<bool>, out: seq<Result>, trail: seq<Spot>,
                e: bool, r: Result, t: Spot)
    requires i < |ops| && Ran(data, max, ops[..i], bad, out, trail) && Answers(data, max, trail[i], ops[i], e, r, t)
    ensures Ran(data, max, ops[..i + 1], bad + [e], out + [r], trail + [t])
    ensures Errors(bad + [e]) == Errors(bad) + if e then 1 else 0
  {
    hide Answers;
    forall j | 0 <= j < i + 1
      ensures Answers(data, max, (trail + [t])[j], ops[..i + 1][j], (bad + [e])[j], (out + [r])[j],
                      (trail + [t])[j + 1])
    {
      if j < i { assert ops[..i + 1][j] == ops[..i][j]; }
    }
    assert (bad + [e])[..|bad|] == bad;
  }

  method RunOne(bp: Biobuf, op: Op, ghost m: Buffered) returns (r: Result, ghost t: Spot)
    requires Running(bp, m) && (m == Dead || Sane(bp.fid.data, bp.bsize, bp.Pos(), m, op))
    modifies bp, bp.b, bp.fid
    ensures old(bp.fid.errors) <= bp.fid.errors <= old(bp.fid.errors) + 1
    ensures Answers(bp.fid.data, bp.bsize, Spot(old(bp.Pos()), m), op, bp.fid.errors > old(bp.fid.errors), r, t)
    ensures t.p == bp.Pos() && Running(bp, t.m)
  {
    match op {
      case Getc => r, t := RunGetc(bp, m);
      case Read(count) => r, t := RunRead(bp, count, m);
      case Line(delim) => r, t := RunLine(bp, delim, m);
      case Seek(_, _) => r, t := RunSeek(bp, op, m);
      case Offset =>
        var n := bp.Boffset();
        r, t := At(n), Spot(bp.Pos(), m);
    }
  }

  method RunGetc(bp: Biobuf, ghost m: Buffered) returns (r: Result, ghost t: Spot)
    requires Running(bp, m)
    modifies bp, bp.b, bp.fid
    ensures old(bp.fid.errors) <= bp.fid.errors <= old(bp.fid.errors) + 1
    ensures Answers(bp.fid.data, bp.bsize, Spot(old(bp.Pos()), m), Getc, bp.fid.errors > old(bp.fid.errors), r, t)
    ensures t.p == bp.Pos() && Running(bp, t.m)
  {
    t := Spot(bp.Pos(), m);
    var c := bp.Bgetc();
    r := if c < 0 then At(BEOF) else Data([c]);
    t := Spot(bp.Pos(), if bp.state == Binactive then Dead else Next(bp.fid.data, t.p, m, Getc));
  }

  method RunRead(bp: Biobuf, count: nat, ghost m: Buffered) returns (r: Result, ghost t: Spot)
    requires Running(bp, m)
    modifies bp, bp.b, bp.fid
    ensures old(bp.fid.errors) <= bp.fid.errors <= old(bp.fid.errors) + 1
    ensures Answers(bp.fid.data, bp.bsize, Spot(old(bp.Pos()), m), Read(count),
                    bp.fid.errors > old(bp.fid.errors), r, t)
    ensures t.p == bp.Pos() && Running(bp, t.m)
  {
    t := Spot(bp.Pos(), m);
    var dst := new Byte[count];
    var n := bp.Bread(dst, count);
    r := if n < 0 then Error else Data(dst[..n]);
    t := Spot(bp.Pos(), if bp.state == Binactive then Dead else Next(bp.fid.data, t.p, m, Read(count)));
  }

  method RunLine(bp: Biobuf, delim: int, ghost m: Buffered) returns (r: Result, ghost t: Spot)
    requires Running(bp, m)
    modifies bp, bp.b, bp.fid
    ensures old(bp.fid.errors) <= bp.fid.errors <= old(bp.fid.errors) + 1
    ensures Answers(bp.fid.data, bp.bsize, Spot(old(bp.Pos()), m), Line(delim),
                    bp.fid.errors > old(bp.fid.errors), r, t)
    ensures t.p == bp.Pos() && Running(bp, t.m)
  {
    var ip := bp.Brdline(delim);
    r := NoLine;
    if ip >= 0 {
      r := Data(bp.b[ip..ip + bp.rdline]);
    }
    LineResult(bp, ip, old(bp.Pos()), delim, m == Dead || bp.fid.errors > old(bp.fid.errors), r);
    t := Spot(bp.Pos(), if m == Dead then Dead else Good);
  }

  lemma LineResult(bp: Biobuf, ip: int, from: nat, delim: int, error: bool, r: Result)
    requires 0 <= bp.Pos() && (if ip >= 0 then bp.GotLine(ip, from, delim) && bp.Pos() == from + bp.rdline
                               else bp.NoLine(from, delim, error) && bp.Pos() == from)
    requires r == if ip >= 0 then Data(bp.b[ip..ip + bp.rdline]) else NoLine
    ensures ip >= 0 || !error ==> (r, bp.Pos()) == Plain(bp.fid.data, bp.bsize, from, Line(delim))
  {
    if ip >= 0 {
      LineText(bp, ip, from, delim);
      LineFound(bp, ip, from, delim);
    } else if !error {
      LineMissing(bp, delim);
    }
  }

  method RunSeek(bp: Biobuf, op: Op, ghost m: Buffered) returns (r: Result, ghost t: Spot)
    requires Running(bp, m) && op.Seek? && (m == Dead || Sane(bp.fid.data, bp.bsize, bp.Pos(), m, op))
    modifies bp, bp.b, bp.fid
    ensures bp.fid.errors == old(bp.fid.errors)
    ensures Answers(bp.fid.data, bp.bsize, Spot(old(bp.Pos()), m), op, false, r, t)
    ensures t.p == bp.Pos() && Running(bp, t.m)
  {
    ghost var p := bp.Pos();
    if m != Dead {
      assert SeekTo(bp.fid.data, p, op) == bp.Target(op.n, op.base);
      if op.base != 2 { NoMistake(bp, SeekTo(bp.fid.data, p, op) - p); }
    }
    var n := bp.Bseek(op.n, op.base);
    r, t := At(n), Spot(bp.Pos(), if m == Dead then Dead else Next(bp.fid.data, p, m, op));
  }

  /** A safe displacement is not mistaken, whatever the buffer holds. */
  lemma NoMistake(bp: Biobuf, d: int)
    requires bp.Framed() && SafeBack(d, bp.bsize)
    ensures !bp.WrapsIntoWindow(d) && !bp.LosesWindow(d)
  {
    SafeMistakesNothing(d, bp.bsize, bp.icount);
  }

  /** A displacement of 2^32 back is mistaken: the caller is told that it worked, and is still
      where it was. */
  method SeekTooFarBack(bp: Biobuf) returns (n: int)
    requires bp.Window() && bp.state == Bractive && 0x1_0000_0000 <= bp.Pos() && IsVlong(bp.Pos())
    modifies bp, bp.fid
    ensures n == old(bp.Pos()) - 0x1_0000_0000 && bp.Pos() == old(bp.Pos()) != n
  {
    n := bp.Bseek(-0x1_0000_0000, 1);
  }

  /** A displacement of 2^31 back, an int, is mistaken on every file: the caller is told that
      the reader is at the start, and icount is the smallest int. */
  method SeekLosesWindow(fid: File, bsize: nat) returns (bp: Biobuf, n: int)
    requires fid.pos == 0 && 0 < bsize < 0x8000_0000
    modifies fid
    ensures n == 0 && bp.icount == -0x8000_0000 && !bp.Stream()
  {
    bp := new Biobuf(fid, bsize);
    n := bp.Bseek(0x7FFF_FFFF, 0);
    n := bp.Bseek(1, 1);
    n := bp.Bseek(0, 0);
  }

  /** The one kind of seek that a run excludes for what the buffer holds, a safe one back into a
      buffer that is only trusted: it reports success, and what comes next is what is in the
      buffer.  It is right if and only if that happens to be the bytes of the file. */
  method SeekTrusted(bp: Biobuf, t: int) returns (n: int)
    requires Running(bp, Trusted) && SafeBack(t - bp.Pos(), bp.bsize) && bp.Pos() - bp.bsize <= t < bp.Pos()
    requires bp.InVlong(t, 0)
    modifies bp, bp.fid
    ensures n == t == bp.Pos() && bp.offset == old(bp.offset) && bp.icount == t - bp.offset
    ensures bp.Stream() <==>
      0 <= t && bp.offset <= |bp.fid.data|
      && bp.b[bp.b.Length + bp.icount..] == bp.fid.data[t..bp.offset]
  {
    NoMistake(bp, t - bp.Pos());
    n := bp.Bseek(t, 0);
    HeldIs(bp);
  }

  /** What is buffered is what comes next in the file. */
  lemma HeldIs(bp: Biobuf)
    requires bp.InPlace(bp.fid.pos, bp.bsize) && 0 < bp.bsize < 0x8000_0000
    requires bp.b.Length == BUNGETSIZE + bp.bsize && bp.icount < 0
    ensures bp.Stream() <==>
      0 <= bp.Pos() && bp.offset <= |bp.fid.data|
      && bp.b[bp.b.Length + bp.icount..] == bp.fid.data[bp.Pos()..bp.offset]
  {
    if 0 <= bp.Pos() && bp.offset <= |bp.fid.data| {
      var held, text := bp.b[bp.b.Length + bp.icount..], bp.fid.data[bp.Pos()..bp.offset];
      if bp.Tail(-bp.icount) {
        forall x | 0 <= x < |held| ensures held[x] == text[x] {
          assert text[x] == bp.fid.data[bp.Pos() + x];
        }
      }
      if held == text {
        forall j {:trigger bp.fid.data[j]} | bp.Pos() <= j < bp.offset
          ensures bp.b[bp.b.Length - bp.offset + j] == bp.fid.data[j]
        {
          assert held[j - bp.Pos()] == text[j - bp.Pos()];
        }
      }
    }
  }

  /** After two calls of Bgetc at the end of the file a seek back into the buffer is mistaken
      whenever something else is in the buffer there: the caller is told that the reader is at
      the start, and the byte it would get next is not the first of the file. */
  method SeekAfterTwoEnds(bp: Biobuf) returns (n: int)
    requires bp.Window() && bp.state != Binactive && 0 < |bp.fid.data| <= bp.bsize
    requires bp.b[bp.b.Length - |bp.fid.data|] != bp.fid.data[0] && IsVlong(bp.Pos())
    modifies bp, bp.b, bp.fid
    ensures bp.fid.errors == old(bp.fid.errors) ==>
      n == bp.Pos() == 0 && bp.icount == -|bp.fid.data| && !bp.Stream()
    ensures bp.fid.errors == old(bp.fid.errors) ==> bp.b[bp.b.Length + bp.icount] != bp.fid.data[0]
  {
    n := bp.Bseek(0, 2);
    var x := bp.b.Length - |bp.fid.data|;
    ghost var whole := bp.b[BUNGETSIZE..];
    var c := bp.Bgetc();
    c := bp.Bgetc();
    assert bp.b[x] == whole[x - BUNGETSIZE];
    n := bp.Bseek(0, 0);
  }

  /** A safe seek with a good buffer: it goes where it is asked to, unless that is before the
      start of the file.  Then the reader takes itself to be at -1 and says so, with an
      empty buffer, while the descriptor is still where the last read left it. */
  method SeekBeforeStart(bp: Biobuf, n0: int, base: int) returns (n: int, at: int)
    requires bp.Seekable() && bp.state != Binactive && 0 <= base <= 2 && bp.InVlong(n0, base)
    requires base != 2 ==> SafeBack(bp.Target(n0, base) - bp.Pos(), bp.bsize)
    modifies bp, bp.fid
    ensures bp.Stream() <==> old(bp.Target(n0, base)) >= 0
    ensures old(bp.Target(n0, base)) >= 0 ==> n == at == bp.Pos() == old(bp.Target(n0, base))
    ensures old(bp.Target(n0, base)) < 0 ==>
      n == at == bp.offset == -1 && bp.icount == 0 && bp.state == Bractive && bp.fid.pos == old(bp.fid.pos)
  {
    if base != 2 { NoMistake(bp, bp.Target(n0, base) - bp.Pos()); }
    n := bp.Bseek(n0, base);
    at := bp.Boffset();
  }

  lemma LineFound(bp: Biobuf, ip: int, from: nat, delim: int)
    requires bp.GotLine(ip, from, delim)
    ensures Plain(bp.fid.data, bp.bsize, from, Line(delim)) ==
            (Data(bp.fid.data[from..from + bp.rdline]), from + bp.rdline)
  {
    var e := Min(from + bp.bsize, |bp.fid.data|);
    var r := FirstDelim(bp.fid.data, from, e, delim);
    assert bp.fid.data[from + bp.rdline - 1] == delim;
  }

  lemma LineMissing(bp: Biobuf, delim: int)
    requires 0 <= bp.Pos() && bp.NoLine(bp.Pos(), delim, false)
    ensures Plain(bp.fid.data, bp.bsize, bp.Pos(), Line(delim)) == (NoLine, bp.Pos())
  {
    if bp.Pos() < |bp.fid.data| {
      var e := Min(bp.Pos() + bp.bsize, |bp.fid.data|);
      var r := FirstDelim(bp.fid.data, bp.Pos(), e, delim);
    }
  }
}
