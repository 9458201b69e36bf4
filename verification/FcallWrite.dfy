/** convS2M and sizeS2M (lib9/convS2M.c) as code: a message is written to a buffer. */
module NinePWriter {
  import opened Bytes
  import opened NineP

  /** The size of one field, as sizeS2M adds it up. */
  function Size(f: Field): nat {
    match f
    case F8(_) => 1
    case F16(_) => 2
    case F32(_) => 4
    case F64(_) => 8
    case FStr(s) => 2 + |Chars(s)|
    case FQid(_) => 13
    case FData(d) => 4 + |d|
    case FStat(d) => 2 + |d|
    case FNames(ss) => 2 + SizeStrs(ss)
    case FQids(qs) => 2 + |qs| * 13
  }

  function SizeStrs(ss: seq<Option<Text>>): nat {
    if ss == [] then 0 else SizeStrs(ss[..|ss| - 1]) + 2 + |Chars(ss[|ss| - 1])|
  }

  function SizeAll(fs: seq<Field>): nat {
    if fs == [] then 0 else SizeAll(fs[..|fs| - 1]) + Size(fs[|fs| - 1])
  }

  lemma {:induction false} EncStrsMore(ss: seq<Option<Text>>, s: Option<Text>)
    ensures EncStrs(ss + [s]) == EncStrs(ss) + EncStr(s)
    decreases |ss|
  {
    var t := ss + [s];
    if ss == [] {
      assert t[1..] == [] && EncStrs(t) == EncStr(s) + EncStrs([]);
    } else {
      assert t[0] == ss[0] && t[1..] == ss[1..] + [s];
      EncStrsMore(ss[1..], s);
    }
  }

  lemma {:induction false} EncQidsMore(qs: seq<Qid>, q: Qid)
    requires QidRange(q) && forall i :: 0 <= i < |qs| ==> QidRange(qs[i])
    ensures EncQids(qs + [q]) == EncQids(qs) + EncQid(q)
    decreases |qs|
  {
    var t := qs + [q];
    if qs == [] {
      assert t[1..] == [] && EncQids(t) == EncQid(q) + EncQids([]);
    } else {
      assert t[0] == qs[0] && t[1..] == qs[1..] + [q];
      EncQidsMore(qs[1..], q);
    }
  }

  lemma {:induction false} EncAllMore(fs: seq<Field>, f: Field)
    requires Typed(f) && forall i :: 0 <= i < |fs| ==> Typed(fs[i])
    ensures EncAll(fs + [f]) == EncAll(fs) + Enc(f)
    decreases |fs|
  {
    var t := fs + [f];
    if fs == [] {
      assert t[1..] == [] && EncAll(t) == Enc(f) + EncAll([]);
    } else {
      assert t[0] == fs[0] && t[1..] == fs[1..] + [f];
      EncAllMore(fs[1..], f);
    }
  }

  lemma {:induction false} SizeStrsIs(ss: seq<Option<Text>>)
    ensures |EncStrs(ss)| == SizeStrs(ss)
    decreases |ss|
  {
    if ss != [] {
      var n := |ss| - 1;
      SizeStrsIs(ss[..n]);
      EncStrsMore(ss[..n], ss[n]);
      assert ss == ss[..n] + [ss[n]];
    }
  }

  lemma {:induction false} SizeQidsIs(qs: seq<Qid>)
    requires forall i :: 0 <= i < |qs| ==> QidRange(qs[i])
    ensures |EncQids(qs)| == 13 * |qs|
    decreases |qs|
  {
    if qs != [] { SizeQidsIs(qs[1..]); }
  }

  lemma SizeIs(f: Field)
    requires Typed(f)
    ensures |Enc(f)| == Size(f)
  {
    if f.FNames? { SizeStrsIs(f.names); }
    if f.FQids? { SizeQidsIs(f.qids); }
  }

  lemma {:induction false} SizeAllIs(fs: seq<Field>)
    requires forall i :: 0 <= i < |fs| ==> Typed(fs[i])
    ensures |EncAll(fs)| == SizeAll(fs)
    decreases |fs|
  {
    if fs != [] {
      var n := |fs| - 1;
      SizeAllIs(fs[..n]);
      EncAllMore(fs[..n], fs[n]);
      SizeIs(fs[n]);
      assert fs == fs[..n] + [fs[n]];
    }
  }

  /** Unsigned 32-bit arithmetic. */
  function Wrap(n: nat): (r: nat)
    ensures r < 0x1_0000_0000 && (n < 0x1_0000_0000 ==> r == n)
  {
    n % 0x1_0000_0000
  }

  lemma WrapAdd(a: nat, b: nat)
    ensures Wrap(Wrap(a) + b) == Wrap(a + b)
  {
  }

  lemma SizeStrsMore(ss: seq<Option<Text>>, i: nat)
    requires i < |ss|
    ensures SizeStrs(ss[..i + 1]) == SizeStrs(ss[..i]) + 2 + |Chars(ss[i])|
  {
    assert ss[..i + 1][..i] == ss[..i];
  }

  lemma SizeAllMore(fs: seq<Field>, i: nat)
    requires i < |fs|
    ensures SizeAll(fs[..i + 1]) == SizeAll(fs[..i]) + Size(fs[i])
  {
    assert fs[..i + 1][..i] == fs[..i];
  }

  /** Adding up the names of a Twalk. */
  method AddStrs(n0: nat, ss: seq<Option<Text>>) returns (n: nat)
    ensures n == Wrap(n0 + SizeStrs(ss))
  {
    n := Wrap(n0);
    for i := 0 to |ss|
      invariant n == Wrap(n0 + SizeStrs(ss[..i]))
    {
      SizeStrsMore(ss, i);
      WrapAdd(n0 + SizeStrs(ss[..i]), 2 + |Chars(ss[i])|);
      n := Wrap(n + (2 + |Chars(ss[i])|));
    }
    assert ss[..|ss|] == ss;
  }

  method AddField(n0: nat, f: Field) returns (n: nat)
    ensures n == Wrap(n0 + Size(f))
  {
    if f.FNames? {
      n := AddStrs(n0 + 2, f.names);
    } else {
      n := Wrap(n0 + Size(f));
    }
  }

  /** sizeS2M: the size of the message, in unsigned 32-bit arithmetic; 0 if it is none. */
  method SizeS2M(f: Fcall) returns (n: nat)
    requires Layout(f.kind).Some? ==> IsMessage(f)
    ensures n == if Layout(f.kind).None? then 0 else Wrap(WireSize(f))
  {
    var layout := Layout(f.kind);
    n := 0;
    if layout.Some? {
      n := AddFields(f.fields);
      SizeAllIs(f.fields);
    }
  }

  method AddFields(fs: seq<Field>) returns (n: nat)
    ensures n == Wrap(HEADER + SizeAll(fs))
  {
    n := HEADER;
    for i := 0 to |fs|
      invariant n == Wrap(HEADER + SizeAll(fs[..i]))
    {
      n := AddField(n, fs[i]);
      SizeAllMore(fs, i);
      WrapAdd(HEADER + SizeAll(fs[..i]), Size(fs[i]));
    }
    assert fs[..|fs|] == fs;
  }

  // ------------------------------------------------------------------------ the buffer

  /** `PBIT8`, `PBIT16`, `PBIT32` and `PBIT64`: the k low bytes of v, lowest first. */
  method PBit(buf: array<Byte>, p: nat, v: nat, k: nat) returns (p': nat)
    requires p + k <= buf.Length
    modifies buf
    ensures p' == p + k && Wrote(old(buf[..]), buf[..], p, Le(v, k))
  {
    var x := v;
    for j := 0 to k
      invariant Le(v, k) == buf[p..p + j] + Le(x, k - j)
      invariant forall i :: 0 <= i < buf.Length && (i < p || p + j <= i) ==> buf[i] == old(buf[i])
    {
      ghost var done := buf[p..p + j];
      assert done + ([x % 256] + Le(x / 256, k - j - 1)) == done + [x % 256] + Le(x / 256, k - j - 1);
      buf[p + j] := x % 256;
      assert buf[p..p + j + 1] == done + [x % 256];
      x := x / 256;
    }
    p' := p + k;
  }

  /** memmove into the buffer. */
  method CopyIn(buf: array<Byte>, p: nat, d: Text) returns (p': nat)
    requires p + |d| <= buf.Length
    modifies buf
    ensures p' == p + |d| && Wrote(old(buf[..]), buf[..], p, d)
  {
    forall i | 0 <= i < |d| {
      buf[p + i] := d[i];
    }
    p' := p + |d|;
  }

  /** A count of k bytes, and the bytes it counts. */
  method PutBytes(buf: array<Byte>, p: nat, d: Text, k: nat) returns (p': nat)
    requires p + k + |d| <= buf.Length
    modifies buf
    ensures p' == p + k + |d| && Wrote(old(buf[..]), buf[..], p, Le(|d|, k) + d)
  {
    ghost var b0 := buf[..];
    p' := PBit(buf, p, |d|, k);
    ghost var b1 := buf[..];
    p' := CopyIn(buf, p', d);
    WroteMore(b0, b1, buf[..], p, Le(|d|, k), d);
  }

  /** pstring. */
  method PString(buf: array<Byte>, p: nat, s: Option<Text>) returns (p': nat)
    requires p + 2 + |Chars(s)| <= buf.Length
    modifies buf
    ensures p' == p + 2 + |Chars(s)| && Wrote(old(buf[..]), buf[..], p, EncStr(s))
  {
    if s.None? {
      p' := PBit(buf, p, 0, 2);
      assert EncStr(s) == Le(0, 2);
    } else {
      p' := PutBytes(buf, p, s.value, 2);
    }
  }

  /** pqid. */
  method PQid(buf: array<Byte>, p: nat, q: Qid) returns (p': nat)
    requires p + 13 <= buf.Length && QidRange(q)
    modifies buf
    ensures p' == p + 13 && Wrote(old(buf[..]), buf[..], p, EncQid(q))
  {
    ghost var b0 := buf[..];
    p' := PBit(buf, p, q.kind, 1);
    ghost var b1 := buf[..];
    p' := PBit(buf, p', q.vers, 4);
    ghost var b2 := buf[..];
    p' := PBit(buf, p', q.path, 8);
    WroteMore(b0, b1, b2, p, Le(q.kind, 1), Le(q.vers, 4));
    WroteMore(b0, b2, buf[..], p, Le(q.kind, 1) + Le(q.vers, 4), Le(q.path, 8));
  }

  lemma {:induction false} EncStrsPrefix(ss: seq<Option<Text>>, i: nat)
    requires i <= |ss|
    ensures |EncStrs(ss[..i])| <= |EncStrs(ss)|
    decreases |ss| - i
  {
    if i == |ss| {
      assert ss[..i] == ss;
    } else {
      EncStrsMore(ss[..i], ss[i]);
      assert ss[..i + 1] == ss[..i] + [ss[i]];
      EncStrsPrefix(ss, i + 1);
    }
  }

  /** The names of a Twalk, each behind the one before. */
  method PutNames(buf: array<Byte>, p: nat, ss: seq<Option<Text>>) returns (p': nat)
    requires p + |EncStrs(ss)| <= buf.Length
    modifies buf
    ensures p' == p + |EncStrs(ss)| && Wrote(old(buf[..]), buf[..], p, EncStrs(ss))
  {
    ghost var was := buf[..];
    p' := p;
    for i := 0 to |ss|
      invariant p' == p + |EncStrs(ss[..i])| && Wrote(was, buf[..], p, EncStrs(ss[..i]))
    {
      EncStrsMore(ss[..i], ss[i]);
      assert ss[..i + 1] == ss[..i] + [ss[i]];
      EncStrsPrefix(ss, i + 1);
      ghost var b := buf[..];
      p' := PString(buf, p', ss[i]);
      WroteMore(was, b, buf[..], p, EncStrs(ss[..i]), EncStr(ss[i]));
    }
    assert ss[..|ss|] == ss;
  }

  /** The qids of an Rwalk, each behind the one before. */
  method PutQids(buf: array<Byte>, p: nat, qs: seq<Qid>) returns (p': nat)
    requires (forall i :: 0 <= i < |qs| ==> QidRange(qs[i])) && p + 13 * |qs| <= buf.Length
    modifies buf
    ensures p' == p + 13 * |qs| && Wrote(old(buf[..]), buf[..], p, EncQids(qs))
  {
    ghost var was := buf[..];
    p' := p;
    for i := 0 to |qs|
      invariant p' == p + 13 * i && Wrote(was, buf[..], p, EncQids(qs[..i]))
    {
      EncQidsMore(qs[..i], qs[i]);
      SizeQidsIs(qs[..i]);
      assert qs[..i + 1] == qs[..i] + [qs[i]];
      ghost var b := buf[..];
      p' := PQid(buf, p', qs[i]);
      WroteMore(was, b, buf[..], p, EncQids(qs[..i]), EncQid(qs[i]));
    }
    assert qs[..|qs|] == qs;
  }

  /** A walk over more than MAXWELEM elements, which convS2M does not write. */
  predicate TooMany(f: Field) {
    match f
    case FNames(ss) => |ss| > MAXWELEM
    case FQids(qs) => |qs| > MAXWELEM
    case _ => false
  }

  predicate NoneTooMany(fs: seq<Field>) { forall i :: 0 <= i < |fs| ==> !TooMany(fs[i]) }

  lemma FirstTooMany(fs: seq<Field>)
    requires fs != []
    ensures NoneTooMany(fs) <==> !TooMany(fs[0]) && NoneTooMany(fs[1..])
  {
    assert forall i :: 0 < i < |fs| ==> fs[i] == fs[1..][i - 1];
  }

  lemma WithinMore(a: Text, b: Text, c: Text, p: int, v: Text, end: int)
    requires Wrote(a, b, p, v) && Within(b, c, p + |v|, end) && p + |v| <= end
    ensures Within(a, c, p, end)
  {
  }

  method PutCounted(buf: array<Byte>, p: nat, f: Field) returns (ok: bool, p': nat)
    requires Typed(f) && (f.FNames? || f.FQids?) && p + |Enc(f)| <= buf.Length
    modifies buf
    ensures ok == !TooMany(f)
    ensures ok ==> p' == p + |Enc(f)| && Wrote(old(buf[..]), buf[..], p, Enc(f))
    ensures !ok ==> Within(old(buf[..]), buf[..], p, p + |Enc(f)|)
  {
    ghost var b0 := buf[..];
    if f.FNames? {
      p' := PBit(buf, p, |f.names|, 2);
      ok := |f.names| <= MAXWELEM;
      if ok {
        ghost var b1 := buf[..];
        p' := PutNames(buf, p', f.names);
        WroteMore(b0, b1, buf[..], p, Le(|f.names|, 2), EncStrs(f.names));
      }
    } else {
      SizeQidsIs(f.qids);
      p' := PBit(buf, p, |f.qids|, 2);
      ok := |f.qids| <= MAXWELEM;
      if ok {
        ghost var b1 := buf[..];
        p' := PutQids(buf, p', f.qids);
        WroteMore(b0, b1, buf[..], p, Le(|f.qids|, 2), EncQids(f.qids));
      }
    }
  }

  /** One field in an arm of convS2M's switch. */
  method PutField(buf: array<Byte>, p: nat, f: Field) returns (ok: bool, p': nat)
    requires Typed(f) && p + |Enc(f)| <= buf.Length
    modifies buf
    ensures ok == !TooMany(f)
    ensures ok ==> p' == p + |Enc(f)| && Wrote(old(buf[..]), buf[..], p, Enc(f))
    ensures !ok ==> Within(old(buf[..]), buf[..], p, p + |Enc(f)|)
  {
    ok := true;
    match f {
      case F8(n) => p' := PBit(buf, p, n, 1);
      case F16(n) => p' := PBit(buf, p, n, 2);
      case F32(n) => p' := PBit(buf, p, n, 4);
      case F64(n) => p' := PBit(buf, p, n, 8);
      case FStr(s) => p' := PString(buf, p, s);
      case FQid(q) => p' := PQid(buf, p, q);
      case FData(d) => p' := PutBytes(buf, p, d, 4);
      case FStat(d) => p' := PutBytes(buf, p, d, 2);
      case _ => ok, p' := PutCounted(buf, p, f);
    }
  }

  /** An arm of convS2M's switch, field by field. */
  method PutFields(buf: array<Byte>, p: nat, fs: seq<Field>) returns (ok: bool, p': nat)
    requires (forall i :: 0 <= i < |fs| ==> Typed(fs[i])) && p + |EncAll(fs)| <= buf.Length
    modifies buf
    ensures ok == NoneTooMany(fs)
    ensures ok ==> p' == p + |EncAll(fs)| && Wrote(old(buf[..]), buf[..], p, EncAll(fs))
    ensures !ok ==> Within(old(buf[..]), buf[..], p, p + |EncAll(fs)|)
    decreases |fs|
  {
    hide Enc, TooMany, Typed;
    ok, p' := true, p;
    if fs != [] {
      FirstTooMany(fs);
      ghost var b0 := buf[..];
      ok, p' := PutField(buf, p, fs[0]);
      if ok {
        ghost var b1 := buf[..];
        ok, p' := PutFields(buf, p', fs[1..]);
        if ok {
          WroteMore(b0, b1, buf[..], p, Enc(fs[0]), EncAll(fs[1..]));
        } else {
          WithinMore(b0, b1, buf[..], p, Enc(fs[0]), p + |EncAll(fs)|);
        }
      }
    }
  }

  /** The header of a message. */
  method PutHeader(buf: array<Byte>, size: nat, kind: nat, tag: nat) returns (p: nat)
    requires HEADER <= buf.Length
    modifies buf
    ensures p == HEADER && Wrote(old(buf[..]), buf[..], 0, Le(size, 4) + Le(kind, 1) + Le(tag, 2))
  {
    ghost var b0 := buf[..];
    p := PBit(buf, 0, size, 4);
    ghost var b1 := buf[..];
    p := PBit(buf, p, kind, 1);
    ghost var b2 := buf[..];
    p := PBit(buf, p, tag, 2);
    WroteMore(b0, b1, b2, 0, Le(size, 4), Le(kind, 1));
    WroteMore(b0, b2, buf[..], 0, Le(size, 4) + Le(kind, 1), Le(tag, 2));
  }

  /** convS2M: the message is written and its size returned, or 0 if f is no message, does not
      fit or has too many names or qids.  A message of 2^32 bytes or more would overrun the
      buffer, because sizeS2M wraps around. */
  method ConvS2M(f: Fcall, buf: array<Byte>, nap: nat) returns (n: nat)
    requires nap <= buf.Length && (Layout(f.kind).Some? ==> IsMessage(f) && WireSize(f) < 0x1_0000_0000)
    modifies buf
    ensures n > 0 <==>
      Layout(f.kind).Some? && WireSize(f) <= nap && NoneTooMany(f.fields)
    ensures n > 0 ==> n == WireSize(f) == |Encode(f)| && Wrote(old(buf[..]), buf[..], 0, Encode(f))
    ensures n == 0 ==> Within(old(buf[..]), buf[..], 0, nap)
  {
    var size := SizeS2M(f);
    n := 0;
    if size != 0 && size <= nap {
      ghost var b0 := buf[..];
      var p := PutHeader(buf, size, f.kind, f.tag);
      ghost var b1 := buf[..];
      var ok;
      ok, p := PutFields(buf, p, f.fields);
      if ok {
        WroteMore(b0, b1, buf[..], 0, Le(size, 4) + Le(f.kind, 1) + Le(f.tag, 2), EncAll(f.fields));
        if size == p {
          n := size;
        }
      }
    }
  }
}
