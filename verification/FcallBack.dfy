/** convM2S accepts nothing but messages: what it has read, written again, is what was there. */
module NinePBack {
  import opened Bytes
  import opened NineP

  lemma {:induction false} LeVal(b: Text)
    ensures Le(Val(b), |b|) == b
    decreases |b|
  {
    if b != [] {
      LeVal(b[1..]);
      var v := Val(b[1..]);
      LowAndHigh(b[0], v);
      assert b == [b[0]] + b[1..];
    }
  }

  lemma LowAndHigh(x: Byte, v: nat)
    ensures (x + 256 * v) % 256 == x && (x + 256 * v) / 256 == v
  {
  }

  lemma NumBack(b: Text, k: nat)
    requires k <= |b|
    ensures InRange(Val(b[..k]), k) && Le(Val(b[..k]), k) == b[..k]
  {
    LeVal(b[..k]);
    ValBound(b[..k]);
  }

  /** v of k bytes was read from the beginning of b, and would be written as e: e is no longer,
      and if it is as long it is those bytes. */
  ghost predicate Again(e: Text, b: Text, n: int) {
    0 <= n <= |b| && |e| <= n && (|e| == n ==> e == b[..n])
  }

  lemma AgainMore(e: Text, d: Text, b: Text, n: int, m: int)
    requires Again(e, b, n) && Again(d, b[n..], m)
    ensures Again(e + d, b, n + m)
  {
    assert b[..n + m] == b[..n] + b[n..][..m];
  }

  lemma StrBack(b: Text)
    requires ParseStr(b).Got?
    ensures var p := ParseStr(b); NoNul(p.v) && Again(EncStr(Some(p.v)), b, p.n) && p.n >= 2
  {
    var p, n := ParseStr(b), Val(b[..2]);
    NumBack(b, 2);
    assert b[..p.n] == b[..2] + b[2..2 + n];
  }

  lemma QidBack(b: Text)
    requires ParseQid(b).Got?
    ensures QidRange(ParseQid(b).v) && EncQid(ParseQid(b).v) == b[..13]
  {
    NumBack(b, 1);
    NumBack(b[1..], 4);
    NumBack(b[5..], 8);
    assert b[1..][..4] == b[1..5] && b[5..][..8] == b[5..13];
    assert b[..13] == b[..1] + b[1..5] + b[5..13];
  }

  lemma BytesBack(b: Text, k: nat)
    requires ParseBytes(b, k).Got?
    ensures var p := ParseBytes(b, k); InRange(|p.v|, k) && p.n <= |b| && Le(|p.v|, k) + p.v == b[..p.n]
  {
    NumBack(b, k);
    var n := Val(b[..k]);
    assert b[..k + n] == b[..k] + b[k..k + n];
  }

  lemma {:induction false} StrsBack(b: Text, count: nat)
    requires ParseStrs(b, count).Got?
    ensures var p := ParseStrs(b, count);
      |p.v| == count && (forall i :: 0 <= i < count ==> NoNul(Chars(p.v[i]))) && Again(EncStrs(p.v), b, p.n)
    decreases count
  {
    if count > 0 {
      var s := ParseStr(b);
      StrBack(b);
      StrsBack(b[s.n..], count - 1);
      var more := ParseStrs(b[s.n..], count - 1);
      AgainMore(EncStr(Some(s.v)), EncStrs(more.v), b, s.n, more.n);
      assert ParseStrs(b, count).v == [Some(s.v)] + more.v;
    }
  }

  lemma {:induction false} QidsBack(b: Text, count: nat)
    requires ParseQids(b, count).Got?
    ensures var p := ParseQids(b, count);
      |p.v| == count && (forall i :: 0 <= i < count ==> QidRange(p.v[i])) && Again(EncQids(p.v), b, p.n)
    decreases count
  {
    if count > 0 {
      var q := ParseQid(b);
      QidBack(b);
      QidsBack(b[13..], count - 1);
      var more := ParseQids(b[13..], count - 1);
      AgainMore(EncQid(q.v), EncQids(more.v), b, 13, more.n);
      assert ParseQids(b, count).v == [q.v] + more.v;
    }
  }

  lemma CountedBack(b: Text, e: Text, m: int)
    requires |b| >= 2 && Again(e, b[2..], m)
    ensures InRange(Val(b[..2]), 2) && Again(Le(Val(b[..2]), 2) + e, b, 2 + m)
  {
    NumBack(b, 2);
    AgainMore(Le(Val(b[..2]), 2), e, b, 2, m);
  }

  /** A field that has been read is one that can be written. */
  lemma FieldBack(kind: Kind, b: Text)
    requires ParseField(kind, b).Got?
    ensures var p := ParseField(kind, b); KindOf(p.v) == kind && Typed(p.v) && Again(Enc(p.v), b, p.n)
  {
    match kind {
      case K8 => NumBack(b, 1);
      case K16 => NumBack(b, 2);
      case K32 => NumBack(b, 4);
      case K64 => NumBack(b, 8);
      case KStr => StrBack(b);
      case KQid => QidBack(b);
      case KData => BytesBack(b, 4);
      case KStat => BytesBack(b, 2);
      case KNames =>
        var p := ParseStrs(b[2..], Val(b[..2]));
        StrsBack(b[2..], Val(b[..2]));
        CountedBack(b, EncStrs(p.v), p.n);
      case KQids =>
        var p := ParseQids(b[2..], Val(b[..2]));
        QidsBack(b[2..], Val(b[..2]));
        CountedBack(b, EncQids(p.v), p.n);
    }
  }

  lemma {:induction false} FieldsBack(kinds: seq<Kind>, b: Text)
    requires ParseFields(kinds, b).Got?
    ensures var p := ParseFields(kinds, b);
      && |p.v| == |kinds| && (forall i :: 0 <= i < |kinds| ==> KindOf(p.v[i]) == kinds[i] && Typed(p.v[i]))
      && Again(EncAll(p.v), b, p.n)
    decreases |kinds|
  {
    hide ParseField, Enc, Typed;
    if kinds != [] {
      var f := ParseField(kinds[0], b);
      FieldBack(kinds[0], b);
      FieldsBack(kinds[1..], b[f.n..]);
      var more := ParseFields(kinds[1..], b[f.n..]);
      AgainMore(Enc(f.v), EncAll(more.v), b, f.n, more.n);
      assert ParseFields(kinds, b).v == [f.v] + more.v;
    }
  }

  /** Whatever convM2S accepts is a message of the announced size, all of it there; written again
      it is no longer, and if it is as long, because no string of it had a NUL inside, it is
      byte for byte what was read. */
  lemma ReadThenWritten(b: Text)
    requires Parse(b).Got?
    ensures var f, n := Parse(b).v, Parse(b).n;
      && HEADER <= n == Val(b[..4]) <= |b| && IsMessage(f) && WireSize(f) <= n
      && (WireSize(f) == n ==> Encode(f) == b[..n])
  {
    hide ParseFields, EncAll, Val, Le;
    var f, n, size := Parse(b).v, Parse(b).n, Val(b[..4]);
    var kinds := Layout(f.kind).value;
    FieldsBack(kinds, b[HEADER..]);
    NumBack(b, 4);
    NumBack(b[4..], 1);
    NumBack(b[5..], 2);
    assert b[4..][..1] == b[4..5] && b[5..][..2] == b[5..7];
    assert b[..n] == b[..4] + b[4..5] + b[5..7] + b[HEADER..][..n - HEADER];
  }
}
