/** Bytes, runes and texts, and the few notions that several modules share. */
module Bytes {

  type Byte = x: int | 0 <= x < 256

  type Rune = x: int | 0 <= x < 0x1_0000_0000

  type Text = seq<Byte>

  datatype Option<+T> = None | Some(value: T)

  const QUOTE: Byte := 39   // '

  function Min(a: int, b: int): int { if a < b then a else b }

  predicate NoNul(t: Text) { forall i :: 0 <= i < |t| ==> t[i] != 0 }

  function Pow2(n: nat): (p: nat)
    ensures p > 0
  {
    if n == 0 then 1 else 2 * Pow2(n - 1)
  }

  lemma DivUnique(x: int, d: nat, k: int, r: int)
    requires d > 0 && x == d * k + r && 0 <= r < d
    ensures x / d == k
  {
    var k', r' := x / d, x % d;
    assert x == d * k' + r';
    if k' > k {
      MulMono(d, k, k');
    } else if k' < k {
      MulMono(d, k', k);
    }
  }

  lemma {:induction false} MulMono(d: nat, a: int, b: int)
    requires a < b
    ensures d * a + d <= d * b
    decreases b - a
  {
    assert d * (b - 1) + d == d * b;
    if a < b - 1 { MulMono(d, a, b - 1); }
  }

  lemma Regroup(a: Text, b: Text, c: Text)
    ensures a + (b + c) == a + b + c
  {
  }

  /** buf' is buf with w written at s. */
  ghost predicate Wrote(buf: Text, buf': Text, s: int, w: Text) {
    && |buf'| == |buf| && 0 <= s && s + |w| <= |buf| && buf'[s..s + |w|] == w
    && forall x :: 0 <= x < |buf| && (x < s || s + |w| <= x) ==> buf'[x] == buf[x]
  }

  lemma WroteMore(a: Text, b: Text, c: Text, s: int, v: Text, w: Text)
    requires Wrote(a, b, s, v) && Wrote(b, c, s + |v|, w)
    ensures Wrote(a, c, s, v + w)
  {
    assert c[s..s + |v|] == b[s..s + |v|];
    assert c[s..s + |v + w|] == c[s..s + |v|] + c[s + |v|..s + |v| + |w|];
  }

  /** Nothing has changed before lo or from hi on. */
  ghost predicate Within(buf: Text, buf': Text, lo: int, hi: int) {
    |buf'| == |buf| && forall x :: 0 <= x < |buf| && (x < lo || hi <= x) ==> buf'[x] == buf[x]
  }
}
