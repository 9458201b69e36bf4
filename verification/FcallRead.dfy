/** convM2S (lib9/convM2S.c) as code: a message is read from a buffer, in which its strings
    are moved down by one byte to make room for their NULs. */
module NinePReader {
  import opened Bytes
  import opened NineP

  /** What an Fcall gets for a field: a number, or a pointer into the buffer. */
  datatype Slot =
    | SNum(v: int) | SStr(at: nat) | SQid(q: Qid) | SBytes(at: nat, n: nat)
    | SNames(ats: seq<nat>) | SQids(qs: seq<Qid>)

  /** A C string at `at`, all of it before hi. */
  ghost predicate StrAt(buf: Text, at: nat, s: Option<Text>, hi: int) {
    && s.Some? && at + |s.value| < hi <= |buf| && NoNul(s.value)
    && buf[at..at + |s.value|] == s.value && buf[at + |s.value|] == 0
  }

  ghost predicate StrsAt(buf: Text, ats: seq<nat>, ss: seq<Option<Text>>, hi: int) {
    |ats| == |ss| && forall i :: 0 <= i < |ats| ==> StrAt(buf, ats[i], ss[i], hi)
  }

  /** The slot stands for the field, by what lies before hi in the buffer. */
  ghost predicate Means(buf: Text, slot: Slot, f: Field, hi: int) {
    match f
    case F8(n) => slot == SNum(n)
    case F16(n) => slot == SNum(n)
    case F32(n) => slot == SNum(n)
    case F64(n) => slot == SNum(n)
    case FStr(s) => slot.SStr? && StrAt(buf, slot.at, s, hi)
    case FQid(q) => slot == SQid(q)
    case FData(d) => slot.SBytes? && slot.n == |d| && slot.at + |d| <= hi <= |buf| && buf[slot.at..slot.at + |d|] == d
    case FStat(d) => slot.SBytes? && slot.n == |d| && slot.at + |d| <= hi <= |buf| && buf[slot.at..slot.at + |d|] == d
    case FNames(ss) => slot.SNames? && StrsAt(buf, slot.ats, ss, hi)
    case FQids(qs) => slot == SQids(qs)
  }

  lemma StrKept(buf: Text, buf': Text, at: nat, s: Option<Text>, lo: int, hi: int, hi': int)
    requires StrAt(buf, at, s, lo) && Within(buf, buf', lo, hi) && lo <= hi' <= |buf|
    ensures StrAt(buf', at, s, hi')
  {
    assert buf'[at..at + |s.value|] == buf[at..at + |s.value|];
  }

  lemma StrsKept(buf: Text, buf': Text, ats: seq<nat>, ss: seq<Option<Text>>, lo: int, hi: int, hi': int)
    requires StrsAt(buf, ats, ss, lo) && Within(buf, buf', lo, hi) && lo <= hi' <= |buf|
    ensures StrsAt(buf', ats, ss, hi')
  {
    forall i | 0 <= i < |ats| ensures StrAt(buf', ats[i], ss[i], hi') {
      StrKept(buf, buf', ats[i], ss[i], lo, hi, hi');
    }
  }

  /** What has been read stays readable while the rest is read. */
  lemma MeansKept(buf: Text, buf': Text, slot: Slot, f: Field, lo: int, hi: int, hi': int)
    requires Means(buf, slot, f, lo) && Within(buf, buf', lo, hi) && lo <= hi' <= |buf|
    ensures Means(buf', slot, f, hi')
  {
    match f {
      case FStr(s) => StrKept(buf, buf', slot.at, s, lo, hi, hi');
      case FNames(ss) => StrsKept(buf, buf', slot.ats, ss, lo, hi, hi');
      case FData(d) => assert buf'[slot.at..slot.at + |d|] == buf[slot.at..slot.at + |d|];
      case FStat(d) => assert buf'[slot.at..slot.at + |d|] == buf[slot.at..slot.at + |d|];
      case _ =>
    }
  }

  // ------------------------------------------------------------------------ the code itself

  lemma SubSlice(buf: Text, p: nat, ep: nat, a: nat, c: nat)
    requires p <= ep <= |buf| && a <= c <= ep - p
    ensures buf[p..ep][a..c] == buf[p + a..p + c]
  {
    var x, y := buf[p..ep][a..c], buf[p + a..p + c];
    forall i | 0 <= i < c - a ensures x[i] == y[i] {
      assert x[i] == buf[p..ep][a + i] == buf[p + a + i];
    }
  }

  /** `GBIT8`, `GBIT16`, `GBIT32` and `GBIT64`. */
  method GBit(buf: array<Byte>, p: nat, k: nat) returns (v: nat)
    requires p + k <= buf.Length
    ensures v == Val(buf[p..p + k])
  {
    v := 0;
    var j := k;
    while j > 0
      invariant 0 <= j <= k && v == Val(buf[p + j..p + k])
    {
      j := j - 1;
      assert buf[p + j..p + k][1..] == buf[p + j + 1..p + k];
      v := buf[p + j] + 256 * v;
    }
  }

  /** The move of gstring: the n bytes after p come down on p, and a NUL goes behind them. */
  method MoveDown(buf: array<Byte>, p: nat, n: nat)
    requires p + n < buf.Length
    modifies buf
    ensures buf[p..p + n] == old(buf[p + 1..p + 1 + n]) && buf[p + n] == 0
    ensures Within(old(buf[..]), buf[..], p, p + n + 1)
  {
    forall x | 0 <= x < n {
      buf[p + x] := buf[p + 1 + x];
    }
    buf[p + n] := 0;
  }

  /** gstring: the string at p, if it does not reach beyond ep; `ok` is false for nil. */
  method GString(buf: array<Byte>, p: nat, ep: nat) returns (ok: bool, p': nat, at: nat)
    requires p <= ep <= buf.Length
    modifies buf
    ensures ok <==> ParseStr(old(buf[p..ep])).Got?
    ensures ok ==> p' == p + ParseStr(old(buf[p..ep])).n <= ep && Within(old(buf[..]), buf[..], p, p')
    ensures ok ==> StrAt(buf[..], at, Some(ParseStr(old(buf[p..ep])).v), p')
    ensures !ok ==> p' == p && buf[..] == old(buf[..])
  {
    ok, p', at := false, p, p;
    ghost var was := buf[..];
    if p + 2 <= ep {
      var n := GBit(buf, p, 2);
      StringLength(was, p, ep, n);
      at := p + 1;
      if at + n + 1 <= ep {
        MoveDown(buf, at, n);
        ok, p' := true, at + n + 1;
        StringRead(was, buf[..], p, ep, n);
      }
    }
  }

  lemma StringLength(was: Text, p: nat, ep: nat, n: nat)
    requires p + 2 <= ep <= |was| && n == Val(was[p..p + 2])
    ensures if p + 2 + n > ep then ParseStr(was[p..ep]).Fail?
            else ParseStr(was[p..ep]) == Got(UpToNul(was[p + 2..p + 2 + n]), 2 + n)
  {
    SubSlice(was, p, ep, 0, 2);
    if p + 2 + n <= ep { SubSlice(was, p, ep, 2, 2 + n); }
  }

  lemma StringRead(was: Text, now: Text, p: nat, ep: nat, n: nat)
    requires p + 2 + n <= ep <= |was| && Within(was, now, p + 1, p + 2 + n)
    requires now[p + 1..p + 1 + n] == was[p + 2..p + 2 + n] && now[p + 1 + n] == 0
    ensures StrAt(now, p + 1, Some(UpToNul(was[p + 2..p + 2 + n])), p + 2 + n) && Within(was, now, p, p + 2 + n)
  {
    hide UpToNul;
    var chars := was[p + 2..p + 2 + n];
    Terminated(now, p + 1, chars, UpToNul(chars), p + 2 + n);
  }

  /** With its NUL the string is what comes before the first NUL in it. */
  lemma Terminated(buf: Text, at: nat, chars: Text, s: Text, hi: nat)
    requires at + |chars| < hi <= |buf| && buf[at..at + |chars|] == chars && buf[at + |chars|] == 0
    requires |s| <= |chars| && s == chars[..|s|] && NoNul(s) && (|s| < |chars| ==> chars[|s|] == 0)
    ensures StrAt(buf, at, Some(s), hi)
  {
    assert buf[at..at + |s|] == chars[..|s|];
    assert |s| < |chars| ==> buf[at + |s|] == chars[|s|];
  }

  /** gqid. */
  method GQid(buf: array<Byte>, p: nat, ep: nat) returns (ok: bool, p': nat, q: Qid)
    requires p <= ep <= buf.Length
    ensures p' == (if ok then p + 13 else p) <= ep && ParseQid(buf[p..ep]) == if ok then Got(q, 13) else Fail
  {
    ok, p', q := p + 13 <= ep, p, Qid(0, 0, 0);
    if ok {
      var kind := GBit(buf, p, 1);
      var vers := GBit(buf, p + 1, 4);
      var path := GBit(buf, p + 5, 8);
      SubSlice(buf[..], p, ep, 0, 1);
      SubSlice(buf[..], p, ep, 1, 5);
      SubSlice(buf[..], p, ep, 5, 13);
      p', q := p + 13, Qid(kind, vers, path);
    }
  }

  /** Bytes with a count of k bytes; they stay where they are. */
  method GBytes(buf: array<Byte>, p: nat, ep: nat, k: nat) returns (ok: bool, p': nat, at: nat, n: nat)
    requires p <= ep <= buf.Length
    ensures (ok <==> ParseBytes(buf[p..ep], k).Got?) && (!ok ==> p' == p)
    ensures ok ==> p <= at && at + n == p' <= ep && ParseBytes(buf[p..ep], k) == Got(buf[at..at + n], p' - p)
  {
    ok, p', at, n := false, p, p, 0;
    if p + k <= ep {
      n := GBit(buf, p, k);
      SubSlice(buf[..], p, ep, 0, k);
      at := p + k;
      if at + n <= ep {
        SubSlice(buf[..], p, ep, k, k + n);
        ok, p' := true, at + n;
      }
    }
  }

  /** The names of a Twalk, one after the other. */
  lemma StrsStep(b: Text, count: nat)
    requires count > 0
    ensures ParseStrs(b, count).Got? <==>
      ParseStr(b).Got? && ParseStr(b).n <= |b| && ParseStrs(b[ParseStr(b).n..], count - 1).Got?
    ensures ParseStrs(b, count).Got? ==>
      ParseStrs(b, count) == Got([Some(ParseStr(b).v)] + ParseStrs(b[ParseStr(b).n..], count - 1).v,
                                 ParseStr(b).n + ParseStrs(b[ParseStr(b).n..], count - 1).n)
  {
  }

  /** Reading the names has come to p: the strings ss are done, and what is left of the names
      decides about the whole. */
  ghost predicate Naming(b: Text, count: nat, done: seq<Option<Text>>, used: nat, left: Text) {
    && |done| <= count
    && (ParseStrs(b, count).Got? <==> ParseStrs(left, count - |done|).Got?)
    && (ParseStrs(left, count - |done|).Got? ==>
          ParseStrs(b, count) ==
          Got(done + ParseStrs(left, count - |done|).v, used + ParseStrs(left, count - |done|).n))
  }

  lemma NamingMore(b: Text, count: nat, done: seq<Option<Text>>, used: nat, left: Text)
    requires Naming(b, count, done, used, left) && |done| < count
    ensures ParseStr(left).Fail? ==> ParseStrs(b, count).Fail?
    ensures ParseStr(left).Got? && ParseStr(left).n <= |left| ==>
      Naming(b, count, done + [Some(ParseStr(left).v)], used + ParseStr(left).n, left[ParseStr(left).n..])
  {
    StrsStep(left, count - |done|);
    if ParseStr(left).Got? && ParseStr(left).n <= |left| {
      var s, more := Some(ParseStr(left).v), ParseStrs(left[ParseStr(left).n..], count - |done| - 1);
      if more.Got? { assert done + ([s] + more.v) == done + [s] + more.v; }
    }
  }

  lemma NamingStarts(b: Text, count: nat)
    ensures Naming(b, count, [], 0, b)
  {
    if ParseStrs(b, count).Got? { assert [] + ParseStrs(b, count).v == ParseStrs(b, count).v; }
  }

  lemma NamingEnds(b: Text, done: seq<Option<Text>>, used: nat, left: Text)
    requires Naming(b, |done|, done, used, left)
    ensures ParseStrs(b, |done|) == Got(done, used)
  {
    assert done + [] == done;
  }

  /** One name more. */
  method GNextName(buf: array<Byte>, p: nat, ep: nat, ats: seq<nat>, ghost p0: nat, ghost was: Text,
                   ghost count: nat, ghost done: seq<Option<Text>>)
    returns (ok: bool, p': nat, ats': seq<nat>, ghost done': seq<Option<Text>>)
    requires p0 <= p <= ep <= buf.Length == |was| && |done| < count
    requires StrsAt(buf[..], ats, done, p) && Within(was, buf[..], p0, p)
    requires Naming(was[p0..ep], count, done, p - p0, buf[p..ep])
    modifies buf
    ensures p0 <= p' <= ep && Within(was, buf[..], p0, p')
    ensures !ok ==> ParseStrs(was[p0..ep], count).Fail? && ats' == ats
    ensures ok ==> |ats'| == |ats| + 1 && StrsAt(buf[..], ats', done', p')
    ensures ok ==> Naming(was[p0..ep], count, done', p' - p0, buf[p'..ep])
  {
    ghost var b, left := buf[..], buf[p..ep];
    NamingMore(was[p0..ep], count, done, p - p0, left);
    var at;
    ok, p', at := GString(buf, p, ep);
    ats', done' := ats, done;
    if ok {
      ats', done' := ats + [at], done + [Some(ParseStr(left).v)];
      NameRead(was, b, buf[..], p0, p, p', ep, ats, at, done);
    } else {
      p' := p;
    }
  }

  lemma NameRead(was: Text, b: Text, b': Text, p0: nat, p: nat, p': nat, ep: nat,
                 ats: seq<nat>, at: nat, done: seq<Option<Text>>)
    requires p0 <= p <= p' <= ep <= |b| && StrsAt(b, ats, done, p) && Within(was, b, p0, p) && Within(b, b', p, p')
    requires ParseStr(b[p..ep]).Got? && p' == p + ParseStr(b[p..ep]).n && StrAt(b', at, Some(ParseStr(b[p..ep]).v), p')
    ensures Within(was, b', p0, p') && b'[p'..ep] == b[p..ep][p' - p..]
    ensures StrsAt(b', ats + [at], done + [Some(ParseStr(b[p..ep]).v)], p')
  {
    StrsKept(b, b', ats, done, p, p', p');
    var x, y := b'[p'..ep], b[p..ep][p' - p..];
    forall i | 0 <= i < ep - p' ensures x[i] == y[i] {
      assert y[i] == b[p..ep][p' - p + i] == b[p' + i];
    }
  }

  /** The names of a Twalk, count strings one after the other, up to the first that is not whole. */
  method GNames(buf: array<Byte>, p: nat, ep: nat, count: nat) returns (ok: bool, p': nat, ats: seq<nat>)
    requires p <= ep <= buf.Length
    modifies buf
    ensures ok <==> ParseStrs(old(buf[p..ep]), count).Got?
    ensures ok ==> p' == p + ParseStrs(old(buf[p..ep]), count).n
    ensures ok ==> StrsAt(buf[..], ats, ParseStrs(old(buf[p..ep]), count).v, p')
    ensures p <= p' <= ep && Within(old(buf[..]), buf[..], p, p')
  {
    ghost var was, b := buf[..], buf[p..ep];
    ghost var done: seq<Option<Text>> := [];
    ok, p', ats := true, p, [];
    NamingStarts(b, count);
    assert was[p..ep] == b;
    while ok && |ats| < count
      invariant p <= p' <= ep && |ats| <= count && Within(was, buf[..], p, p')
      invariant !ok ==> ParseStrs(b, count).Fail?
      invariant ok ==> StrsAt(buf[..], ats, done, p') && Naming(b, count, done, p' - p, buf[p'..ep])
      decreases ok, count - |ats|
    {
      ok, p', ats, done := GNextName(buf, p', ep, ats, p, was, count, done);
    }
    if ok { NamingEnds(b, done, p' - p, buf[p'..ep]); }
  }

  /** The same for the qids of an Rwalk. */
  ghost predicate Qidding(b: Text, count: nat, done: seq<Qid>, used: nat, left: Text) {
    && |done| <= count
    && (ParseQids(b, count).Got? <==> ParseQids(left, count - |done|).Got?)
    && (ParseQids(left, count - |done|).Got? ==>
          ParseQids(b, count) ==
          Got(done + ParseQids(left, count - |done|).v, used + ParseQids(left, count - |done|).n))
  }

  lemma QiddingMore(b: Text, count: nat, done: seq<Qid>, used: nat, left: Text)
    requires Qidding(b, count, done, used, left) && |done| < count
    ensures ParseQid(left).Fail? ==> ParseQids(b, count).Fail?
    ensures ParseQid(left).Got? ==> Qidding(b, count, done + [ParseQid(left).v], used + 13, left[13..])
  {
    if ParseQid(left).Got? {
      var q, more := ParseQid(left).v, ParseQids(left[13..], count - |done| - 1);
      if more.Got? { assert done + ([q] + more.v) == done + [q] + more.v; }
    }
  }

  /** The qids of an Rwalk, count of them one after the other, up to the first that is not whole. */
  method GQids(buf: array<Byte>, p: nat, ep: nat, count: nat) returns (ok: bool, p': nat, qs: seq<Qid>)
    requires p <= ep <= buf.Length
    ensures p <= p' <= ep && (ok <==> ParseQids(buf[p..ep], count).Got?)
    ensures ok ==> ParseQids(buf[p..ep], count) == Got(qs, p' - p)
  {
    ghost var b := buf[p..ep];
    ok, p', qs := true, p, [];
    assert ParseQids(b, count).Got? ==> [] + ParseQids(b, count).v == ParseQids(b, count).v;
    while ok && |qs| < count
      invariant p <= p' <= ep && |qs| <= count
      invariant !ok ==> ParseQids(b, count).Fail?
      invariant ok ==> Qidding(b, count, qs, p' - p, buf[p'..ep])
      decreases ok, count - |qs|
    {
      QiddingMore(b, count, qs, p' - p, buf[p'..ep]);
      assert p' + 13 <= ep ==> buf[p'..ep][13..] == buf[p' + 13..ep];
      var p2, q;
      ok, p2, q := GQid(buf, p', ep);
      if ok {
        p', qs := p2, qs + [q];
      }
    }
    assert qs + [] == qs;
  }

  // ------------------------------------------------------------------- a field, a message

  /** What reading one field from b promises: the slot means the field that Parse finds. */
  ghost predicate ReadField(kind: Kind, b: Text, ok: bool, slot: Slot, buf: Text, p: int, p': int) {
    && (ok <==> ParseField(kind, b).Got?)
    && (ok ==> p' == p + ParseField(kind, b).n && Means(buf, slot, ParseField(kind, b).v, p'))
  }

  /** A number of k bytes. */
  method GetNum(buf: array<Byte>, p: nat, ep: nat, k: nat) returns (ok: bool, p': nat, n: nat)
    requires p <= ep <= buf.Length
    ensures p <= p' <= ep && ParseNum(buf[p..ep], k) == if ok then Got(n, p' - p) else Fail
  {
    ok, p', n := p + k <= ep, p, 0;
    if ok {
      n := GBit(buf, p, k);
      SubSlice(buf[..], p, ep, 0, k);
      p' := p + k;
    }
  }

  /** The names of a Twalk or the qids of an Rwalk, with their count. */
  method GetCounted(buf: array<Byte>, p: nat, ep: nat, kind: Kind) returns (ok: bool, p': nat, slot: Slot)
    requires p <= ep <= buf.Length && (kind.KNames? || kind.KQids?)
    modifies buf
    ensures ReadField(kind, old(buf[p..ep]), ok, slot, buf[..], p, p')
    ensures p <= p' <= ep && Within(old(buf[..]), buf[..], p, p')
  {
    ghost var b := buf[p..ep];
    var n;
    slot := SNum(0);
    ok, p', n := GetNum(buf, p, ep, 2);
    ok := ok && n <= MAXWELEM;
    if ok {
      assert b[2..] == buf[p'..ep];
      if kind.KNames? {
        var ats;
        ok, p', ats := GNames(buf, p', ep, n);
        slot := SNames(ats);
      } else {
        var qs;
        ok, p', qs := GQids(buf, p', ep, n);
        slot := SQids(qs);
      }
    }
  }

  /** A field that is one number. */
  method GetNumber(buf: array<Byte>, p: nat, ep: nat, kind: Kind) returns (ok: bool, p': nat, slot: Slot)
    requires p <= ep <= buf.Length && (kind.K8? || kind.K16? || kind.K32? || kind.K64?)
    ensures ReadField(kind, buf[p..ep], ok, slot, buf[..], p, p') && p <= p' <= ep
  {
    var n;
    ok, p', n := GetNum(buf, p, ep, match kind case K8 => 1 case K16 => 2 case K32 => 4 case _ => 8);
    slot := SNum(n);
  }

  /** One field in an arm of convM2S's switch. */
  method GetField(buf: array<Byte>, p: nat, ep: nat, kind: Kind) returns (ok: bool, p': nat, slot: Slot)
    requires p <= ep <= buf.Length
    modifies buf
    ensures ReadField(kind, old(buf[p..ep]), ok, slot, buf[..], p, p')
    ensures p <= p' <= ep && Within(old(buf[..]), buf[..], p, p')
  {
    match kind {
      case KStr => var at; ok, p', at := GString(buf, p, ep); slot := SStr(at);
      case KQid => var q; ok, p', q := GQid(buf, p, ep); slot := SQid(q);
      case KData => var at, n; ok, p', at, n := GBytes(buf, p, ep, 4); slot := SBytes(at, n);
      case KStat => var at, n; ok, p', at, n := GBytes(buf, p, ep, 2); slot := SBytes(at, n);
      case KNames => ok, p', slot := GetCounted(buf, p, ep, kind);
      case KQids => ok, p', slot := GetCounted(buf, p, ep, kind);
      case _ => ok, p', slot := GetNumber(buf, p, ep, kind);
    }
  }

  /** The slots stand for the fields of a message. */
  ghost predicate AllMean(buf: Text, slots: seq<Slot>, fs: seq<Field>, hi: int) {
    |slots| == |fs| && forall i {:trigger slots[i]} :: 0 <= i < |slots| ==> Means(buf, slots[i], fs[i], hi)
  }

  lemma AllMeanMore(buf: Text, buf': Text, slot: Slot, f: Field, slots: seq<Slot>, fs: seq<Field>, lo: int, hi: int)
    requires Means(buf, slot, f, lo) && Within(buf, buf', lo, hi) && lo <= hi <= |buf| && AllMean(buf', slots, fs, hi)
    ensures AllMean(buf', [slot] + slots, [f] + fs, hi)
  {
    MeansKept(buf, buf', slot, f, lo, hi, hi);
  }

  /** What reading several fields from b promises. */
  ghost predicate ReadFields(kinds: seq<Kind>, b: Text, ok: bool, slots: seq<Slot>, buf: Text, p: int, p': int) {
    && (ok <==> ParseFields(kinds, b).Got?)
    && (ok ==> p' == p + ParseFields(kinds, b).n && AllMean(buf, slots, ParseFields(kinds, b).v, p'))
  }

  lemma ReadMore(kinds: seq<Kind>, b: Text, slot: Slot, b1: Text, p: nat, p1: nat,
                 ok: bool, slots: seq<Slot>, b2: Text, p2: nat)
    requires kinds != [] && ReadField(kinds[0], b, true, slot, b1, p, p1) && p1 - p <= |b|
    requires p <= p1 <= p2 <= |b1| && Within(b1, b2, p1, p2)
    requires ReadFields(kinds[1..], b[p1 - p..], ok, slots, b2, p1, p2)
    ensures ReadFields(kinds, b, ok, [slot] + slots, b2, p, p2)
  {
    if ok {
      AllMeanMore(b1, b2, slot, ParseField(kinds[0], b).v, slots, ParseFields(kinds[1..], b[p1 - p..]).v, p1, p2);
    }
  }

  /** An arm of convM2S's switch, field by field. */
  method GetFields(buf: array<Byte>, p: nat, ep: nat, kinds: seq<Kind>) returns (ok: bool, p': nat, slots: seq<Slot>)
    requires p <= ep <= buf.Length
    modifies buf
    ensures ReadFields(kinds, old(buf[p..ep]), ok, slots, buf[..], p, p')
    ensures p <= p' <= ep && Within(old(buf[..]), buf[..], p, p')
    decreases |kinds|
  {
    ok, p', slots := true, p, [];
    if kinds != [] {
      ghost var b := buf[p..ep];
      var slot;
      ok, p', slot := GetField(buf, p, ep, kinds[0]);
      if ok {
        ghost var b1, p1 := buf[..], p';
        assert buf[p'..ep] == b[p' - p..];
        ok, p', slots := GetFields(buf, p', ep, kinds[1..]);
        ReadMore(kinds, b, slot, b1, p, p1, ok, slots, buf[..], p');
        slots := [slot] + slots;
      }
    }
  }

  /** convM2S: the size of the message at the beginning of the first nap bytes, or 0 if there
      is none.  The slots then stand for its fields: all its strings are C strings in the
      buffer.  What follows the message is left as it was. */
  method ConvM2S(buf: array<Byte>, nap: nat) returns (n: nat, kind: nat, tag: nat, slots: seq<Slot>)
    requires nap <= buf.Length
    modifies buf
    ensures n > 0 <==> Parse(old(buf[..nap])).Got?
    ensures n > 0 ==> n == Parse(old(buf[..nap])).n <= nap
    ensures n > 0 ==>
      var f := Parse(old(buf[..nap])).v; f.kind == kind && f.tag == tag && AllMean(buf[..], slots, f.fields, n)
    ensures Within(old(buf[..]), buf[..], 0, if n > 0 then n else nap)
  {
    n, kind, tag, slots := 0, 0, 0, [];
    if HEADER <= nap {
      ghost var b := buf[..nap];
      var size;
      size, kind, tag := GetHeader(buf, nap);
      var layout := Layout(kind);
      if size >= HEADER && layout.Some? {
        ParseBody(b, size, kind, tag, layout.value, buf[HEADER..nap]);
        n, slots := GetBody(buf, nap, size, layout.value);
      } else {
        NoMessage(b, size, kind);
      }
    }
  }

  method GetHeader(buf: array<Byte>, nap: nat) returns (size: nat, kind: nat, tag: nat)
    requires HEADER <= nap <= buf.Length
    ensures var b := buf[..nap];
      size == Val(b[..4]) && kind == Val(b[4..5]) && tag == Val(b[5..7]) && b[HEADER..] == buf[HEADER..nap]
  {
    size := GBit(buf, 0, 4);
    kind := GBit(buf, 4, 1);
    tag := GBit(buf, 5, 2);
    SubSlice(buf[..], 0, nap, 0, 4);
    SubSlice(buf[..], 0, nap, 4, 5);
    SubSlice(buf[..], 0, nap, 5, 7);
    SubSlice(buf[..], 0, nap, 7, nap);
    assert buf[0..nap] == buf[..nap];
  }

  lemma NoMessage(b: Text, size: nat, kind: int)
    requires |b| >= HEADER && size == Val(b[..4]) && kind == Val(b[4..5]) && (size < HEADER || Layout(kind).None?)
    ensures Parse(b).Fail?
  {
  }

  /** The fields, and the test at the end of convM2S. */
  method GetBody(buf: array<Byte>, nap: nat, size: nat, kinds: seq<Kind>) returns (n: nat, slots: seq<Slot>)
    requires HEADER <= nap <= buf.Length && HEADER <= size
    modifies buf
    ensures var fs := ParseFields(kinds, old(buf[HEADER..nap]));
      && (n > 0 <==> fs.Got? && HEADER + fs.n == size)
      && (n > 0 ==> n == size <= nap && AllMean(buf[..], slots, fs.v, n))
    ensures Within(old(buf[..]), buf[..], HEADER, if n > 0 then n else nap)
  {
    var ok, p;
    n := 0;
    ok, p, slots := GetFields(buf, HEADER, nap, kinds);
    if ok && size == p {
      n := size;
    }
  }
}
