/** 9P messages (include/fcall.h): what convS2M writes and convM2S reads, as functions on byte
    strings.  The format is 9P2000, section 5 of the Plan 9 Programmer's Manual, intro(5). */
module NineP {
  import opened Bytes

  const MAXWELEM := 16
  const HEADER := 7          // size[4] type[1] tag[2]

  // ------------------------------------------------------------------------- messages

  datatype Qid = Qid(kind: int, vers: int, path: int)

  /** One field of a message, in the order of the wire.  A string is a C string or nil. */
  datatype Field =
    | F8(n: int) | F16(n: int) | F32(n: int) | F64(n: int)
    | FStr(s: Option<Text>)
    | FQid(q: Qid)
    | FData(data: Text)               // count[4] data[count]
    | FStat(stat: Text)               // nstat[2] stat[nstat]
    | FNames(names: seq<Option<Text>>) // nwname[2] nwname*(wname[s])
    | FQids(qids: seq<Qid>)           // nwqid[2] nwqid*(wqid[13])

  datatype Kind = K8 | K16 | K32 | K64 | KStr | KQid | KData | KStat | KNames | KQids

  datatype Fcall = Fcall(kind: int, tag: int, fields: seq<Field>)

  /** The fields of each kind of message: the arms of the two switches.  Terror (106) and
      everything outside 100..127 is no message. */
  function Layout(kind: int): Option<seq<Kind>> {
    if kind == 100 then Some([K32, KStr])                   // Tversion: msize version
    else if kind == 101 then Some([K32, KStr])              // Rversion: msize version
    else if kind == 102 then Some([K32, KStr, KStr])        // Tauth: afid uname aname
    else if kind == 103 then Some([KQid])                   // Rauth: aqid
    else if kind == 104 then Some([K32, K32, KStr, KStr])   // Tattach: fid afid uname aname
    else if kind == 105 then Some([KQid])                   // Rattach: qid
    else if kind == 107 then Some([KStr])                   // Rerror: ename
    else if kind == 108 then Some([K16])                    // Tflush: oldtag
    else if kind == 109 then Some([])                       // Rflush
    else if kind == 110 then Some([K32, K32, KNames])       // Twalk: fid newfid wname
    else if kind == 111 then Some([KQids])                  // Rwalk: wqid
    else if kind == 112 then Some([K32, K8])                // Topen: fid mode
    else if kind == 113 then Some([KQid, K32])              // Ropen: qid iounit
    else if kind == 114 then Some([K32, KStr, K32, K8])     // Tcreate: fid name perm mode
    else if kind == 115 then Some([KQid, K32])              // Rcreate: qid iounit
    else if kind == 116 then Some([K32, K64, K32])          // Tread: fid offset count
    else if kind == 117 then Some([KData])                  // Rread: count data
    else if kind == 118 then Some([K32, K64, KData])        // Twrite: fid offset count data
    else if kind == 119 then Some([K32])                    // Rwrite: count
    else if kind == 120 then Some([K32])                    // Tclunk: fid
    else if kind == 121 then Some([])                       // Rclunk
    else if kind == 122 then Some([K32])                    // Tremove: fid
    else if kind == 123 then Some([])                       // Rremove
    else if kind == 124 then Some([K32])                    // Tstat: fid
    else if kind == 125 then Some([KStat])                  // Rstat: stat
    else if kind == 126 then Some([K32, KStat])             // Twstat: fid stat
    else if kind == 127 then Some([])                       // Rwstat
    else None
  }

  function KindOf(f: Field): Kind {
    match f
    case F8(_) => K8 case F16(_) => K16 case F32(_) => K32 case F64(_) => K64
    case FStr(_) => KStr case FQid(_) => KQid case FData(_) => KData case FStat(_) => KStat
    case FNames(_) => KNames case FQids(_) => KQids
  }

  // ----------------------------------------------------------------- numbers on the wire

  function Pow256(k: nat): (p: nat)
    ensures p > 0
  {
    if k == 0 then 1 else 256 * Pow256(k - 1)
  }

  /** The k low bytes of n, lowest first. */
  function Le(n: nat, k: nat): (b: Text)
    ensures |b| == k
  {
    if k == 0 then [] else [n % 256] + Le(n / 256, k - 1)
  }

  function Val(b: Text): nat {
    if b == [] then 0 else b[0] + 256 * Val(b[1..])
  }

  lemma {:induction false} ValLe(n: nat, k: nat)
    requires n < Pow256(k)
    ensures Val(Le(n, k)) == n
    decreases k
  {
    if k > 0 {
      ValLe(n / 256, k - 1);
      assert Le(n, k)[1..] == Le(n / 256, k - 1);
    }
  }

  lemma {:induction false} ValBound(b: Text)
    ensures Val(b) < Pow256(|b|)
    decreases |b|
  {
    if b != [] { ValBound(b[1..]); }
  }

  // ------------------------------------------------------------------------ writing

  predicate InRange(n: int, k: nat) { 0 <= n < Pow256(k) }

  predicate QidRange(q: Qid) { InRange(q.kind, 1) && InRange(q.vers, 4) && InRange(q.path, 8) }

  function Chars(s: Option<Text>): Text { if s.None? then [] else s.value }

  /** What the fields of the C structure can hold. */
  predicate Typed(f: Field) {
    match f
    case F8(n) => InRange(n, 1)
    case F16(n) => InRange(n, 2)
    case F32(n) => InRange(n, 4)
    case F64(n) => InRange(n, 8)
    case FStr(s) => NoNul(Chars(s))
    case FQid(q) => QidRange(q)
    case FData(d) => InRange(|d|, 4)
    case FStat(d) => InRange(|d|, 2)
    case FNames(ss) => InRange(|ss|, 2) && forall i :: 0 <= i < |ss| ==> NoNul(Chars(ss[i]))
    case FQids(qs) => InRange(|qs|, 2) && forall i :: 0 <= i < |qs| ==> QidRange(qs[i])
  }

  /** pstring: the count is cut to 16 bits, the characters are not. */
  function EncStr(s: Option<Text>): (b: Text)
    ensures |b| == 2 + |Chars(s)|
  {
    Le(|Chars(s)|, 2) + Chars(s)
  }

  function EncQid(q: Qid): (b: Text)
    requires QidRange(q)
    ensures |b| == 13
  {
    Le(q.kind, 1) + Le(q.vers, 4) + Le(q.path, 8)
  }

  function EncStrs(ss: seq<Option<Text>>): Text {
    if ss == [] then [] else EncStr(ss[0]) + EncStrs(ss[1..])
  }

  function EncQids(qs: seq<Qid>): Text
    requires forall i :: 0 <= i < |qs| ==> QidRange(qs[i])
  {
    if qs == [] then [] else EncQid(qs[0]) + EncQids(qs[1..])
  }

  function Enc(f: Field): Text
    requires Typed(f)
  {
    match f
    case F8(n) => Le(n, 1)
    case F16(n) => Le(n, 2)
    case F32(n) => Le(n, 4)
    case F64(n) => Le(n, 8)
    case FStr(s) => EncStr(s)
    case FQid(q) => EncQid(q)
    case FData(d) => Le(|d|, 4) + d
    case FStat(d) => Le(|d|, 2) + d
    case FNames(ss) => Le(|ss|, 2) + EncStrs(ss)
    case FQids(qs) => Le(|qs|, 2) + EncQids(qs)
  }

  function EncAll(fs: seq<Field>): Text
    requires forall i :: 0 <= i < |fs| ==> Typed(fs[i])
  {
    if fs == [] then [] else Enc(fs[0]) + EncAll(fs[1..])
  }

  /** f is a message of one of the 27 kinds, with values its C structure can hold. */
  ghost predicate IsMessage(f: Fcall) {
    && Layout(f.kind).Some? && InRange(f.tag, 2)
    && |f.fields| == |Layout(f.kind).value|
    && (forall i :: 0 <= i < |f.fields| ==> KindOf(f.fields[i]) == Layout(f.kind).value[i])
    && (forall i :: 0 <= i < |f.fields| ==> Typed(f.fields[i]))
  }

  ghost function WireSize(f: Fcall): nat
    requires IsMessage(f)
  {
    HEADER + |EncAll(f.fields)|
  }

  ghost function Encode(f: Fcall): Text
    requires IsMessage(f)
  {
    Le(WireSize(f), 4) + Le(f.kind, 1) + Le(f.tag, 2) + EncAll(f.fields)
  }

  // ------------------------------------------------------------------------- reading

  datatype Parsed<T> = Fail | Got(v: T, n: nat)

  /** The C string that begins with b. */
  function UpToNul(b: Text): (s: Text)
    ensures |s| <= |b| && s == b[..|s|] && NoNul(s) && (|s| < |b| ==> b[|s|] == 0)
  {
    if b == [] || b[0] == 0 then [] else [b[0]] + UpToNul(b[1..])
  }

  function ParseNum(b: Text, k: nat): Parsed<nat> {
    if |b| < k then Fail else Got(Val(b[..k]), k)
  }

  /** gstring. */
  function ParseStr(b: Text): Parsed<Text> {
    if |b| < 2 then Fail
    else
      var n := Val(b[..2]);
      if 2 + n > |b| then Fail else Got(UpToNul(b[2..2 + n]), 2 + n)
  }

  /** gqid. */
  function ParseQid(b: Text): Parsed<Qid> {
    if |b| < 13 then Fail else Got(Qid(Val(b[..1]), Val(b[1..5]), Val(b[5..13])), 13)
  }

  function ParseStrs(b: Text, count: nat): Parsed<seq<Option<Text>>>
    decreases count
  {
    if count == 0 then Got([], 0)
    else
      match ParseStr(b)
      case Fail => Fail
      case Got(s, n) =>
        if n > |b| then Fail
        else
          match ParseStrs(b[n..], count - 1)
          case Fail => Fail
          case Got(more, m) => Got([Some(s)] + more, n + m)
  }

  function ParseQids(b: Text, count: nat): Parsed<seq<Qid>>
    decreases count
  {
    if count == 0 then Got([], 0)
    else
      match ParseQid(b)
      case Fail => Fail
      case Got(q, n) =>
        if n > |b| then Fail
        else
          match ParseQids(b[n..], count - 1)
          case Fail => Fail
          case Got(more, m) => Got([q] + more, n + m)
  }

  /** Bytes with their count, which takes k bytes. */
  function ParseBytes(b: Text, k: nat): Parsed<Text> {
    if |b| < k then Fail
    else
      var n := Val(b[..k]);
      if k + n > |b| then Fail else Got(b[k..k + n], k + n)
  }

  function ParseField(kind: Kind, b: Text): Parsed<Field> {
    match kind
    case K8 => (match ParseNum(b, 1) case Fail => Fail case Got(n, k) => Got(F8(n), k))
    case K16 => (match ParseNum(b, 2) case Fail => Fail case Got(n, k) => Got(F16(n), k))
    case K32 => (match ParseNum(b, 4) case Fail => Fail case Got(n, k) => Got(F32(n), k))
    case K64 => (match ParseNum(b, 8) case Fail => Fail case Got(n, k) => Got(F64(n), k))
    case KStr => (match ParseStr(b) case Fail => Fail case Got(s, k) => Got(FStr(Some(s)), k))
    case KQid => (match ParseQid(b) case Fail => Fail case Got(q, k) => Got(FQid(q), k))
    case KData => (match ParseBytes(b, 4) case Fail => Fail case Got(d, k) => Got(FData(d), k))
    case KStat => (match ParseBytes(b, 2) case Fail => Fail case Got(d, k) => Got(FStat(d), k))
    case KNames =>
      if |b| < 2 || Val(b[..2]) > MAXWELEM then Fail
      else (match ParseStrs(b[2..], Val(b[..2])) case Fail => Fail case Got(ss, k) => Got(FNames(ss), 2 + k))
    case KQids =>
      if |b| < 2 || Val(b[..2]) > MAXWELEM then Fail
      else (match ParseQids(b[2..], Val(b[..2])) case Fail => Fail case Got(qs, k) => Got(FQids(qs), 2 + k))
  }

  function ParseFields(kinds: seq<Kind>, b: Text): Parsed<seq<Field>>
    decreases |kinds|
  {
    if kinds == [] then Got([], 0)
    else
      match ParseField(kinds[0], b)
      case Fail => Fail
      case Got(f, n) =>
        if n > |b| then Fail
        else
          match ParseFields(kinds[1..], b[n..])
          case Fail => Fail
          case Got(more, m) => Got([f] + more, n + m)
  }

  /** convM2S: the message at the beginning of b and its size. */
  function Parse(b: Text): Parsed<Fcall> {
    if |b| < HEADER then Fail
    else
      var size, kind, tag := Val(b[..4]), Val(b[4..5]), Val(b[5..7]);
      if size < HEADER || Layout(kind).None? then Fail
      else
        match ParseFields(Layout(kind).value, b[HEADER..])
        case Fail => Fail
        case Got(fs, n) => if HEADER + n == size then Got(Fcall(kind, tag, fs), size) else Fail
  }

  // ---------------------------------------------------------------------- the round trip

  function CanonStrs(ss: seq<Option<Text>>): seq<Option<Text>> {
    if ss == [] then [] else [Some(Chars(ss[0]))] + CanonStrs(ss[1..])
  }

  /** A nil string is read back as the empty string. */
  function Canon(f: Field): Field {
    match f
    case FStr(s) => FStr(Some(Chars(s)))
    case FNames(ss) => FNames(CanonStrs(ss))
    case _ => f
  }

  function CanonAll(fs: seq<Field>): seq<Field> {
    if fs == [] then [] else [Canon(fs[0])] + CanonAll(fs[1..])
  }

  predicate Short(s: Option<Text>) { |Chars(s)| <= 65535 }

  /** No string is longer than its count can say, and there are at most 16 names or qids. */
  predicate Fits(f: Field) {
    match f
    case FStr(s) => Short(s)
    case FNames(ss) => |ss| <= MAXWELEM && forall i :: 0 <= i < |ss| ==> Short(ss[i])
    case FQids(qs) => |qs| <= MAXWELEM
    case _ => true
  }

  lemma NumTrip(n: nat, k: nat, t: Text)
    requires InRange(n, k)
    ensures ParseNum(Le(n, k) + t, k) == Got(n, k) && Val((Le(n, k) + t)[..k]) == n
  {
    assert (Le(n, k) + t)[..k] == Le(n, k);
    ValLe(n, k);
  }

  lemma BytesTrip(d: Text, k: nat, t: Text)
    requires InRange(|d|, k)
    ensures ParseBytes(Le(|d|, k) + d + t, k) == Got(d, k + |d|)
  {
    var b := Le(|d|, k) + d + t;
    assert b == Le(|d|, k) + (d + t);
    NumTrip(|d|, k, d + t);
    assert b[k..k + |d|] == d;
  }

  lemma {:induction false} NoNulIsAll(s: Text)
    requires NoNul(s)
    ensures UpToNul(s) == s
    decreases |s|
  {
  }

  lemma StrTrip(s: Option<Text>, t: Text)
    requires NoNul(Chars(s)) && Short(s)
    ensures ParseStr(EncStr(s) + t) == Got(Chars(s), |EncStr(s)|)
  {
    BytesTrip(Chars(s), 2, t);
    NoNulIsAll(Chars(s));
  }

  lemma QidTrip(q: Qid, t: Text)
    requires QidRange(q)
    ensures ParseQid(EncQid(q) + t) == Got(q, 13)
  {
    var b := EncQid(q) + t;
    assert b[..1] == Le(q.kind, 1) && b[1..5] == Le(q.vers, 4) && b[5..13] == Le(q.path, 8);
    ValLe(q.kind, 1);
    ValLe(q.vers, 4);
    ValLe(q.path, 8);
  }

  lemma FrontOff(a: Text, b: Text, c: Text)
    ensures a + b + c == a + (b + c) && (a + b + c)[|a|..] == b + c
  {
  }

  lemma {:induction false} StrsTrip(ss: seq<Option<Text>>, t: Text)
    requires forall i :: 0 <= i < |ss| ==> NoNul(Chars(ss[i])) && Short(ss[i])
    ensures ParseStrs(EncStrs(ss) + t, |ss|) == Got(CanonStrs(ss), |EncStrs(ss)|)
    decreases |ss|
  {
    if ss != [] {
      FrontOff(EncStr(ss[0]), EncStrs(ss[1..]), t);
      StrTrip(ss[0], EncStrs(ss[1..]) + t);
      StrsTrip(ss[1..], t);
    }
  }

  lemma {:induction false} QidsTrip(qs: seq<Qid>, t: Text)
    requires forall i :: 0 <= i < |qs| ==> QidRange(qs[i])
    ensures ParseQids(EncQids(qs) + t, |qs|) == Got(qs, |EncQids(qs)|)
    decreases |qs|
  {
    if qs != [] {
      FrontOff(EncQid(qs[0]), EncQids(qs[1..]), t);
      QidTrip(qs[0], EncQids(qs[1..]) + t);
      QidsTrip(qs[1..], t);
      assert [qs[0]] + qs[1..] == qs;
    }
  }

  lemma CountTrip(n: nat, x: Text, t: Text)
    requires InRange(n, 2)
    ensures var b := Le(n, 2) + x + t; |b| >= 2 && Val(b[..2]) == n && b[2..] == x + t
  {
    FrontOff(Le(n, 2), x, t);
    NumTrip(n, 2, x + t);
  }

  lemma ParseNames(b: Text, n: nat, rest: Text)
    requires |b| >= 2 && Val(b[..2]) == n <= MAXWELEM && b[2..] == rest
    ensures ParseField(KNames, b) ==
      (match ParseStrs(rest, n) case Fail => Fail case Got(ss, k) => Got(FNames(ss), 2 + k))
  {
  }

  lemma NamesTrip(ss: seq<Option<Text>>, t: Text)
    requires Typed(FNames(ss)) && Fits(FNames(ss))
    ensures ParseField(KNames, Enc(FNames(ss)) + t) == Got(FNames(CanonStrs(ss)), |Enc(FNames(ss))|)
  {
    CountTrip(|ss|, EncStrs(ss), t);
    StrsTrip(ss, t);
    ParseNames(Enc(FNames(ss)) + t, |ss|, EncStrs(ss) + t);
  }

  lemma QidListTrip(qs: seq<Qid>, t: Text)
    requires Typed(FQids(qs)) && Fits(FQids(qs))
    ensures ParseField(KQids, Enc(FQids(qs)) + t) == Got(FQids(qs), |Enc(FQids(qs))|)
  {
    hide EncQids, ParseQids, Le, Val;
    CountTrip(|qs|, EncQids(qs), t);
    QidsTrip(qs, t);
  }

  lemma FieldTrip(f: Field, t: Text)
    requires Typed(f) && Fits(f)
    ensures ParseField(KindOf(f), Enc(f) + t) == Got(Canon(f), |Enc(f)|)
  {
    match f {
      case F8(n) => NumTrip(n, 1, t);
      case F16(n) => NumTrip(n, 2, t);
      case F32(n) => NumTrip(n, 4, t);
      case F64(n) => NumTrip(n, 8, t);
      case FStr(s) => StrTrip(s, t);
      case FQid(q) => QidTrip(q, t);
      case FData(d) => BytesTrip(d, 4, t);
      case FStat(d) => BytesTrip(d, 2, t);
      case FNames(ss) => NamesTrip(ss, t);
      case FQids(qs) => QidListTrip(qs, t);
    }
  }

  lemma {:induction false} FieldsTrip(kinds: seq<Kind>, fs: seq<Field>, t: Text)
    requires |kinds| == |fs| && forall i :: 0 <= i < |fs| ==> KindOf(fs[i]) == kinds[i] && Typed(fs[i]) && Fits(fs[i])
    ensures ParseFields(kinds, EncAll(fs) + t) == Got(CanonAll(fs), |EncAll(fs)|)
    decreases |fs|
  {
    if fs != [] {
      FrontOff(Enc(fs[0]), EncAll(fs[1..]), t);
      FieldTrip(fs[0], EncAll(fs[1..]) + t);
      FieldsTrip(kinds[1..], fs[1..], t);
    }
  }

  // ------------------------------------------------------------------- the main theorem

  ghost predicate AllFit(fs: seq<Field>) { forall i :: 0 <= i < |fs| ==> Fits(fs[i]) }

  ghost function CanonMessage(f: Fcall): Fcall { f.(fields := CanonAll(f.fields)) }

  lemma HeaderTrip(f: Fcall, t: Text)
    requires IsMessage(f) && WireSize(f) < 0x1_0000_0000
    ensures var b := Encode(f) + t;
      && |Encode(f)| == WireSize(f) && Val(b[..4]) == WireSize(f) && Val(b[4..5]) == f.kind && Val(b[5..7]) == f.tag
      && b[HEADER..] == EncAll(f.fields) + t
  {
    ValLe(WireSize(f), 4);
    ValLe(f.kind, 1);
    ValLe(f.tag, 2);
    HeaderParts(Le(WireSize(f), 4), Le(f.kind, 1), Le(f.tag, 2), EncAll(f.fields), t);
  }

  lemma HeaderParts(size: Text, kind: Text, tag: Text, fs: Text, t: Text)
    requires |size| == 4 && |kind| == 1 && |tag| == 2
    ensures var b := size + kind + tag + fs + t; b[..4] == size && b[4..5] == kind && b[5..7] == tag && b[7..] == fs + t
  {
  }

  /** What convS2M writes is read back by convM2S, whatever follows it, with nil strings as
      empty ones, if and only if every string is short enough for its count and there are not
      too many names or qids. */
  lemma RoundTrip(f: Fcall, t: Text)
    requires IsMessage(f) && WireSize(f) < 0x1_0000_0000
    ensures Parse(Encode(f) + t) == Got(CanonMessage(f), WireSize(f)) <==> AllFit(f.fields)
  {
    HeaderTrip(f, t);
    var kinds, rest := Layout(f.kind).value, EncAll(f.fields) + t;
    ParseBody(Encode(f) + t, WireSize(f), f.kind, f.tag, kinds, rest);
    FieldsIff(kinds, f.fields, t);
  }

  /** What is left of convM2S once the header has been read. */
  lemma ParseBody(b: Text, size: nat, kind: int, tag: int, kinds: seq<Kind>, rest: Text)
    requires |b| >= HEADER && Val(b[..4]) == size && Val(b[4..5]) == kind && Val(b[5..7]) == tag && b[HEADER..] == rest
    requires size >= HEADER && Layout(kind) == Some(kinds)
    ensures Parse(b) ==
      (match ParseFields(kinds, rest)
       case Fail => Fail
       case Got(fs, n) => if HEADER + n == size then Got(Fcall(kind, tag, fs), size) else Fail)
  {
  }

  lemma FieldsIff(kinds: seq<Kind>, fs: seq<Field>, t: Text)
    requires |kinds| == |fs| && forall i :: 0 <= i < |fs| ==> KindOf(fs[i]) == kinds[i] && Typed(fs[i])
    ensures ParseFields(kinds, EncAll(fs) + t) == Got(CanonAll(fs), |EncAll(fs)|) <==> AllFit(fs)
  {
    if AllFit(fs) {
      FieldsTrip(kinds, fs, t);
    } else {
      ParsedFit(kinds, EncAll(fs) + t);
      if AllFit(CanonAll(fs)) { CanonFit(fs); }
    }
  }

  lemma {:induction false} StrsShort(b: Text, count: nat)
    ensures ParseStrs(b, count).Got? ==>
      |ParseStrs(b, count).v| == count && forall i :: 0 <= i < count ==> Short(ParseStrs(b, count).v[i])
    decreases count
  {
    if count > 0 && ParseStr(b).Got? {
      ValBound(b[..2]);
      StrsShort(b[ParseStr(b).n..], count - 1);
    }
  }

  lemma {:induction false} QidsCount(b: Text, count: nat)
    ensures ParseQids(b, count).Got? ==> |ParseQids(b, count).v| == count
    decreases count
  {
    if count > 0 && ParseQid(b).Got? { QidsCount(b[13..], count - 1); }
  }

  lemma FieldFits(kind: Kind, b: Text)
    ensures ParseField(kind, b).Got? ==> Fits(ParseField(kind, b).v)
  {
    if |b| >= 2 {
      ValBound(b[..2]);
      StrsShort(b[2..], Val(b[..2]));
      QidsCount(b[2..], Val(b[..2]));
    }
  }

  lemma {:induction false} ParsedFit(kinds: seq<Kind>, b: Text)
    ensures ParseFields(kinds, b).Got? ==> AllFit(ParseFields(kinds, b).v)
    decreases |kinds|
  {
    if kinds != [] && ParseField(kinds[0], b).Got? {
      FieldFits(kinds[0], b);
      if ParseField(kinds[0], b).n <= |b| { ParsedFit(kinds[1..], b[ParseField(kinds[0], b).n..]); }
    }
  }

  lemma {:induction false} CanonStrsIs(ss: seq<Option<Text>>)
    ensures |CanonStrs(ss)| == |ss| && forall i :: 0 <= i < |ss| ==> CanonStrs(ss)[i] == Some(Chars(ss[i]))
    decreases |ss|
  {
    if ss != [] { CanonStrsIs(ss[1..]); }
  }

  lemma {:induction false} CanonFit(fs: seq<Field>)
    requires AllFit(CanonAll(fs))
    ensures AllFit(fs)
    decreases |fs|
  {
    if fs != [] {
      var c := CanonAll(fs);
      assert Fits(c[0]) && c[1..] == CanonAll(fs[1..]);
      forall i | 0 <= i < |c[1..]| ensures Fits(c[1..][i]) { assert c[1..][i] == c[i + 1]; }
      CanonFit(fs[1..]);
      if fs[0].FNames? { CanonNames(fs[0].names); }
      forall i | 0 < i < |fs| ensures Fits(fs[i]) { assert fs[i] == fs[1..][i - 1]; }
    }
  }

  lemma CanonNames(ss: seq<Option<Text>>)
    requires Fits(Canon(FNames(ss)))
    ensures Fits(FNames(ss))
  {
    CanonStrsIs(ss);
    forall i | 0 <= i < |ss| ensures Short(ss[i]) { assert Short(CanonStrs(ss)[i]); }
  }

  /** The size wraps around at 2^32: this message does not get the size it needs. */
  lemma SizeWraps(f: Fcall)
    requires f == Fcall(117, 0, [FData(seq(0x1_0000_0000 - 11, _ => 0))])
    ensures IsMessage(f) && WireSize(f) == 0x1_0000_0000 && WireSize(f) % 0x1_0000_0000 == 0
  {
    var fd := f.fields[0];
    assert Pow256(4) == 0x1_0000_0000 && Pow256(2) == 65536;
    assert Typed(fd);
    assert EncAll(f.fields) == Enc(fd) + EncAll([]);
  }
}
