/** The 27 messages of 9P2000 by the names of their fields (include/fcall.h, and section 5 of the
    Plan 9 Programmer's Manual), and the bytes that each of them is on the wire. */
module NinePMessages {
  import opened Bytes
  import opened NineP
  import opened NinePWriter
  import opened NinePReader

  datatype Message =
    | Tversion(msize: int, version: Option<Text>)
    | Rversion(msize: int, version: Option<Text>)
    | Tauth(afid: int, uname: Option<Text>, aname: Option<Text>)
    | Rauth(aqid: Qid)
    | Tattach(fid: int, afid: int, uname: Option<Text>, aname: Option<Text>)
    | Rattach(qid: Qid)
    | Rerror(ename: Option<Text>)
    | Tflush(oldtag: int)
    | Rflush
    | Twalk(fid: int, newfid: int, wname: seq<Option<Text>>)
    | Rwalk(wqid: seq<Qid>)
    | Topen(fid: int, mode: int)
    | Ropen(qid: Qid, iounit: int)
    | Tcreate(fid: int, name: Option<Text>, perm: int, mode: int)
    | Rcreate(qid: Qid, iounit: int)
    | Tread(fid: int, offset: int, count: int)
    | Rread(data: Text)
    | Twrite(fid: int, offset: int, data: Text)
    | Rwrite(count: int)
    | Tclunk(fid: int)
    | Rclunk
    | Tremove(fid: int)
    | Rremove
    | Tstat(fid: int)
    | Rstat(stat: Text)
    | Twstat(fid: int, stat: Text)
    | Rwstat

  function TypeOf(m: Message): int {
    match m
    case Tversion(_, _) => 100 case Rversion(_, _) => 101
    case Tauth(_, _, _) => 102 case Rauth(_) => 103
    case Tattach(_, _, _, _) => 104 case Rattach(_) => 105
    case Rerror(_) => 107
    case Tflush(_) => 108 case Rflush => 109
    case Twalk(_, _, _) => 110 case Rwalk(_) => 111
    case Topen(_, _) => 112 case Ropen(_, _) => 113
    case Tcreate(_, _, _, _) => 114 case Rcreate(_, _) => 115
    case Tread(_, _, _) => 116 case Rread(_) => 117
    case Twrite(_, _, _) => 118 case Rwrite(_) => 119
    case Tclunk(_) => 120 case Rclunk => 121
    case Tremove(_) => 122 case Rremove => 123
    case Tstat(_) => 124 case Rstat(_) => 125
    case Twstat(_, _) => 126 case Rwstat => 127
  }

  // ------------------------------------------------------------------------ on the wire

  predicate U8(n: int) { 0 <= n < 0x100 }
  predicate U16(n: int) { 0 <= n < 0x1_0000 }
  predicate U32(n: int) { 0 <= n < 0x1_0000_0000 }
  predicate U64(n: int) { 0 <= n < 0x1_0000_0000_0000_0000 }
  predicate Str(s: Option<Text>) { s.Some? ==> NoNul(s.value) }
  predicate IsQid(q: Qid) { U8(q.kind) && U32(q.vers) && U64(q.path) }

  /** The fields have values that their C types can hold. */
  predicate Holds(m: Message) {
    match m
    case Tversion(msize, version) => U32(msize) && Str(version)
    case Rversion(msize, version) => U32(msize) && Str(version)
    case Tauth(afid, uname, aname) => U32(afid) && Str(uname) && Str(aname)
    case Rauth(aqid) => IsQid(aqid)
    case Tattach(fid, afid, uname, aname) => U32(fid) && U32(afid) && Str(uname) && Str(aname)
    case Rattach(qid) => IsQid(qid)
    case Rerror(ename) => Str(ename)
    case Tflush(oldtag) => U16(oldtag)
    case Twalk(fid, newfid, wname) =>
      U32(fid) && U32(newfid) && U16(|wname|) && forall i :: 0 <= i < |wname| ==> Str(wname[i])
    case Rwalk(wqid) => U16(|wqid|) && forall i :: 0 <= i < |wqid| ==> IsQid(wqid[i])
    case Topen(fid, mode) => U32(fid) && U8(mode)
    case Ropen(qid, iounit) => IsQid(qid) && U32(iounit)
    case Tcreate(fid, name, perm, mode) => U32(fid) && Str(name) && U32(perm) && U8(mode)
    case Rcreate(qid, iounit) => IsQid(qid) && U32(iounit)
    case Tread(fid, offset, count) => U32(fid) && U64(offset) && U32(count)
    case Rread(data) => U32(|data|)
    case Twrite(fid, offset, data) => U32(fid) && U64(offset) && U32(|data|)
    case Rwrite(count) => U32(count)
    case Tclunk(fid) => U32(fid)
    case Tremove(fid) => U32(fid)
    case Tstat(fid) => U32(fid)
    case Rstat(stat) => U16(|stat|)
    case Twstat(fid, stat) => U32(fid) && U16(|stat|)
    case _ => true
  }

  /** Byte i of a number of k bytes: the lowest comes first. */
  function ByteOf(n: nat, i: nat): Byte { n / Pow256(i) % 256 }

  /** A number in k bytes. */
  function Num(n: int, k: nat): Text
    requires n >= 0
  {
    seq(k, i requires 0 <= i < k => ByteOf(n, i))
  }

  /** A string: the low 16 bits of its length, and its bytes; nil is empty. */
  function StrBytes(s: Option<Text>): Text {
    match s case None => Num(0, 2) case Some(t) => Num(|t|, 2) + t
  }

  /** A qid: type, version, path. */
  function QidBytes(q: Qid): Text
    requires IsQid(q)
  {
    Num(q.kind, 1) + Num(q.vers, 4) + Num(q.path, 8)
  }

  function NameBytes(ss: seq<Option<Text>>): Text {
    if ss == [] then [] else NameBytes(ss[..|ss| - 1]) + StrBytes(ss[|ss| - 1])
  }

  function QidListBytes(qs: seq<Qid>): Text
    requires forall i :: 0 <= i < |qs| ==> IsQid(qs[i])
  {
    if qs == [] then [] else QidListBytes(qs[..|qs| - 1]) + QidBytes(qs[|qs| - 1])
  }

  /** The bytes behind size, type and tag. */
  function Body(m: Message): Text
    requires Holds(m)
  {
    match m
    case Tversion(msize, version) => Num(msize, 4) + StrBytes(version)
    case Rversion(msize, version) => Num(msize, 4) + StrBytes(version)
    case Tauth(afid, uname, aname) => Num(afid, 4) + StrBytes(uname) + StrBytes(aname)
    case Rauth(aqid) => QidBytes(aqid)
    case Tattach(fid, afid, uname, aname) => Num(fid, 4) + Num(afid, 4) + StrBytes(uname) + StrBytes(aname)
    case Rattach(qid) => QidBytes(qid)
    case Rerror(ename) => StrBytes(ename)
    case Tflush(oldtag) => Num(oldtag, 2)
    case Twalk(fid, newfid, wname) => Num(fid, 4) + Num(newfid, 4) + (Num(|wname|, 2) + NameBytes(wname))
    case Rwalk(wqid) => Num(|wqid|, 2) + QidListBytes(wqid)
    case Topen(fid, mode) => Num(fid, 4) + Num(mode, 1)
    case Ropen(qid, iounit) => QidBytes(qid) + Num(iounit, 4)
    case Tcreate(fid, name, perm, mode) => Num(fid, 4) + StrBytes(name) + Num(perm, 4) + Num(mode, 1)
    case Rcreate(qid, iounit) => QidBytes(qid) + Num(iounit, 4)
    case Tread(fid, offset, count) => Num(fid, 4) + Num(offset, 8) + Num(count, 4)
    case Rread(data) => Num(|data|, 4) + data
    case Twrite(fid, offset, data) => Num(fid, 4) + Num(offset, 8) + (Num(|data|, 4) + data)
    case Rwrite(count) => Num(count, 4)
    case Tclunk(fid) => Num(fid, 4)
    case Tremove(fid) => Num(fid, 4)
    case Tstat(fid) => Num(fid, 4)
    case Rstat(stat) => Num(|stat|, 2) + stat
    case Twstat(fid, stat) => Num(fid, 4) + (Num(|stat|, 2) + stat)
    case _ => []
  }

  /** The message on the wire: size, type, tag, and the fields. */
  function Wire(m: Message, tag: int): Text
    requires Holds(m) && U16(tag)
  {
    Num(7 + |Body(m)|, 4) + Num(TypeOf(m), 1) + Num(tag, 2) + Body(m)
  }

  // --------------------------------------------------------------- as the code has them

  /** The fields in the order in which convS2M and convM2S come to them. */
  function ToFields(m: Message): seq<Field> {
    match m
    case Tversion(msize, version) => [F32(msize), FStr(version)]
    case Rversion(msize, version) => [F32(msize), FStr(version)]
    case Tauth(afid, uname, aname) => [F32(afid), FStr(uname), FStr(aname)]
    case Rauth(aqid) => [FQid(aqid)]
    case Tattach(fid, afid, uname, aname) => [F32(fid), F32(afid), FStr(uname), FStr(aname)]
    case Rattach(qid) => [FQid(qid)]
    case Rerror(ename) => [FStr(ename)]
    case Tflush(oldtag) => [F16(oldtag)]
    case Twalk(fid, newfid, wname) => [F32(fid), F32(newfid), FNames(wname)]
    case Rwalk(wqid) => [FQids(wqid)]
    case Topen(fid, mode) => [F32(fid), F8(mode)]
    case Ropen(qid, iounit) => [FQid(qid), F32(iounit)]
    case Tcreate(fid, name, perm, mode) => [F32(fid), FStr(name), F32(perm), F8(mode)]
    case Rcreate(qid, iounit) => [FQid(qid), F32(iounit)]
    case Tread(fid, offset, count) => [F32(fid), F64(offset), F32(count)]
    case Rread(data) => [FData(data)]
    case Twrite(fid, offset, data) => [F32(fid), F64(offset), FData(data)]
    case Rwrite(count) => [F32(count)]
    case Tclunk(fid) => [F32(fid)]
    case Tremove(fid) => [F32(fid)]
    case Tstat(fid) => [F32(fid)]
    case Rstat(stat) => [FStat(stat)]
    case Twstat(fid, stat) => [F32(fid), FStat(stat)]
    case _ => []
  }

  function ToFcall(m: Message, tag: int): Fcall { Fcall(TypeOf(m), tag, ToFields(m)) }

  lemma Powers()
    ensures Pow256(1) == 0x100 && Pow256(2) == 0x1_0000 && Pow256(4) == 0x1_0000_0000
    ensures Pow256(8) == 0x1_0000_0000_0000_0000
  {
    assert Pow256(4) == 256 * 256 * 256 * 256 * Pow256(0);
    assert Pow256(8) == 256 * 256 * 256 * 256 * Pow256(4);
  }

  lemma DivTwice(n: nat, b: nat)
    requires b > 0
    ensures n / 256 / b == n / (256 * b)
  {
    var q, r := n / 256 / b, n / 256 % b;
    Quotient(n / 256, b);
    Shift(b, q);
    DivUnique(n, 256 * b, q, 256 * r + n % 256);
  }

  lemma Quotient(e: nat, b: nat)
    requires b > 0
    ensures e == b * (e / b) + e % b && e % b < b
  {
  }

  lemma Shift(b: nat, q: nat)
    ensures 256 * b * q == 256 * (b * q)
  {
  }

  lemma NextByte(n: nat, i: nat)
    ensures ByteOf(n, i + 1) == ByteOf(n / 256, i)
  {
    DivTwice(n, Pow256(i));
  }

  /** The numbers of the wire are those that PBIT8 to PBIT64 write. */
  lemma {:induction false} NumIs(n: nat, k: nat)
    ensures Num(n, k) == Le(n, k)
    decreases k
  {
    if k > 0 {
      NumIs(n / 256, k - 1);
      hide ByteOf, Pow256;
      forall i | 0 < i < k ensures Num(n, k)[i] == Num(n / 256, k - 1)[i - 1] { NextByte(n, i - 1); }
      assert Num(n, k)[0] == n % 256 by { LowByte(n); }
      assert Num(n, k) == [n % 256] + Num(n / 256, k - 1);
    }
  }

  lemma LowByte(n: nat)
    ensures ByteOf(n, 0) == n % 256
  {
  }

  lemma StrIs(s: Option<Text>)
    ensures StrBytes(s) == EncStr(s)
  {
    NumIs(|Chars(s)|, 2);
  }

  lemma QidIs(q: Qid)
    requires IsQid(q)
    ensures QidRange(q) && QidBytes(q) == EncQid(q)
  {
    Powers();
    NumIs(q.kind, 1);
    NumIs(q.vers, 4);
    NumIs(q.path, 8);
  }

  lemma {:induction false} NamesAre(ss: seq<Option<Text>>)
    ensures NameBytes(ss) == EncStrs(ss)
    decreases |ss|
  {
    if ss != [] {
      var init, last := ss[..|ss| - 1], ss[|ss| - 1];
      NamesAre(init);
      StrIs(last);
      EncStrsMore(init, last);
      assert ss == init + [last];
    }
  }

  lemma {:induction false} QidsAre(qs: seq<Qid>)
    requires forall i :: 0 <= i < |qs| ==> IsQid(qs[i])
    ensures (forall i :: 0 <= i < |qs| ==> QidRange(qs[i])) && QidListBytes(qs) == EncQids(qs)
    decreases |qs|
  {
    if qs != [] {
      var init, last := qs[..|qs| - 1], qs[|qs| - 1];
      QidsAre(init);
      QidIs(last);
      assert qs == init + [last];
      EncQidsMore(init, last);
    }
  }

  // ------------------------------------------------------- the code writes these bytes

  predicate FieldHolds(f: Field) {
    match f
    case F8(n) => U8(n)
    case F16(n) => U16(n)
    case F32(n) => U32(n)
    case F64(n) => U64(n)
    case FStr(s) => Str(s)
    case FQid(q) => IsQid(q)
    case FData(d) => U32(|d|)
    case FStat(d) => U16(|d|)
    case FNames(ss) => U16(|ss|) && forall i :: 0 <= i < |ss| ==> Str(ss[i])
    case FQids(qs) => U16(|qs|) && forall i :: 0 <= i < |qs| ==> IsQid(qs[i])
  }

  function FieldBytes(f: Field): Text
    requires FieldHolds(f)
  {
    match f
    case F8(n) => Num(n, 1)
    case F16(n) => Num(n, 2)
    case F32(n) => Num(n, 4)
    case F64(n) => Num(n, 8)
    case FStr(s) => StrBytes(s)
    case FQid(q) => QidBytes(q)
    case FData(d) => Num(|d|, 4) + d
    case FStat(d) => Num(|d|, 2) + d
    case FNames(ss) => Num(|ss|, 2) + NameBytes(ss)
    case FQids(qs) => Num(|qs|, 2) + QidListBytes(qs)
  }

  lemma FieldIs(f: Field)
    ensures Typed(f) <==> FieldHolds(f)
    ensures FieldHolds(f) ==> Enc(f) == FieldBytes(f)
  {
    Powers();
    match f {
      case F8(n) => if U8(n) { NumIs(n, 1); }
      case F16(n) => if U16(n) { NumIs(n, 2); }
      case F32(n) => if U32(n) { NumIs(n, 4); }
      case F64(n) => if U64(n) { NumIs(n, 8); }
      case FStr(s) => StrIs(s);
      case FQid(q) => if IsQid(q) { QidIs(q); }
      case FData(d) => NumIs(|d|, 4);
      case FStat(d) => NumIs(|d|, 2);
      case FNames(ss) => NumIs(|ss|, 2); NamesAre(ss);
      case FQids(qs) =>
        NumIs(|qs|, 2);
        if forall i :: 0 <= i < |qs| ==> IsQid(qs[i]) { QidsAre(qs); }
    }
  }

  ghost function Concat(fs: seq<Field>): Text
    requires |fs| <= 4 && forall i :: 0 <= i < |fs| ==> FieldHolds(fs[i])
  {
    if |fs| == 0 then []
    else if |fs| == 1 then FieldBytes(fs[0])
    else if |fs| == 2 then FieldBytes(fs[0]) + FieldBytes(fs[1])
    else if |fs| == 3 then FieldBytes(fs[0]) + FieldBytes(fs[1]) + FieldBytes(fs[2])
    else FieldBytes(fs[0]) + FieldBytes(fs[1]) + FieldBytes(fs[2]) + FieldBytes(fs[3])
  }

  lemma Joined(a: Field, rest: seq<Field>)
    requires Typed(a) && forall i :: 0 <= i < |rest| ==> Typed(rest[i])
    ensures EncAll([a] + rest) == Enc(a) + EncAll(rest)
  {
    assert ([a] + rest)[1..] == rest;
  }

  lemma {:induction false} Rest(fs: seq<Field>, k: nat)
    requires k < |fs| && forall i :: 0 <= i < |fs| ==> Typed(fs[i])
    ensures EncAll(fs[k..]) == Enc(fs[k]) + EncAll(fs[k + 1..])
  {
    hide Enc, Typed;
    Joined(fs[k], fs[k + 1..]);
    assert fs[k..] == [fs[k]] + fs[k + 1..];
  }

  lemma Flat(a: Text, b: Text, c: Text, d: Text)
    ensures a + (b + []) == a + b && a + (b + (c + [])) == a + b + c && a + (b + (c + (d + []))) == a + b + c + d
  {
    Regroup(b, c, d);
    Regroup(a, b, c);
    Regroup(a, b + c, d);
  }

  /** At most four fields. */
  lemma Parts(fs: seq<Field>)
    requires |fs| <= 4
    requires forall i :: 0 <= i < |fs| ==> FieldHolds(fs[i]) && Typed(fs[i]) && Enc(fs[i]) == FieldBytes(fs[i])
    ensures EncAll(fs) == Concat(fs)
  {
    hide Enc, Typed, FieldHolds, FieldBytes;
    assert fs[0..] == fs && EncAll(fs[|fs|..]) == [];
    var b := seq(4, i requires 0 <= i < 4 => if i < |fs| then Enc(fs[i]) else []);
    Flat(b[0], b[1], b[2], b[3]);
    if |fs| > 0 { Rest(fs, 0); }
    if |fs| > 1 { Rest(fs, 1); }
    if |fs| > 2 { Rest(fs, 2); }
    if |fs| > 3 { Rest(fs, 3); }
  }

  /** The table of the fields is right for every message. */
  lemma Shaped(m: Message)
    ensures var fs, layout := ToFields(m), Layout(TypeOf(m));
      && layout.Some? && |fs| == |layout.value| <= 4 && forall i :: 0 <= i < |fs| ==> KindOf(fs[i]) == layout.value[i]
  {
  }

  lemma HoldsIs(m: Message)
    ensures Holds(m) <==> forall i :: 0 <= i < |ToFields(m)| ==> FieldHolds(ToFields(m)[i])
  {
    if TypeOf(m) < 112 { HoldsLow(m); } else { HoldsHigh(m); }
  }

  lemma HoldsLow(m: Message)
    requires TypeOf(m) < 112
    ensures Holds(m) <==> forall i :: 0 <= i < |ToFields(m)| ==> FieldHolds(ToFields(m)[i])
  {
    hide Str, IsQid, U8, U16, U32, U64;
    ByPlace(ToFields(m));
  }

  lemma HoldsHigh(m: Message)
    requires TypeOf(m) >= 112
    ensures Holds(m) <==> forall i :: 0 <= i < |ToFields(m)| ==> FieldHolds(ToFields(m)[i])
  {
    hide Str, IsQid, U8, U16, U32, U64;
    ByPlace(ToFields(m));
  }

  lemma ByPlace(fs: seq<Field>)
    requires |fs| <= 4
    ensures (forall i :: 0 <= i < |fs| ==> FieldHolds(fs[i])) <==>
      (|fs| > 0 ==> FieldHolds(fs[0])) && (|fs| > 1 ==> FieldHolds(fs[1])) && (|fs| > 2 ==> FieldHolds(fs[2]))
      && (|fs| > 3 ==> FieldHolds(fs[3]))
  {
    hide FieldHolds;
  }

  lemma BodyLow(m: Message)
    requires TypeOf(m) < 112 && Holds(m) && forall i :: 0 <= i < |ToFields(m)| ==> FieldHolds(ToFields(m)[i])
    ensures Body(m) == Concat(ToFields(m))
  {
    hide StrBytes, QidBytes, NameBytes, QidListBytes, Num, FieldHolds;
  }

  lemma BodyHigh(m: Message)
    requires TypeOf(m) >= 112 && Holds(m) && forall i :: 0 <= i < |ToFields(m)| ==> FieldHolds(ToFields(m)[i])
    ensures Body(m) == Concat(ToFields(m))
  {
    hide StrBytes, QidBytes, NameBytes, QidListBytes, Num, FieldHolds;
  }

  lemma MessageIs(m: Message, tag: int)
    requires U16(tag)
    ensures Holds(m) <==> IsMessage(ToFcall(m, tag))
  {
    hide FieldHolds, FieldBytes, Enc, Typed, Layout, TypeOf, ToFields, Holds;
    var fs := ToFields(m);
    Powers();
    Shaped(m);
    HoldsIs(m);
    forall i | 0 <= i < |fs| ensures Typed(fs[i]) <==> FieldHolds(fs[i]) { FieldIs(fs[i]); }
  }

  lemma BodyIs(m: Message)
    requires Holds(m)
    ensures (forall i :: 0 <= i < |ToFields(m)| ==> Typed(ToFields(m)[i])) && EncAll(ToFields(m)) == Body(m)
  {
    hide FieldHolds, FieldBytes, Enc, Typed, Layout, TypeOf, ToFields, Holds, Body, EncAll;
    var fs := ToFields(m);
    Shaped(m);
    HoldsIs(m);
    forall i | 0 <= i < |fs| ensures Typed(fs[i]) && Enc(fs[i]) == FieldBytes(fs[i]) { FieldIs(fs[i]); }
    if TypeOf(m) < 112 { BodyLow(m); } else { BodyHigh(m); }
    Parts(fs);
  }

  /** What convS2M writes for a message, as `ConvS2M` says, is the message on the wire. */
  lemma WireIs(m: Message, tag: int)
    requires U16(tag)
    ensures Holds(m) <==> IsMessage(ToFcall(m, tag))
    ensures Holds(m) ==> Encode(ToFcall(m, tag)) == Wire(m, tag) && WireSize(ToFcall(m, tag)) == |Wire(m, tag)|
  {
    MessageIs(m, tag);
    if Holds(m) {
      hide Body, ToFields, Holds, IsMessage;
      BodyIs(m);
      NumIs(7 + |Body(m)|, 4);
      NumIs(TypeOf(m), 1);
      NumIs(tag, 2);
    }
  }

  /** At most 16 names or qids. */
  predicate FewElements(m: Message) {
    match m
    case Twalk(_, _, wname) => |wname| <= 16
    case Rwalk(wqid) => |wqid| <= 16
    case _ => true
  }

  /** convS2M for a message: its bytes are written if there is room and there are not too many
      names or qids. */
  method WriteMessage(m: Message, tag: int, buf: array<Byte>, nap: nat) returns (n: nat)
    requires nap <= buf.Length && Holds(m) && U16(tag) && |Wire(m, tag)| < 0x1_0000_0000
    modifies buf
    ensures n == if |Wire(m, tag)| <= nap && FewElements(m) then |Wire(m, tag)| else 0
    ensures n > 0 ==> Wrote(old(buf[..]), buf[..], 0, Wire(m, tag))
    ensures n == 0 ==> Within(old(buf[..]), buf[..], 0, nap)
  {
    WireIs(m, tag);
    Shaped(m);
    Few(m);
    n := ConvS2M(ToFcall(m, tag), buf, nap);
  }

  lemma Few(m: Message)
    ensures FewElements(m) <==> NoneTooMany(ToFields(m))
  {
    var fs := ToFields(m);
    assert |fs| > 0 ==> fs[|fs| - 1] == fs[|fs| - 1];
  }

  // -------------------------------------------------------------- the code reads them back

  /** The fields are those of a message of this type. */
  ghost predicate OfType(kind: int, fs: seq<Field>) {
    && Layout(kind).Some? && |fs| == |Layout(kind).value|
    && forall i :: 0 <= i < |fs| ==> KindOf(fs[i]) == Layout(kind).value[i]
  }

  /** Which field of the structure convM2S puts each value into. */
  function FromFields(kind: int, fs: seq<Field>): Message
    requires OfType(kind, fs)
  {
    if kind == 100 then Tversion(fs[0].n, fs[1].s)
    else if kind == 101 then Rversion(fs[0].n, fs[1].s)
    else if kind == 102 then Tauth(fs[0].n, fs[1].s, fs[2].s)
    else if kind == 103 then Rauth(fs[0].q)
    else if kind == 104 then Tattach(fs[0].n, fs[1].n, fs[2].s, fs[3].s)
    else if kind == 105 then Rattach(fs[0].q)
    else if kind == 107 then Rerror(fs[0].s)
    else if kind == 108 then Tflush(fs[0].n)
    else if kind == 109 then Rflush
    else if kind == 110 then Twalk(fs[0].n, fs[1].n, fs[2].names)
    else if kind == 111 then Rwalk(fs[0].qids)
    else if kind == 112 then Topen(fs[0].n, fs[1].n)
    else if kind == 113 then Ropen(fs[0].q, fs[1].n)
    else if kind == 114 then Tcreate(fs[0].n, fs[1].s, fs[2].n, fs[3].n)
    else if kind == 115 then Rcreate(fs[0].q, fs[1].n)
    else if kind == 116 then Tread(fs[0].n, fs[1].n, fs[2].n)
    else if kind == 117 then Rread(fs[0].data)
    else if kind == 118 then Twrite(fs[0].n, fs[1].n, fs[2].data)
    else if kind == 119 then Rwrite(fs[0].n)
    else if kind == 120 then Tclunk(fs[0].n)
    else if kind == 121 then Rclunk
    else if kind == 122 then Tremove(fs[0].n)
    else if kind == 123 then Rremove
    else if kind == 124 then Tstat(fs[0].n)
    else if kind == 125 then Rstat(fs[0].stat)
    else if kind == 126 then Twstat(fs[0].n, fs[1].stat)
    else Rwstat
  }

  lemma FieldsBack(kind: int, fs: seq<Field>)
    requires OfType(kind, fs)
    ensures TypeOf(FromFields(kind, fs)) == kind && ToFields(FromFields(kind, fs)) == fs
  {
    if kind < 112 { FieldsBackLow(kind, fs); } else { FieldsBackHigh(kind, fs); }
  }

  lemma FieldsBackLow(kind: int, fs: seq<Field>)
    requires OfType(kind, fs) && kind < 112
    ensures TypeOf(FromFields(kind, fs)) == kind && ToFields(FromFields(kind, fs)) == fs
  {
  }

  lemma FieldsBackHigh(kind: int, fs: seq<Field>)
    requires OfType(kind, fs) && kind >= 112
    ensures TypeOf(FromFields(kind, fs)) == kind && ToFields(FromFields(kind, fs)) == fs
  {
  }

  function Fill(s: Option<Text>): Option<Text> { Some(if s.None? then [] else s.value) }

  /** The message with its nil strings empty. */
  function Filled(m: Message): Message {
    match m
    case Tversion(msize, version) => Tversion(msize, Fill(version))
    case Rversion(msize, version) => Rversion(msize, Fill(version))
    case Tauth(afid, uname, aname) => Tauth(afid, Fill(uname), Fill(aname))
    case Tattach(fid, afid, uname, aname) => Tattach(fid, afid, Fill(uname), Fill(aname))
    case Rerror(ename) => Rerror(Fill(ename))
    case Twalk(fid, newfid, wname) =>
      Twalk(fid, newfid, seq(|wname|, i requires 0 <= i < |wname| => Fill(wname[i])))
    case Tcreate(fid, name, perm, mode) => Tcreate(fid, Fill(name), perm, mode)
    case _ => m
  }

  predicate ShortStr(s: Option<Text>) { s.Some? ==> |s.value| < 0x1_0000 }

  /** No string is longer than its count can say, and there are at most 16 names or qids. */
  predicate Limits(m: Message) {
    match m
    case Tversion(_, version) => ShortStr(version)
    case Rversion(_, version) => ShortStr(version)
    case Tauth(_, uname, aname) => ShortStr(uname) && ShortStr(aname)
    case Tattach(_, _, uname, aname) => ShortStr(uname) && ShortStr(aname)
    case Rerror(ename) => ShortStr(ename)
    case Twalk(_, _, wname) => |wname| <= 16 && forall i :: 0 <= i < |wname| ==> ShortStr(wname[i])
    case Rwalk(wqid) => |wqid| <= 16
    case Tcreate(_, name, _, _) => ShortStr(name)
    case _ => true
  }

  lemma {:induction false} CanonAt(fs: seq<Field>, i: nat)
    requires i < |fs|
    ensures |CanonAll(fs)| == |fs| && CanonAll(fs)[i] == Canon(fs[i])
    decreases |fs|
  {
    CanonLength(fs);
    if i > 0 { CanonAt(fs[1..], i - 1); }
  }

  lemma {:induction false} CanonLength(fs: seq<Field>)
    ensures |CanonAll(fs)| == |fs|
    decreases |fs|
  {
    if fs != [] { CanonLength(fs[1..]); }
  }

  lemma FilledIs(m: Message)
    ensures TypeOf(Filled(m)) == TypeOf(m) && ToFields(Filled(m)) == CanonAll(ToFields(m))
  {
    var fs, gs := ToFields(m), ToFields(Filled(m));
    CanonLength(fs);
    if m.Twalk? { CanonStrsIs(m.wname); }
    assert |gs| == |fs| <= 4;
    forall i | 0 <= i < |fs| ensures gs[i] == CanonAll(fs)[i] {
      CanonAt(fs, i);
      if m.Twalk? { assert CanonStrs(m.wname) == Filled(m).wname; }
    }
  }

  lemma LimitsIs(m: Message)
    ensures Limits(m) <==> AllFit(ToFields(m))
  {
    var fs := ToFields(m);
    assert |fs| > 0 ==> fs[0] == fs[0];
    assert |fs| > 1 ==> fs[1] == fs[1];
    assert |fs| > 2 ==> fs[2] == fs[2];
    assert |fs| > 3 ==> fs[3] == fs[3];
    if m.Twalk? { assert forall i :: 0 <= i < |m.wname| ==> ShortStr(m.wname[i]) == Short(m.wname[i]); }
  }

  /** A message on the wire, with anything behind it, is read as that message, every field where
      it belongs and nil strings empty, if and only if it is within its limits. */
  lemma WireParses(m: Message, tag: int, t: Text)
    requires Holds(m) && U16(tag) && |Wire(m, tag)| < 0x1_0000_0000
    ensures Parse(Wire(m, tag) + t) == Got(ToFcall(Filled(m), tag), |Wire(m, tag)|) <==> Limits(m)
  {
    WireIs(m, tag);
    FilledIs(m);
    LimitsIs(m);
    RoundTrip(ToFcall(m, tag), t);
  }

  // ---------------------------------------------------------------------- out of the buffer

  /** The C string at a place of the buffer. */
  function CStr(buf: Text, at: nat): Text { if at <= |buf| then UpToNul(buf[at..]) else [] }

  function Slice(buf: Text, at: nat, n: nat): Text { if at + n <= |buf| then buf[at..at + n] else [] }

  /** The value of a field of the structure, by what it points to. */
  function AsField(kind: Kind, slot: Slot, buf: Text): Field {
    match slot
    case SNum(v) =>
      (match kind case K8 => F8(v) case K16 => F16(v) case K32 => F32(v) case _ => F64(v))
    case SStr(at) => FStr(Some(CStr(buf, at)))
    case SQid(q) => FQid(q)
    case SBytes(at, n) => if kind == KData then FData(Slice(buf, at, n)) else FStat(Slice(buf, at, n))
    case SNames(ats) => FNames(seq(|ats|, i requires 0 <= i < |ats| => Some(CStr(buf, ats[i]))))
    case SQids(qs) => FQids(qs)
  }

  lemma {:induction false} CStrIs(s: Text, rest: Text)
    requires NoNul(s) && rest != [] && rest[0] == 0
    ensures UpToNul(s + rest) == s
    decreases |s|
  {
    if s == [] {
      assert s + rest == rest;
    } else {
      assert (s + rest)[1..] == s[1..] + rest && [s[0]] + s[1..] == s;
      CStrIs(s[1..], rest);
    }
  }

  lemma StrRead(buf: Text, at: nat, s: Option<Text>, hi: int)
    requires StrAt(buf, at, s, hi)
    ensures Some(CStr(buf, at)) == s
  {
    CStrIs(s.value, buf[at + |s.value|..]);
    assert buf[at..] == s.value + buf[at + |s.value|..];
  }

  lemma FieldRead(buf: Text, slot: Slot, f: Field, hi: int)
    requires Means(buf, slot, f, hi)
    ensures AsField(KindOf(f), slot, buf) == f
  {
    match f {
      case FStr(s) => StrRead(buf, slot.at, s, hi);
      case FNames(ss) =>
        forall i | 0 <= i < |ss| ensures Some(CStr(buf, slot.ats[i])) == ss[i] { StrRead(buf, slot.ats[i], ss[i], hi); }
        assert AsField(KNames, slot, buf).names == ss;
      case _ =>
    }
  }

  lemma {:induction false} ParsedKinds(kinds: seq<Kind>, b: Text)
    requires ParseFields(kinds, b).Got?
    ensures var fs := ParseFields(kinds, b).v;
      |fs| == |kinds| && forall i :: 0 <= i < |fs| ==> KindOf(fs[i]) == kinds[i]
    decreases |kinds|
  {
    if kinds != [] {
      var f := ParseField(kinds[0], b);
      ParsedKinds(kinds[1..], b[f.n..]);
    }
  }

  /** convM2S, and the message that the structure then holds. */
  method ReadMessage(buf: array<Byte>, nap: nat) returns (n: nat, tag: nat, m: Option<Message>)
    requires nap <= buf.Length
    modifies buf
    ensures n > 0 <==> Parse(old(buf[..nap])).Got?
    ensures m.Some? <==> n > 0
    ensures n > 0 ==> Parse(old(buf[..nap])) == Got(ToFcall(m.value, tag), n)
    ensures Within(old(buf[..]), buf[..], 0, if n > 0 then n else nap)
  {
    hide Parse, ParseFields, ParseField, AsField;
    ghost var b := buf[..nap];
    var kind, slots;
    n, kind, tag, slots := ConvM2S(buf, nap);
    m := None;
    if n > 0 {
      ghost var f := Parse(b).v;
      ParsedType(b);
      var fs := AsFields(Layout(kind), slots, buf[..]);
      forall i | 0 <= i < |slots| ensures fs[i] == f.fields[i] { FieldRead(buf[..], slots[i], f.fields[i], n); }
      assert fs == f.fields;
      FieldsBack(kind, fs);
      m := Some(FromFields(kind, fs));
    }
  }

  function AsFields(layout: Option<seq<Kind>>, slots: seq<Slot>, buf: Text): seq<Field>
    requires layout.Some? && |slots| == |layout.value|
  {
    seq(|slots|, i requires 0 <= i < |slots| => AsField(layout.value[i], slots[i], buf))
  }

  lemma ParsedType(b: Text)
    requires Parse(b).Got?
    ensures OfType(Parse(b).v.kind, Parse(b).v.fields)
  {
    ParsedKinds(Layout(Val(b[4..5])).value, b[HEADER..]);
  }

  /** A message on the wire is read back, whatever lies behind it. */
  method ReadBack(buf: array<Byte>, nap: nat, ghost m0: Message, ghost tag0: int, ghost t: Text)
    returns (n: nat, tag: nat, m: Option<Message>)
    requires nap <= buf.Length && Holds(m0) && U16(tag0) && |Wire(m0, tag0)| < 0x1_0000_0000
    requires buf[..nap] == Wire(m0, tag0) + t
    modifies buf
    ensures n == |Wire(m0, tag0)| && tag == tag0 && m == Some(Filled(m0)) <==> Limits(m0)
  {
    hide Wire, Parse, Holds;
    n, tag, m := ReadMessage(buf, nap);
    WireParses(m0, tag0, t);
    MessageBack(Filled(m0));
    if m.Some? { MessageBack(m.value); }
  }

  lemma MessageBack(m: Message)
    ensures OfType(TypeOf(m), ToFields(m)) && FromFields(TypeOf(m), ToFields(m)) == m
  {
    Shaped(m);
    if TypeOf(m) < 112 { BackLow(m); } else { BackHigh(m); }
  }

  lemma BackLow(m: Message)
    requires OfType(TypeOf(m), ToFields(m)) && TypeOf(m) < 112
    ensures FromFields(TypeOf(m), ToFields(m)) == m
  {
    hide Layout;
  }

  lemma BackHigh(m: Message)
    requires OfType(TypeOf(m), ToFields(m)) && TypeOf(m) >= 112
    ensures FromFields(TypeOf(m), ToFields(m)) == m
  {
    hide Layout;
  }
}
