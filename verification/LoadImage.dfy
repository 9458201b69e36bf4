/** The decoder of compressed images (libmemdraw/cload.c) and the reader of image files
    (libmemdraw/cread.c), which give back what the compressor was given. */
module LoadImage {
  import opened Bytes
  import opened ImageCode
  import opened W = WriteImage

  // ------------------------------------------------------- the window of the decoder

  /** The place in the window d bytes before the place m. */
  function Back(m: nat, d: nat): nat
    requires m < NMEM && 1 <= d <= NMEM
  {
    if m < d then m + (NMEM - d) else m - d
  }

  /** The window holds the last NMEM bytes of hist; the next byte goes to the place m. */
  ghost predicate Ring(mem: seq<Byte>, m: nat, hist: seq<Byte>) {
    && |mem| == NMEM && m < NMEM <= |hist|
    && forall d {:trigger Back(m, d)} :: 1 <= d <= NMEM ==> mem[Back(m, d)] == hist[|hist| - d]
  }

  function Wrap(m: nat): nat { if m == NMEM then 0 else m }

  lemma RingPut(mem: seq<Byte>, m: nat, hist: seq<Byte>, v: Byte)
    requires Ring(mem, m, hist)
    ensures Ring(mem[m := v], Wrap(m + 1), hist + [v])
  {
    var m', hist' := Wrap(m + 1), hist + [v];
    forall d | 1 <= d <= NMEM ensures mem[m := v][Back(m', d)] == hist'[|hist'| - d] {
      if d > 1 { assert Back(m', d) == Back(m, d - 1) != m; }
    }
  }

  /** Put the byte v into the line and the window. */
  method PutByte(img: array<Byte>, linep: nat, mem: array<Byte>, memp: nat, v: Byte, ghost hist: seq<Byte>)
    returns (memp': nat)
    requires img != mem && linep < img.Length && Ring(mem[..], memp, hist)
    modifies img, mem
    ensures Ring(mem[..], memp', hist + [v]) && img[..] == old(img[..])[linep := v] && memp' == Wrap(memp + 1)
  {
    RingPut(mem[..], memp, hist, v);
    ghost var was := mem[..];
    img[linep] := v;
    mem[memp] := v;
    assert mem[..] == was[memp := v];
    memp' := memp + 1;
    if memp' == NMEM {
      memp' := 0;
    }
  }

  lemma WroteOne(a: seq<Byte>, b: seq<Byte>, s: nat, w: seq<Byte>, v: Byte)
    requires Wrote(a, b, s, w) && s + |w| < |b|
    ensures Wrote(a, b[s + |w| := v], s, w + [v])
  {
    assert Wrote(b, b[s + |w| := v], s + |w|, [v]);
    WroteMore(a, b, b[s + |w| := v], s, w, [v]);
  }

  /** cnt bytes as they are. */
  method LoadDump(img: array<Byte>, linep: nat, elinep: nat, mem: array<Byte>, memp: nat, data: seq<Byte>, u: nat,
                  cnt: nat, ghost hist: seq<Byte>)
    returns (ok: bool, memp': nat)
    requires img != mem && linep <= elinep <= img.Length && u <= |data| && Ring(mem[..], memp, hist)
    modifies img, mem
    ensures ok <==> u + cnt <= |data| && linep + cnt <= elinep
    ensures ok ==> Ring(mem[..], memp', hist + data[u..u + cnt])
    ensures ok ==> Wrote(old(img[..]), img[..], linep, data[u..u + cnt])
    ensures Within(old(img[..]), img[..], linep, elinep)
  {
    memp' := memp;
    var k := 0;
    assert data[u..u] == [] && hist + [] == hist;
    while k != cnt
      invariant k <= cnt && u + k <= |data| && linep + k <= elinep
      invariant Ring(mem[..], memp', hist + data[u..u + k])
      invariant Wrote(old(img[..]), img[..], linep, data[u..u + k])
    {
      if u + k == |data| || linep + k == elinep {
        return false, memp';
      }
      ghost var now := data[u..u + k];
      assert data[u..u + k + 1] == now + [data[u + k]];
      assert hist + (now + [data[u + k]]) == hist + now + [data[u + k]];
      WroteOne(old(img[..]), img[..], linep, now, data[u + k]);
      memp' := PutByte(img, linep + k, mem, memp', data[u + k], hist + now);
      k := k + 1;
    }
    ok := true;
  }

  /** cnt bytes from offs back. */
  method LoadMatch(img: array<Byte>, linep: nat, elinep: nat, mem: array<Byte>, memp: nat, offs: nat, cnt: nat,
                   ghost hist: seq<Byte>)
    returns (ok: bool, memp': nat, ghost w: seq<Byte>)
    requires img != mem && linep <= elinep <= img.Length && 1 <= offs <= NMEM && Ring(mem[..], memp, hist)
    modifies img, mem
    ensures ok <==> linep + cnt <= elinep
    ensures ok ==> hist + w == Copy(hist, offs, cnt) && |w| == cnt
    ensures ok ==> Ring(mem[..], memp', hist + w) && Wrote(old(img[..]), img[..], linep, w)
    ensures Within(old(img[..]), img[..], linep, elinep)
  {
    memp', w := memp, [];
    var omemp := if memp < offs then memp + (NMEM - offs) else memp - offs;
    var k := 0;
    assert hist + [] == hist;
    while k != cnt
      invariant k <= cnt && |w| == k && linep + k <= elinep
      invariant Ring(mem[..], memp', hist + w) && omemp == Back(memp', offs)
      invariant Copy(hist + w, offs, cnt - k) == Copy(hist, offs, cnt)
      invariant Wrote(old(img[..]), img[..], linep, w)
    {
      if linep + k == elinep {
        return false, memp', w;
      }
      var v := mem[omemp];
      assert hist + w + [v] == hist + (w + [v]);
      WroteOne(old(img[..]), img[..], linep, w, v);
      memp' := PutByte(img, linep + k, mem, memp', v, hist + w);
      w := w + [v];
      omemp := omemp + 1;
      if omemp == NMEM {
        omemp := 0;
      }
      k := k + 1;
    }
    ok := true;
  }

  /** One code.  It is refused if it is not all there or does not fit into the line. */
  method LoadCode(img: array<Byte>, linep: nat, elinep: nat, mem: array<Byte>, memp: nat, data: seq<Byte>, u: nat,
                  ghost hist: seq<Byte>)
    returns (ok: bool, u': nat, linep': nat, memp': nat, ghost w: seq<Byte>)
    requires img != mem && linep <= elinep <= img.Length && u <= |data| && Ring(mem[..], memp, hist)
    modifies img, mem
    ensures ok <==> u < |data| && FirstLen(data[u..]) <= |data| - u && FirstSpan(data[u..]) <= elinep - linep
    ensures ok ==> u' == u + FirstLen(data[u..]) && |w| == FirstSpan(data[u..]) && linep' == linep + |w|
    ensures ok ==> Decode(data[u..u'], hist) == Some(hist + w)
    ensures ok ==> Ring(mem[..], memp', hist + w) && Wrote(old(img[..]), img[..], linep, w)
    ensures Within(old(img[..]), img[..], linep, elinep)
  {
    ok, u', linep', memp', w := false, u, linep, memp, [];
    if u == |data| {
      return;
    }
    var c := data[u];
    if c >= 128 {
      var cnt := c - 128 + 1;
      ok, memp' := LoadDump(img, linep, elinep, mem, memp, data, u + 1, cnt, hist);
      if ok {
        u', linep', w := u + 1 + cnt, linep + cnt, data[u + 1..u + 1 + cnt];
        DumpAlone(data[u..u'], w, hist);
      }
    } else if u + 1 < |data| {
      var offs := data[u + 1] + c % 4 * 256 + 1;
      ok, memp', w := LoadMatch(img, linep, elinep, mem, memp, offs, c / 4 + NMATCH, hist);
      if ok {
        u', linep' := u + 2, linep + (c / 4 + NMATCH);
        MatchAlone(data[u..u'], hist);
      }
    }
  }

  lemma DumpAlone(d: seq<Byte>, w: seq<Byte>, hist: seq<Byte>)
    requires d != [] && d[0] >= 128 && d == [d[0]] + w && |w| == d[0] - 127
    ensures Decode(d, hist) == Some(hist + w)
  {
    assert d[1..1 + |w|] == w && d[1 + |w|..] == [];
  }

  lemma MatchAlone(d: seq<Byte>, hist: seq<Byte>)
    requires |d| == 2 && d[0] < 128 && NMEM <= |hist|
    ensures Decode(d, hist) == Some(Copy(hist, Dist(d[0], d[1]), RunLen(d[0])))
  {
    assert d[2..] == [];
  }

  // --------------------------------------------------------------------- lines of an image

  /** The address of line k. */
  function LineAddr(at: nat, stride: nat, k: nat): nat { at + k * stride }

  function Line(img: seq<Byte>, a: nat, bpl: nat): seq<Byte> { if a + bpl <= |img| then img[a..a + bpl] else [] }

  /** The first h lines, one after the other. */
  function Lines(img: seq<Byte>, at: nat, stride: nat, bpl: nat, h: nat): seq<Byte> {
    if h == 0 then [] else Lines(img, at, stride, bpl, h - 1) + Line(img, LineAddr(at, stride, h - 1), bpl)
  }

  lemma NextAddr(at: nat, stride: nat, k: nat)
    ensures LineAddr(at, stride, k + 1) == LineAddr(at, stride, k) + stride && LineAddr(at, stride, k) >= at
  {
  }

  lemma {:induction false} AddrMono(at: nat, stride: nat, j: nat, k: nat)
    requires j <= k
    ensures LineAddr(at, stride, j) <= LineAddr(at, stride, k)
    decreases k - j
  {
    if j < k {
      NextAddr(at, stride, k - 1);
      AddrMono(at, stride, j, k - 1);
    }
  }

  /** Writing behind the first h lines does not change them. */
  lemma {:induction false} LinesSame(img: seq<Byte>, img': seq<Byte>, at: nat, stride: nat, bpl: nat, h: nat)
    requires bpl <= stride && |img| == |img'| && LineAddr(at, stride, h) <= |img|
    requires forall a :: 0 <= a < LineAddr(at, stride, h) ==> img'[a] == img[a]
    ensures Lines(img', at, stride, bpl, h) == Lines(img, at, stride, bpl, h)
  {
    if h > 0 {
      NextAddr(at, stride, h - 1);
      LinesSame(img, img', at, stride, bpl, h - 1);
      var a := LineAddr(at, stride, h - 1);
      assert img'[a..a + bpl] == img[a..a + bpl];
    }
  }

  lemma {:induction false} LinesSplit(img: seq<Byte>, at: nat, stride: nat, bpl: nat, j: nat, k: nat)
    ensures Lines(img, at, stride, bpl, j + k) ==
            Lines(img, at, stride, bpl, j) + Lines(img, LineAddr(at, stride, j), stride, bpl, k)
    decreases k
  {
    if k > 0 {
      LinesSplit(img, at, stride, bpl, j, k - 1);
      assert LineAddr(at, stride, j + k - 1) == LineAddr(LineAddr(at, stride, j), stride, k - 1);
    }
  }

  /** The address a is not in the first h lines. */
  ghost predicate Between(at: nat, stride: nat, bpl: nat, h: nat, a: int) {
    forall k: nat {:trigger LineAddr(at, stride, k)} :: k < h ==>
      !(LineAddr(at, stride, k) <= a < LineAddr(at, stride, k) + bpl)
  }

  /** Nothing has changed but in the first h lines. */
  ghost predicate Untouched(was: seq<Byte>, img: seq<Byte>, at: nat, stride: nat, bpl: nat, h: nat) {
    && |img| == |was|
    && forall a :: 0 <= a < |img| && Between(at, stride, bpl, h, a) ==> img[a] == was[a]
  }

  lemma UntouchedMore(was: seq<Byte>, img: seq<Byte>, img': seq<Byte>, at: nat, stride: nat, bpl: nat, h: nat, k: nat)
    requires Untouched(was, img, at, stride, bpl, h) && k < h
    requires Within(img, img', LineAddr(at, stride, k), LineAddr(at, stride, k) + bpl)
    ensures Untouched(was, img', at, stride, bpl, h)
  {
  }

  // ------------------------------------------------------------------------ cloadmemimage

  /** The decoder is on line k of h, has room bytes of it to go, and has written cur into it. */
  ghost predicate Loading(was: seq<Byte>, img: seq<Byte>, at: nat, stride: nat, bpl: nat, h: nat, k: nat, room: nat,
                          linep: nat, g: seq<Byte>, cur: seq<Byte>, hist: seq<Byte>)
  {
    && k < h && room + |cur| == bpl <= stride && linep == LineAddr(at, stride, k) + |cur|
    && LineAddr(at, stride, h) <= |img| && LineAddr(at, stride, k) + bpl <= |img|
    && hist == g + Lines(img, at, stride, bpl, k) + cur
    && img[LineAddr(at, stride, k)..linep] == cur
    && Untouched(was, img, at, stride, bpl, h)
  }

  lemma LoadingFirst(img: seq<Byte>, first: nat, j: nat, all: nat, at: nat, stride: nat, bpl: nat, h: nat)
    requires bpl <= stride && j + h <= all && h > 0 && LineAddr(first, stride, all) <= |img|
    requires at == LineAddr(first, stride, j)
    ensures Loading(img, img, at, stride, bpl, h, 0, bpl, at, [], [], [])
  {
    AddrMono(first, stride, j + h, all);
    assert LineAddr(at, stride, h) == LineAddr(first, stride, j + h);
    AddrMono(at, stride, 1, h);
    NextAddr(at, stride, 0);
  }

  lemma LoadingAfter(img: seq<Byte>, at: nat, stride: nat, bpl: nat, h: nat, g: seq<Byte>)
    requires Loading(img, img, at, stride, bpl, h, 0, bpl, at, [], [], [])
    ensures Loading(img, img, at, stride, bpl, h, 0, bpl, at, g, [], g)
  {
    assert Lines(img, at, stride, bpl, 0) == [];
  }

  lemma Fresh(mem: seq<Byte>)
    requires |mem| == NMEM
    ensures Ring(mem, 0, mem)
  {
  }

  /** When a code has been refused. */
  lemma LoadingPart(was: seq<Byte>, img: seq<Byte>, img': seq<Byte>, at: nat, stride: nat, bpl: nat, h: nat, k: nat,
                    room: nat, linep: nat, g: seq<Byte>, cur: seq<Byte>, hist: seq<Byte>)
    requires Loading(was, img, at, stride, bpl, h, k, room, linep, g, cur, hist)
    requires Within(img, img', linep, linep + room)
    ensures Untouched(was, img', at, stride, bpl, h)
  {
    UntouchedMore(was, img, img', at, stride, bpl, h, k);
  }

  /** After a code. */
  lemma LoadingMore(was: seq<Byte>, img: seq<Byte>, img': seq<Byte>, at: nat, stride: nat, bpl: nat, h: nat, k: nat,
                    room: nat, linep: nat, g: seq<Byte>, cur: seq<Byte>, hist: seq<Byte>, w: seq<Byte>)
    requires Loading(was, img, at, stride, bpl, h, k, room, linep, g, cur, hist)
    requires |w| <= room && Wrote(img, img', linep, w)
    ensures Loading(was, img', at, stride, bpl, h, k, room - |w|, linep + |w|, g, cur + w, hist + w)
  {
    var a := LineAddr(at, stride, k);
    AddrMono(at, stride, k, h);
    LinesSame(img, img', at, stride, bpl, k);
    assert img'[a..linep] == cur && img'[a..linep + |w|] == img'[a..linep] + img'[linep..linep + |w|];
    UntouchedMore(was, img, img', at, stride, bpl, h, k);
  }

  /** At the end of a line. */
  lemma LoadingLine(was: seq<Byte>, img: seq<Byte>, at: nat, stride: nat, bpl: nat, h: nat, k: nat, linep: nat,
                    g: seq<Byte>, cur: seq<Byte>, hist: seq<Byte>)
    requires Loading(was, img, at, stride, bpl, h, k, 0, linep, g, cur, hist)
    ensures hist == g + Lines(img, at, stride, bpl, k + 1)
    ensures k + 1 < h ==> LineAddr(at, stride, k + 1) + bpl <= |img|
    ensures k + 1 < h ==> Loading(was, img, at, stride, bpl, h, k + 1, bpl, LineAddr(at, stride, k + 1), g, [], hist)
  {
    var done, line := Lines(img, at, stride, bpl, k), Line(img, LineAddr(at, stride, k), bpl);
    assert g + done + line == g + (done + line);
    if k + 1 < h {
      NextAddr(at, stride, k + 1);
      AddrMono(at, stride, k + 2, h);
    }
  }

  /** How far the decoder is: u bytes of the code stand for hist, and the rest is for the room in
      line k and the lines behind it. */
  ghost predicate Sofar(code: seq<Byte>, u: nat, g: seq<Byte>, hist: seq<Byte>, room: nat, bpl: nat, h: nat, k: nat) {
    && u <= |code| && k < h && Decode(code[..u], g) == Some(hist)
    && var more := Loaded(code[u..], room, bpl, h - 1 - k);
      Loaded(code, bpl, bpl, h - 1) == if more < 0 then -1 else u + more
  }

  lemma SofarFirst(code: seq<Byte>, g: seq<Byte>, bpl: nat, h: nat)
    requires h > 0
    ensures Sofar(code, 0, g, g, bpl, bpl, h, 0)
  {
    assert code[..0] == [] && code[0..] == code;
  }

  lemma SofarLine(code: seq<Byte>, u: nat, g: seq<Byte>, hist: seq<Byte>, bpl: nat, h: nat, k: nat)
    requires Sofar(code, u, g, hist, 0, bpl, h, k)
    ensures k + 1 == h ==> Loaded(code, bpl, bpl, h - 1) == u
    ensures k + 1 < h && bpl > 0 ==> Sofar(code, u, g, hist, bpl, bpl, h, k + 1)
    ensures k + 1 < h && bpl == 0 ==> Loaded(code, bpl, bpl, h - 1) == -1
  {
  }

  lemma SofarMore(code: seq<Byte>, u: nat, u': nat, g: seq<Byte>, hist: seq<Byte>, w: seq<Byte>, room: nat, bpl: nat,
                  h: nat, k: nat)
    requires Sofar(code, u, g, hist, room, bpl, h, k) && u < |code| && u' == u + FirstLen(code[u..]) <= |code|
    requires |w| == FirstSpan(code[u..]) <= room && Decode(code[u..u'], hist) == Some(hist + w)
    ensures Sofar(code, u', g, hist + w, room - |w|, bpl, h, k)
  {
    FirstLoaded(code[u..], room, bpl, h - 1 - k);
    hide Loaded, FirstLen, FirstSpan, Decode;
    DecodeAppend(code[..u], code[u..u'], g);
    assert code[..u] + code[u..u'] == code[..u'];
    assert code[u..][u' - u..] == code[u'..];
  }

  lemma FirstLoaded(c: seq<Byte>, room: nat, bpl: nat, more: nat)
    requires c != [] && FirstLen(c) <= |c| && FirstSpan(c) <= room
    ensures var k := Loaded(c[FirstLen(c)..], room - FirstSpan(c), bpl, more);
      Loaded(c, room, bpl, more) == if k < 0 then -1 else FirstLen(c) + k
  {
  }

  /** One code, on line k. */
  method LoadTurn(img: array<Byte>, ghost was: seq<Byte>, ghost at: nat, ghost stride: nat, ghost bpl: nat,
                  ghost h: nat, ghost k: nat, linep: nat, elinep: nat, mem: array<Byte>, memp: nat, code: seq<Byte>,
                  u: nat, ghost g: seq<Byte>, ghost cur: seq<Byte>, ghost hist: seq<Byte>)
    returns (ok: bool, u': nat, linep': nat, memp': nat, ghost w: seq<Byte>)
    requires img != mem && linep <= elinep <= img.Length && u <= |code| && Ring(mem[..], memp, hist)
    requires Loading(was, img[..], at, stride, bpl, h, k, elinep - linep, linep, g, cur, hist)
    requires if linep < elinep then Sofar(code, u, g, hist, elinep - linep, bpl, h, k)
             else Loaded(code, bpl, bpl, h - 1) == -1
    modifies img, mem
    ensures ok ==> u < u' && linep' <= elinep && Ring(mem[..], memp', hist + w)
    ensures ok ==> Loading(was, img[..], at, stride, bpl, h, k, elinep - linep', linep', g, cur + w, hist + w)
    ensures ok ==> Sofar(code, u', g, hist + w, elinep - linep', bpl, h, k)
    ensures !ok ==> Loaded(code, bpl, bpl, h - 1) == -1 && Untouched(was, img[..], at, stride, bpl, h)
  {
    hide Ring, Decode, Wrote, Untouched, Within, Lines;
    ghost var img0 := img[..];
    ok, u', linep', memp', w := LoadCode(img, linep, elinep, mem, memp, code, u, hist);
    if ok {
      LoadingMore(was, img0, img[..], at, stride, bpl, h, k, elinep - linep, linep, g, cur, hist, w);
      SofarMore(code, u, u', g, hist, w, elinep - linep, bpl, h, k);
    } else {
      LoadingPart(was, img0, img[..], at, stride, bpl, h, k, elinep - linep, linep, g, cur, hist);
    }
  }

  /** cloadmemimage for h lines; the window is not set to anything: g is what happens to be in
      it. */
  method LoadLines(img: array<Byte>, at: nat, stride: nat, bpl: nat, h: nat, code: seq<Byte>)
    returns (n: int, ghost g: seq<Byte>)
    requires Loading(img[..], img[..], at, stride, bpl, h, 0, bpl, at, [], [], [])
    modifies img
    ensures n == Loaded(code, bpl, bpl, h - 1) && Untouched(old(img[..]), img[..], at, stride, bpl, h)
    ensures n >= 0 ==> Decode(code[..n], g) == Some(g + Lines(img[..], at, stride, bpl, h))
  {
    hide Ring, Decode, Wrote, Untouched, Within, Lines, Loaded;
    var mem := new Byte[NMEM];
    g := mem[..];
    ghost var was, hist, cur, k := img[..], g, [], 0;
    var u: nat, memp: nat, y: nat, linep: nat, elinep := 0, 0, 0, at, at + bpl;
    Fresh(mem[..]);
    LoadingAfter(was, at, stride, bpl, h, g);
    SofarFirst(code, g, bpl, h);
    while true
      invariant y < h && linep <= elinep <= img.Length && Ring(mem[..], memp, hist)
      invariant Loading(was, img[..], at, stride, bpl, h, y, elinep - linep, linep, g, cur, hist)
      invariant Sofar(code, u, g, hist, elinep - linep, bpl, h, y)
      decreases |code| - u
    {
      if linep == elinep {
        LoadingLine(was, img[..], at, stride, bpl, h, y, linep, g, cur, hist);
        SofarLine(code, u, g, hist, bpl, h, y);
        y := y + 1;
        if y == h {
          return u, g;
        }
        cur := [];
        linep := LineAddr(at, stride, y);
        elinep := linep + bpl;
      }
      ghost var u0 := u;
      var ok;
      ghost var w;
      ok, u, linep, memp, w :=
        LoadTurn(img, was, at, stride, bpl, h, y, linep, elinep, mem, memp, code, u, g, cur, hist);
      if !ok {
        return -1, g;
      }
      cur, hist := cur + w, hist + w;
    }
  }

  /** An image in memory: where its first line is, and how far the lines are apart. */
  class Memimage {
    const data: array<Byte>
    const first: nat
    const stride: nat
    const bpl: nat
    const miny: int
    const maxy: int

    ghost predicate Valid() {
      bpl <= stride && miny <= maxy && LineAddr(first, stride, maxy - miny) <= data.Length
    }

    /** allocmemimage. */
    constructor (bpl: nat, stride: nat, miny: int, maxy: int)
      requires bpl <= stride && miny <= maxy
      ensures Valid() && fresh(data)
      ensures this.bpl == bpl && this.stride == stride && this.miny == miny && this.maxy == maxy
    {
      this.first, this.stride, this.bpl, this.miny, this.maxy := 0, stride, bpl, miny, maxy;
      data := new Byte[(maxy - miny) * stride];
    }

    /** byteaddr of the beginning of line y. */
    function Addr(y: int): nat
      requires miny <= y
    {
      LineAddr(first, stride, y - miny)
    }

    /** The lines y0 to y1. */
    ghost function Picture(y0: int, y1: int): seq<Byte>
      requires miny <= y0 <= y1
      reads data
    {
      Lines(data[..], Addr(y0), stride, bpl, y1 - y0)
    }

    /** cloadmemimage for the lines y0 to y1, as wide as the image.  The window is not set to
        anything: g is what happens to be in it. */
    method CloadMemImage(y0: int, y1: int, code: seq<Byte>) returns (n: int, ghost g: seq<Byte>)
      requires Valid() && y0 < y1
      modifies data
      ensures n == if miny <= y0 && y1 <= maxy then Loaded(code, bpl, bpl, y1 - y0 - 1) else -1
      ensures n >= 0 ==> Decode(code[..n], g) == Some(g + Picture(y0, y1))
      ensures if miny <= y0 && y1 <= maxy then Untouched(old(data[..]), data[..], Addr(y0), stride, bpl, y1 - y0)
              else data[..] == old(data[..])
    {
      if y0 < miny || maxy < y1 {
        return -1, [];
      }
      LoadingFirst(data[..], first, y0 - miny, maxy - miny, Addr(y0), stride, bpl, y1 - y0);
      n, g := LoadLines(data, Addr(y0), stride, bpl, y1 - y0, code);
    }
  }

  // ------------------------------------------------------------------------ creadmemimage

  /** What is read from a file; one of the old format has the bits the other way round. */
  function AsRead(s: seq<Byte>, oldFormat: bool): seq<Byte> { if oldFormat then FlipAll(s) else s }

  /** The lines before those that have been written are as they were. */
  lemma FrontUntouched(was: seq<Byte>, img: seq<Byte>, at: nat, stride: nat, bpl: nat, h: nat)
    requires Untouched(was, img, at, stride, bpl, h)
    ensures forall a :: 0 <= a < at && a < |img| ==> img[a] == was[a]
  {
    forall a | 0 <= a < at && a < |img| ensures img[a] == was[a] {
      forall k: nat | k < h ensures LineAddr(at, stride, k) > a { NextAddr(at, stride, k); }
    }
  }

  /** The code of a block, twiddled if the file is of the old format, is loaded. */
  method LoadBlock(i: Memimage, y0: int, y1: int, code: seq<Byte>, oldFormat: bool)
    requires i.Valid() && i.miny <= y0 < y1 <= i.maxy && (oldFormat ==> WellFormed(code))
    modifies i.data
    ensures Untouched(old(i.data[..]), i.data[..], i.Addr(y0), i.stride, i.bpl, y1 - y0)
    ensures Loaded(code, i.bpl, i.bpl, y1 - y0 - 1) == |code| && Decode(code, []).Some? ==>
      i.Picture(y0, y1) == AsRead(Decode(code, []).value, oldFormat)
  {
    hide Loaded, Decode, Lines, Untouched, WellFormed, Twiddle, FlipAll;
    var buf := new Byte[|code|](j requires 0 <= j < |code| => code[j]);
    assert buf[..] == code;
    if oldFormat {
      TwiddledLoads(code, i.bpl, i.bpl, y1 - y0 - 1);
      TwiddleCommutes(code, []);
      FlipNothing();
      TwiddleCompressed(buf);
    }
    ghost var c := buf[..];
    var n;
    ghost var g;
    n, g := i.CloadMemImage(y0, y1, buf[..]);
    if n == |c| && Decode(c, []).Some? {
      assert c[..n] == c && g + [] == g;
      DecodeBehind(g, c, []);
      SameTail(g, i.Picture(y0, y1), Decode(c, []).value);
    }
  }

  lemma FlipNothing()
    ensures FlipAll([]) == []
  {
  }

  lemma SameTail(g: seq<Byte>, a: seq<Byte>, b: seq<Byte>)
    requires g + a == g + b
    ensures a == b
  {
    assert (g + a)[|g|..] == a && (g + b)[|g|..] == b;
  }

  /** The headers from block b on are accepted: each names a row below the last, up to maxy, and
      the size of a code that fits. */
  predicate Headers(blocks: seq<Block>, b: nat, y: int, maxy: int, ncblock: nat)
    decreases |blocks| - b
  {
    y == maxy ||
    (b < |blocks| && y < blocks[b].ymax <= maxy && 0 < |blocks[b].code| <= ncblock
     && Headers(blocks, b + 1, blocks[b].ymax, maxy, ncblock))
  }

  /** The blocks are those of the image data, as the compressor writes them. */
  ghost predicate IsImage(blocks: seq<Block>, data: seq<Byte>, miny: int, rows: nat, bpl: nat) {
    && Top(blocks, |blocks|, miny) == miny + rows && rows * bpl <= |data|
    && forall k :: 0 <= k < |blocks| ==> BlockIs(blocks, k, data, rows, miny, bpl, CompBlockSize(bpl))
  }

  /** The image so far has the rows before y, with b blocks read. */
  ghost predicate ReadSoFar(img: seq<Byte>, first: nat, stride: nat, bpl: nat, miny: int, blocks: seq<Block>, b: nat,
                            y: int, data: seq<Byte>, oldFormat: bool)
  {
    && b <= |blocks| && miny <= y == Top(blocks, b, miny) && 0 <= (y - miny) * bpl <= |data|
    && Lines(img, first, stride, bpl, y - miny) == AsRead(data[..(y - miny) * bpl], oldFormat)
  }

  /** One block more. */
  lemma ReadMore(was: seq<Byte>, img: seq<Byte>, first: nat, stride: nat, bpl: nat, miny: int, rows: nat,
                 blocks: seq<Block>, b: nat, y: int, data: seq<Byte>, oldFormat: bool)
    requires IsImage(blocks, data, miny, rows, bpl) && b < |blocks| && bpl <= stride
    requires ReadSoFar(was, first, stride, bpl, miny, blocks, b, y, data, oldFormat) && y < blocks[b].ymax
    requires var at, h, code := LineAddr(first, stride, y - miny), blocks[b].ymax - y, blocks[b].code;
      && at <= |was| && Untouched(was, img, at, stride, bpl, h)
      && (Loaded(code, bpl, bpl, h - 1) == |code| && Decode(code, []).Some? ==>
            Lines(img, at, stride, bpl, h) == AsRead(Decode(code, []).value, oldFormat))
    ensures ReadSoFar(img, first, stride, bpl, miny, blocks, b + 1, blocks[b].ymax, data, oldFormat)
  {
    hide Lines, Loaded, Decode, FlipAll, Untouched;
    var j, h := y - miny, blocks[b].ymax - y;
    var m, e := j * bpl, (j + h) * bpl;
    assert BlockIs(blocks, b, data, rows, miny, bpl, CompBlockSize(bpl));
    FrontUntouched(was, img, LineAddr(first, stride, j), stride, bpl, h);
    SameSize(was, img, LineAddr(first, stride, j), stride, bpl, h);
    LinesSame(was, img, first, stride, bpl, j);
    LinesSplit(img, first, stride, bpl, j, h);
    assert data[..m] + data[m..e] == data[..e];
    FlipAppend(data[..m], data[m..e]);
  }

  /** The next header of an image is accepted. */
  lemma ReadHeader(img: seq<Byte>, first: nat, stride: nat, bpl: nat, miny: int, rows: nat, blocks: seq<Block>,
                   b: nat, y: int, data: seq<Byte>, oldFormat: bool)
    requires IsImage(blocks, data, miny, rows, bpl)
    requires ReadSoFar(img, first, stride, bpl, miny, blocks, b, y, data, oldFormat) && y != miny + rows
    ensures b < |blocks| && y < blocks[b].ymax <= miny + rows && 0 < |blocks[b].code| <= CompBlockSize(bpl)
  {
    assert BlockIs(blocks, b, data, rows, miny, bpl, CompBlockSize(bpl));
  }

  lemma SameSize(was: seq<Byte>, img: seq<Byte>, at: nat, stride: nat, bpl: nat, h: nat)
    requires Untouched(was, img, at, stride, bpl, h)
    ensures |img| == |was|
  {
  }

  lemma ReadFirst(img: seq<Byte>, first: nat, stride: nat, bpl: nat, miny: int, blocks: seq<Block>, data: seq<Byte>,
                  oldFormat: bool)
    ensures ReadSoFar(img, first, stride, bpl, miny, blocks, 0, miny, data, oldFormat)
  {
    FlipNothing();
    assert data[..0] == [];
  }

  /** The blocks are those of an image, and what there is of it in memory has b of them. */
  ghost predicate Reading(i: Memimage, blocks: seq<Block>, b: nat, y: int, data: seq<Byte>, oldFormat: bool)
    reads i.data
  {
    && i.miny <= i.maxy && IsImage(blocks, data, i.miny, i.maxy - i.miny, i.bpl)
    && ReadSoFar(i.data[..], i.first, i.stride, i.bpl, i.miny, blocks, b, y, data, oldFormat)
  }

  /** The body of the loop of creadmemimage. */
  method ReadBlock(i: Memimage, blocks: seq<Block>, b: nat, y: int, oldFormat: bool, ghost data: seq<Byte>)
    returns (ok: bool, y1: int)
    requires i.Valid() && i.miny <= y < i.maxy && b <= |blocks|
    requires oldFormat ==> forall k :: 0 <= k < |blocks| ==> WellFormed(blocks[k].code)
    modifies i.data
    ensures ok <==> b < |blocks| && y < blocks[b].ymax <= i.maxy && 0 < |blocks[b].code| <= CompBlockSize(i.bpl)
    ensures ok ==> y1 == blocks[b].ymax
    ensures old(Reading(i, blocks, b, y, data, oldFormat)) ==> ok && Reading(i, blocks, b + 1, y1, data, oldFormat)
  {
    hide IsImage, ReadSoFar, Lines, Untouched, AsRead, WellFormed, CompBlockSize, Loaded, Decode;
    ghost var was, right := i.data[..], Reading(i, blocks, b, y, data, oldFormat);
    if right { ReadHeader(was, i.first, i.stride, i.bpl, i.miny, i.maxy - i.miny, blocks, b, y, data, oldFormat); }
    ok, y1 := false, y;
    if b == |blocks| {
      return;
    }
    var y', nb := blocks[b].ymax, |blocks[b].code|;
    if y' <= y || i.maxy < y' || nb <= 0 || CompBlockSize(i.bpl) < nb {
      return;
    }
    LoadBlock(i, y, y', blocks[b].code, oldFormat);
    ok, y1 := true, y';
    if right {
      ReadMore(was, i.data[..], i.first, i.stride, i.bpl, i.miny, i.maxy - i.miny, blocks, b, y, data, oldFormat);
    }
  }

  /** creadmemimage, behind the header of the file: the image, or nil if the header of a block is
      bad or the file too short.  What cloadmemimage says is not looked at. */
  method CreadMemImage(blocks: seq<Block>, bpl: nat, stride: nat, miny: int, maxy: int, oldFormat: bool,
                       ghost data: seq<Byte>)
    returns (i: Memimage?)
    requires bpl <= stride && (oldFormat ==> forall k :: 0 <= k < |blocks| ==> WellFormed(blocks[k].code))
    ensures i != null <==> miny <= maxy && Headers(blocks, 0, miny, maxy, CompBlockSize(bpl))
    ensures i != null ==>
      i.Valid() && fresh(i) && fresh(i.data) && i.miny == miny && i.maxy == maxy && i.bpl == bpl && i.stride == stride
    ensures miny <= maxy && IsImage(blocks, data, miny, maxy - miny, bpl) ==>
      i != null && i.Picture(miny, maxy) == AsRead(data[..(maxy - miny) * bpl], oldFormat)
  {
    hide IsImage, ReadSoFar, AsRead, WellFormed, CompBlockSize, Lines;
    if miny > maxy {
      return null;
    }
    var image := new Memimage(bpl, stride, miny, maxy);
    ReadFirst(image.data[..], image.first, stride, bpl, miny, blocks, data, oldFormat);
    var b, y := 0, miny;
    while y != maxy
      invariant b <= |blocks| && miny <= y <= maxy && image.Valid() && fresh(image.data)
      invariant Headers(blocks, 0, miny, maxy, CompBlockSize(bpl)) == Headers(blocks, b, y, maxy, CompBlockSize(bpl))
      invariant IsImage(blocks, data, miny, maxy - miny, bpl) ==> Reading(image, blocks, b, y, data, oldFormat)
      decreases |blocks| - b
    {
      var ok;
      ok, y := ReadBlock(image, blocks, b, y, oldFormat, data);
      if !ok {
        return null;
      }
      b := b + 1;
    }
    i := image;
    if IsImage(blocks, data, miny, maxy - miny, bpl) {
      ReadAll(image.data[..], image.first, stride, bpl, miny, blocks, b, maxy, data, oldFormat);
    }
  }

  lemma ReadAll(img: seq<Byte>, first: nat, stride: nat, bpl: nat, miny: int, blocks: seq<Block>, b: nat, y: int,
                data: seq<Byte>, oldFormat: bool)
    requires ReadSoFar(img, first, stride, bpl, miny, blocks, b, y, data, oldFormat)
    ensures LineAddr(first, stride, 0) == first
    ensures Lines(img, first, stride, bpl, y - miny) == AsRead(data[..(y - miny) * bpl], oldFormat)
  {
  }

  /** An image that is written and read again is the same image; but one of some height and no
      width is written as no blocks at all, which can not be read. */
  method WriteThenRead(data: seq<Byte>, rows: nat, bpl: nat, stride: nat, miny: int) returns (i: Memimage?)
    requires rows * bpl <= |data| && (bpl < NMATCH ==> rows * bpl + NMATCH - 1 <= |data|) && bpl <= stride
    ensures i != null <==> bpl > 0 || rows == 0
    ensures i != null ==> i.Valid() && fresh(i) && i.miny == miny && i.maxy == miny + rows
    ensures i != null ==> i.bpl == bpl && i.Picture(miny, miny + rows) == data[..rows * bpl]
  {
    hide BlockIs, Decode, Lines;
    var blocks := W.WriteImage(data, rows, bpl, miny);
    i := CreadMemImage(blocks, bpl, stride, miny, miny + rows, false, data);
    if bpl == 0 && rows == 0 {
      assert i != null && data[..0] == [];
    }
  }
}
