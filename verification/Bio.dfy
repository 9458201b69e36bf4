/** The buffered reader of libbio: Bgetc, Bread, Brdline, Bseek and Boffset on one window over
    a file.  The buffer is b; the bytes not yet delivered are the last -icount of it, and the
    good bytes are those from gbuf on.  Pointers into the buffer are indices of b. */
module Bio {
  import opened Bytes

  const BUNGETSIZE := 5 // UTFMAX+1, room for ungetc before the buffer proper
  const BEOF := -1

  /** An open file whose contents do not change.  A read may be short, and it may fail. */
  class File {
    const data: seq<Byte>
    var pos: nat
    var errors: nat

    constructor (data: seq<Byte>)
      ensures this.data == data && pos == 0 && errors == 0
    {
      this.data := data;
      pos, errors := 0, 0;
    }

    method Read(buf: array<Byte>, at: nat, n: nat) returns (j: int)
      requires at + n <= buf.Length
      modifies this, buf
      ensures -1 <= j <= n
      ensures if j < 0 then errors == old(errors) + 1 && pos == old(pos)
              else errors == old(errors) && pos == old(pos) + j
      ensures j > 0 ==> pos <= |data|
      ensures j == 0 ==> n == 0 || |data| <= pos
      ensures forall i :: 0 <= i < buf.Length ==>
        buf[i] == if at <= i < at + j then data[old(pos) + i - at] else old(buf[i])
    {
      if * {
        errors := errors + 1;
        return -1;
      }
      if n == 0 || pos >= |data| {
        return 0;
      }
      var k: nat :| 1 <= k <= n && k <= |data| - pos;
      forall i | 0 <= i < k {
        buf[at + i] := data[pos + i];
      }
      pos := pos + k;
      j := k;
    }

    method Seek(n: int, base: int) returns (r: int)
      requires base == 0 || base == 2
      modifies this`pos
      ensures var target := if base == 0 then n else |data| + n;
        if target < 0 then r == -1 && pos == old(pos) else r == pos == target
    {
      var target := if base == 0 then n else |data| + n;
      if target < 0 {
        return -1;
      }
      pos := target;
      r := target;
    }
  }

  /** memmove inside one buffer. */
  method Move(b: array<Byte>, dst: nat, src: nat, n: nat)
    requires dst + n <= b.Length && src + n <= b.Length
    modifies b
    ensures forall i :: 0 <= i < b.Length ==> b[i] == if dst <= i < dst + n then old(b[src + (i - dst)]) else old(b[i])
  {
    forall i | 0 <= i < n {
      b[dst + i] := b[src + i];
    }
  }

  datatype Mode = Binactive | Bractive | Bracteof

  /** The value of a 64-bit sum stored into an int, or of a sum of ints. */
  function Wrap32(x: int): int {
    (x + 0x8000_0000) % 0x1_0000_0000 - 0x8000_0000
  }

  /** The displacement d makes icount, an int, the smallest one, which is its own negation. */
  predicate Loses(ic: int, d: int) {
    ic + d <= -0x8000_0000 && Wrap32(ic + d) == -0x8000_0000
  }

  /** The displacement d is so far back that icount wraps into a buffer of k bytes. */
  predicate Wraps(ic: int, d: int, k: int) {
    ic + d < -0x8000_0000 && 0 <= -Wrap32(ic + d) <= k
  }

  /** When the test of Bseek for a target in the buffer, all of it in ints, succeeds. */
  lemma FastPath(ic: int, d: int, k: int, bsize: int)
    requires 0 <= -ic <= k <= bsize < 0x8000_0000
    ensures var w := Wrap32(ic + d);
      && (d <= bsize && w <= 0 && Wrap32(-w) <= k <==> Loses(ic, d) || Wraps(ic, d, k) || -k <= ic + d <= 0)
      && (-k <= ic + d <= 0 ==> w == ic + d)
  {
  }

  predicate IsVlong(x: int) { -0x8000_0000_0000_0000 <= x < 0x8000_0000_0000_0000 }

  class Biobuf {
    const fid: File
    const bsize: nat
    const b: array<Byte>
    var icount: int
    var gbuf: nat
    var offset: int
    var state: Mode
    var rdline: int

    /** The last k bytes of the buffer are the k bytes of the file before offset. */
    ghost predicate Tail(k: int)
      reads this, b
    {
      0 <= k <= bsize && k <= b.Length && k <= offset && (k > 0 ==> offset <= |fid.data|)
      && forall j {:trigger fid.data[j]} :: offset - k <= j < offset ==> b[b.Length - offset + j] == fid.data[j]
    }

    /** The reader is at byte offset+ic of the file: what is buffered is what comes next. */
    ghost predicate StreamAt(ic: int)
      reads this, b, fid
    {
      && 0 < bsize < 0x8000_0000 && b.Length == BUNGETSIZE + bsize
      && ic <= 0 && offset == fid.pos && Tail(-ic)
      && (state == Bracteof ==> ic == 0 && |fid.data| <= offset)
      && (state == Binactive ==> ic == 0)
    }

    ghost predicate Stream()
      reads this, b, fid
    {
      StreamAt(icount)
    }

    /** What is buffered lies between gbuf and the end of the buffer. */
    ghost predicate FramedAt(ic: int)
      reads this, b, fid
    {
      StreamAt(ic) && BUNGETSIZE <= gbuf <= b.Length && -ic <= b.Length - gbuf
    }

    ghost predicate Framed()
      reads this, b, fid
    {
      FramedAt(icount)
    }

    /** Everything from gbuf on is good, too. */
    ghost predicate WindowAt(ic: int)
      reads this, b, fid
    {
      FramedAt(ic) && Tail(b.Length - gbuf)
    }

    ghost predicate Window()
      reads this, b, fid
    {
      WindowAt(icount)
    }

    /** What Bseek trusts is good: at the end of the file it does not use gbuf. */
    ghost predicate Seekable()
      reads this, b, fid
    {
      Framed() && (state == Bracteof || Window())
    }

    /** The byte of the file that is delivered next. */
    ghost function Pos(): int
      reads this
    {
      offset + icount
    }

    constructor (fid: File, bsize: nat)
      requires 0 < bsize < 0x8000_0000
      ensures Window() && this.fid == fid && this.bsize == bsize && fresh(b)
      ensures state == Bractive && Pos() == fid.pos
    {
      this.fid := fid;
      this.bsize := bsize;
      b := new Byte[BUNGETSIZE + bsize](_ => 0);
      icount, gbuf, offset, state, rdline := 0, BUNGETSIZE + bsize, fid.pos, Bractive, 0;
    }

    /** Boffset on a reader. */
    method Boffset() returns (n: int)
      ensures n == if state == Binactive then BEOF else Pos()
    {
      n := if state == Binactive then BEOF else offset + icount;
    }

    /** The refill that Bgetc and Bread have in common: at most bsize bytes to the front of the
        buffer, packed against its end if there are fewer.  Bgetc takes the `keep` bytes before
        them along. */
    method Refill(keep: nat) returns (i: int)
      requires StreamAt(0) && state == Bractive && keep <= BUNGETSIZE
      modifies this`gbuf, this`offset, this`state, b, fid
      ensures i > 0 ==> StreamAt(-i) && state == Bractive && offset == old(offset) + i
      ensures i > 0 ==> gbuf == b.Length - i && WindowAt(-i)
      ensures i <= 0 && keep == 0 && old(WindowAt(0)) ==> WindowAt(0)
      ensures i <= 0 && (keep > 0 || old(FramedAt(0))) ==> FramedAt(0)
      ensures i <= 0 ==> StreamAt(0) && state != Bractive && offset == old(offset) && b[..] == old(b[..])
      ensures i == 0 ==> state == Bracteof && |fid.data| <= offset
      ensures fid.errors == old(fid.errors) + if i < 0 then 1 else 0
      ensures i < 0 ==> state == Binactive
      ensures i <= 0 ==> gbuf == if keep > 0 then BUNGETSIZE else old(gbuf)
    {
      i := fid.Read(b, BUNGETSIZE, bsize);
      if keep > 0 {
        gbuf := BUNGETSIZE;
      }
      if i <= 0 {
        state := if i < 0 then Binactive else Bracteof;
      } else {
        gbuf := BUNGETSIZE;
        offset := offset + i;
        Pack(i, keep);
      }
    }

    /** Move the i bytes just read, and the keep bytes before them, against the buffer's end. */
    method Pack(i: nat, keep: nat)
      requires Front(offset - i, i) && 0 < i && keep <= BUNGETSIZE && state == Bractive && gbuf == BUNGETSIZE
      modifies this`gbuf, b
      ensures WindowAt(0 - i) && gbuf == b.Length - i
    {
      if i < bsize {
        Move(b, b.Length - i - keep, BUNGETSIZE - keep, i + keep);
        gbuf := b.Length - i;
      }
    }

    /** Bgetc: the next byte, or BEOF at the end of the file or after an error.  Where it finds
        the end of the file it sets gbuf to the front of the buffer, good or not. */
    method Bgetc() returns (c: int)
      requires Stream()
      modifies this, b, fid
      ensures Stream()
      ensures c >= 0 ==> old(Pos()) < |fid.data| && c == fid.data[old(Pos())] && Pos() == old(Pos()) + 1
      ensures c < 0 ==> c == -1 && Pos() == old(Pos()) && (state == Binactive || |fid.data| <= Pos())
      ensures fid.errors == old(fid.errors) + if state == Binactive && old(state) != Binactive then 1 else 0
      ensures (old(Framed()) ==> Framed()) && (old(Window()) && c >= 0 ==> Window())
      ensures (c >= 0 ==> state == Bractive) && (old(Window()) && state != Binactive ==> Seekable())
      ensures c < 0 ==> b[BUNGETSIZE..] == old(b[BUNGETSIZE..]) && offset == old(offset) && icount == 0
      ensures c < 0 && old(state) == Bractive && state != Binactive ==> state == Bracteof && gbuf == BUNGETSIZE
      ensures old(state) == Bracteof ==> c < 0 && state == Bractive && gbuf == old(gbuf)
      ensures old(state) == Binactive ==> c < 0 && state == Binactive && gbuf == old(gbuf)
      ensures old(state) == Bracteof && old(Window()) ==> Window()
    {
      if icount == 0 {
        if state != Bractive {
          if state == Bracteof {
            state := Bractive;
          }
          return BEOF;
        }
        var more := NextBuffer();
        if !more {
          return BEOF;
        }
      }
      c := NextByte();
    }

    /** The next byte of the buffer. */
    method NextByte() returns (c: Byte)
      requires Stream() && icount < 0
      modifies this`icount
      ensures Stream() && (old(Framed()) ==> Framed()) && (old(Window()) ==> Window())
      ensures old(Pos()) < |fid.data| && c == fid.data[old(Pos())] && Pos() == old(Pos()) + 1
    {
      c := b[b.Length + icount];
      icount := icount + 1;
    }

    /** The next buffer of Bgetc, with the last bytes of the one before in front. */
    method NextBuffer() returns (more: bool)
      requires Stream() && icount == 0 && state == Bractive
      modifies this, b, fid
      ensures Stream() && Pos() == old(Pos())
      ensures fid.errors == old(fid.errors) + if state == Binactive && old(state) != Binactive then 1 else 0
      ensures more ==> icount < 0 && Window() && state == Bractive
      ensures !more ==> icount == 0 && offset == old(offset) && gbuf == BUNGETSIZE && Framed()
      ensures !more ==> state == Binactive || (state == Bracteof && |fid.data| <= Pos())
      ensures !more ==> b[BUNGETSIZE..] == old(b[BUNGETSIZE..])
    {
      Move(b, 0, b.Length - BUNGETSIZE, BUNGETSIZE);
      assert StreamAt(0);
      var i := Refill(BUNGETSIZE);
      more := i > 0;
      if more {
        icount := -i;
      }
    }

    /** Bread: the next count bytes into dst, fewer only at the end of the file or after an
        error.  The result is how many, or -1 if there are none because of an error. */
    method Bread(dst: array<Byte>, count: nat) returns (n: int)
      requires Stream() && count <= dst.Length && dst != b
      modifies this, b, fid, dst
      ensures Stream() && (old(Framed()) ==> Framed()) && (old(Window()) ==> Window())
      ensures n < 0 <==> state == Binactive && Pos() == old(Pos())
      ensures n >= -1
      ensures old(Seekable()) ==> Seekable()
      ensures n == count || count == 0 || old(state) != Bractive ==> state == old(state)
      ensures old(state) != Bractive ==> Pos() == old(Pos())
      ensures n < count && state != Binactive ==> state == Bracteof
      ensures old(|fid.data| <= Pos()) ==> gbuf == old(gbuf)
      ensures var k := if n < 0 then 0 else n;
        && 0 <= k <= count && Pos() == old(Pos()) + k && (k > 0 ==> Pos() <= |fid.data|)
        && dst[..k] == (if k > 0 then fid.data[old(Pos())..Pos()] else [])
        && (k < count ==> state == Binactive || |fid.data| <= Pos())
      ensures forall x :: count <= x < dst.Length ==> dst[x] == old(dst[x])
      ensures fid.errors == old(fid.errors) + if state == Binactive && old(state) != Binactive then 1 else 0
    {
      var c;
      c := Deliver(dst, count);
      ghost var p := count - c;
      forall x | 0 <= x < p ensures dst[x] == fid.data[old(Pos()) + x] {
        assert dst[old(Pos()) + x - old(Pos())] == fid.data[old(Pos()) + x];
      }
      n := if count == c && state == Binactive then -1 else count - c;
    }

    /** The loop of Bread; c is what is left of count when it ends. */
    method Deliver(dst: array<Byte>, count: nat) returns (c: nat)
      requires Stream() && count <= dst.Length && dst != b
      modifies this, b, fid, dst
      ensures Stream() && (old(Framed()) ==> Framed()) && (old(Window()) ==> Window())
      ensures c == 0 || old(state) != Bractive ==> state == old(state)
      ensures old(state) != Bractive ==> c == count
      ensures c > 0 ==> state == Binactive || (state == Bracteof && |fid.data| <= Pos())
      ensures old(|fid.data| <= Pos()) ==> gbuf == old(gbuf)
      ensures c <= count && Taken(dst, count - c, old(Pos()), icount)
      ensures forall x :: count <= x < dst.Length ==> dst[x] == old(dst[x])
      ensures fid.errors == old(fid.errors) + if state == Binactive && old(state) != Binactive then 1 else 0
    {
      var ic := icount;
      ghost var framed, windowed, from := Framed(), Window(), Pos();
      c := count;
      while c > 0
        invariant c <= count && StreamAt(ic) && (framed ==> FramedAt(ic)) && (windowed ==> WindowAt(ic))
        invariant Taken(dst, count - c, from, ic) && state == old(state) && (state != Bractive ==> c == count)
        invariant |fid.data| <= from ==> gbuf == old(gbuf)
        invariant forall x :: count <= x < dst.Length ==> dst[x] == old(dst[x])
        invariant fid.errors == old(fid.errors)
        decreases c, if ic == 0 then 1 else 0
      {
        var more;
        more, ic, c := TakeMore(dst, count, from, ic, c);
        if !more {
          break;
        }
      }
      SetCount(ic, dst, count - c, from);
    }

    method SetCount(ic: int, ghost dst: array<Byte>, ghost p: int, ghost from: int)
      requires StreamAt(ic) && p >= 0 && Taken(dst, p, from, ic)
      modifies this`icount
      ensures icount == ic && Stream() && Taken(dst, p, from, icount)
      ensures (old(FramedAt(ic)) ==> Framed()) && (old(WindowAt(ic)) ==> Window())
    {
      icount := ic;
    }

    /** The body of the loop: bytes from the buffer, or more bytes into it. */
    method TakeMore(dst: array<Byte>, count: nat, ghost from: int, ic: int, c: nat)
      returns (more: bool, ic': int, c': nat)
      requires StreamAt(ic) && 0 < c <= count <= dst.Length && dst != b && Taken(dst, count - c, from, ic)
      modifies this`gbuf, this`offset, this`state, b, fid, dst
      ensures c' <= count && StreamAt(ic') && Taken(dst, count - c', from, ic')
      ensures (old(FramedAt(ic)) ==> FramedAt(ic')) && (old(WindowAt(ic)) ==> WindowAt(ic'))
      ensures forall x :: count <= x < dst.Length ==> dst[x] == old(dst[x])
      ensures fid.errors == old(fid.errors) + if state == Binactive && old(state) != Binactive then 1 else 0
      ensures more || old(state) != Bractive ==> state == old(state)
      ensures !more ==> state == Binactive || (state == Bracteof && |fid.data| <= offset + ic')
      ensures old(|fid.data| <= offset + ic) ==> gbuf == old(gbuf)
      ensures more ==> c' < c || (c' == c && ic == 0 && ic' != 0)
      ensures (!more ==> c' == c) && (old(state) != Bractive ==> !more)
    {
      more, ic', c' := true, ic, c;
      if ic == 0 {
        ic' := More(dst, count - c, from);
        more := ic' != 0;
      } else {
        ic', c' := TakeInto(dst, count, from, ic, c);
      }
    }

    /** More bytes for Bread from the file, if there are any. */
    method More(ghost dst: array<Byte>, ghost p: nat, ghost from: int) returns (ic: int)
      requires StreamAt(0) && dst != b && Taken(dst, p, from, 0)
      modifies this`gbuf, this`offset, this`state, b, fid
      ensures StreamAt(ic) && Taken(dst, p, from, ic)
      ensures (old(FramedAt(0)) ==> FramedAt(ic)) && (old(WindowAt(0)) ==> WindowAt(ic))
      ensures fid.errors == old(fid.errors) + if state == Binactive && old(state) != Binactive then 1 else 0
      ensures ic != 0 || old(state) != Bractive ==> state == old(state)
      ensures ic == 0 ==> state == Binactive || (state == Bracteof && |fid.data| <= offset)
      ensures old(|fid.data| <= offset) ==> gbuf == old(gbuf)
    {
      ic := 0;
      if state == Bractive {
        var i := Refill(0);
        if i > 0 {
          ic := -i;
        }
      }
    }

    /** dst holds the p bytes of the file from position from on, and the reader is past them. */
    ghost predicate Taken(dst: array<Byte>, p: nat, from: int, ic: int)
      reads this, dst
    {
      && p <= dst.Length && offset + ic == from + p && 0 <= from
      && (p > 0 ==> from + p <= |fid.data|)
      && forall j {:trigger fid.data[j]} :: from <= j < from + p ==> dst[j - from] == fid.data[j]
    }

    /** The bytes in the buffer, or as many of them as are left of count. */
    method TakeInto(dst: array<Byte>, count: nat, ghost from: int, ic: int, c: nat) returns (ic': int, c': nat)
      requires StreamAt(ic) && ic < 0 && 0 < c <= count <= dst.Length && dst != b && Taken(dst, count - c, from, ic)
      modifies dst
      ensures c' < c && Taken(dst, count - c', from, ic') && ic < ic' <= 0
      ensures c' > 0 ==> ic' == 0
      ensures forall x :: count <= x < dst.Length ==> dst[x] == old(dst[x])
      ensures StreamAt(ic') && (FramedAt(ic) ==> FramedAt(ic')) && (WindowAt(ic) ==> WindowAt(ic'))
    {
      var p, m := count - c, -ic;
      if m > c {
        m := c;
      }
      forall x | 0 <= x < m {
        dst[p + x] := b[b.Length + ic + x];
      }
      ic', c' := ic + m, c - m;
    }

    /** memchr on the buffer: the first index of delim in b[from..from+n], or -1. */
    method Memchr(from: nat, delim: int, n: nat) returns (e: int)
      requires from + n <= b.Length
      ensures e == -1 || (from <= e < from + n && b[e] == delim)
      ensures forall x :: from <= x < (if e == -1 then from + n else e) ==> b[x] != delim
    {
      for x := from to from + n
        invariant forall y :: from <= y < x ==> b[y] != delim
      {
        if b[x] == delim {
          return x;
        }
      }
      e := -1;
    }

    /** The k bytes of the file from position from on hold no delim. */
    ghost predicate NoDelim(from: int, k: int, delim: int)
    {
      0 <= from && forall j {:trigger fid.data[j]} :: from <= j < from + k && j < |fid.data| ==> fid.data[j] != delim
    }

    /** The rdline bytes at ip are the bytes of the file from position from on, through the
        first delim. */
    ghost predicate GotLine(ip: int, from: int, delim: int)
      reads this, b
    {
      && 0 <= from && 0 < rdline <= bsize && from + rdline <= |fid.data| && 0 <= ip && ip + rdline <= b.Length
      && (forall j {:trigger fid.data[j]} :: from <= j < from + rdline ==> b[ip + j - from] == fid.data[j])
      && fid.data[from + rdline - 1] == delim && NoDelim(from, rdline - 1, delim)
    }

    /** There is no delim in the next rdline bytes, and these fill the buffer or reach to the
        end of the file, unless there was an error. */
    ghost predicate NoLine(from: int, delim: int, error: bool)
      reads this
    {
      0 <= rdline <= bsize && NoDelim(from, rdline, delim)
      && (rdline == bsize || error || |fid.data| <= from + rdline)
    }

    /** Brdline: a pointer to the next line, up to and with its delim, or -1.  Without a delim
        in reach nothing is consumed, and rdline says how many bytes are buffered. */
    method Brdline(delim: int) returns (ip: int)
      requires Stream()
      modifies this, b, fid
      ensures Stream() && (old(Window()) || old(icount) == 0 ==> Window())
      ensures if old(state) == Binactive then state == Binactive && ip < 0 else state == Bractive
      ensures ip >= 0 ==> GotLine(ip, old(Pos()), delim) && Pos() == old(Pos()) + rdline
      ensures ip < 0 ==> ip == -1 && Pos() == old(Pos()) && rdline == -icount
      ensures ip < 0 ==> NoLine(old(Pos()), delim, state == Binactive || fid.errors > old(fid.errors))
      ensures fid.errors == old(fid.errors) || (ip < 0 && state != Binactive && fid.errors == old(fid.errors) + 1)
    {
      if icount == 0 && state != Bractive {
        if state == Bracteof {
          state := Bractive;
        }
        rdline := 0;
        gbuf := b.Length;
        return -1;
      }
      ip := InRemainder(delim);
      if ip < 0 {
        ip := FillLine(delim);
      }
    }

    /** First try in the remainder of the buffer. */
    method InRemainder(delim: int) returns (ip: int)
      requires Stream() && (icount != 0 || state == Bractive)
      modifies this`rdline, this`icount
      ensures Stream() && (old(Window()) ==> Window())
      ensures ip >= 0 ==> GotLine(ip, old(Pos()), delim) && Pos() == old(Pos()) + rdline
      ensures ip < 0 ==> ip == -1 && NoDelim(Pos(), -icount, delim) && icount == old(icount)
      ensures old(icount) == 0 ==> ip < 0
    {
      var i := -icount;
      ip := b.Length - i;
      var ep := Memchr(ip, delim, i);
      if ep < 0 {
        return -1;
      }
      assert fid.data[Pos() + (ep - ip)] == delim;
      Consume(ep - ip + 1);
    }

    /** The next j bytes of the buffer are the line. */
    method Consume(j: nat)
      requires Stream() && j <= -icount
      modifies this`rdline, this`icount
      ensures Stream() && (old(Window()) ==> Window()) && rdline == j && icount == old(icount) + j
    {
      rdline := j;
      icount := icount + j;
    }

    /** The part of Brdline that copies the i unread bytes to the front of the buffer and
        appends to them until the delim turns up. */
    method FillLine(delim: int) returns (ip: int)
      requires Stream() && state == Bractive && NoDelim(Pos(), -icount, delim)
      modifies this, b, fid
      ensures Window() && state == Bractive
      ensures ip >= 0 ==> GotLine(ip, old(Pos()), delim) && Pos() == old(Pos()) + rdline
      ensures ip < 0 ==> ip == -1 && NoLine(old(Pos()), delim, fid.errors > old(fid.errors)) && Pos() == old(Pos())
      ensures ip < 0 ==> rdline == -icount
      ensures fid.errors == old(fid.errors) || (ip < 0 && fid.errors == old(fid.errors) + 1)
    {
      ghost var from := Pos();
      var i := ToFront();
      while i < bsize
        invariant 0 <= i <= bsize && Front(from, i) && NoDelim(from, i, delim) && state == Bractive
          && gbuf == BUNGETSIZE
        invariant fid.errors == old(fid.errors)
        decreases bsize - i
      {
        var j, ep := Append(from, i, delim);
        if j <= 0 {
          NoMore(from, i, delim, j < 0);
          return -1;
        }
        i := i + j;
        if ep >= 0 {
          ip := FoundIn(from, i, ep, delim);
          return;
        }
      }
      NoneInBuffer(from, delim);
      ip := -1;
    }

    /** The buffer is full without a delim. */
    method NoneInBuffer(ghost from: int, ghost delim: int)
      requires Front(from, bsize) && NoDelim(from, bsize, delim) && state == Bractive
      modifies this`rdline, this`icount, this`gbuf
      ensures Window() && NoLine(from, delim, false) && Pos() == from && rdline == -icount
    {
      rdline := bsize;
      icount := 0 - bsize;
      gbuf := BUNGETSIZE;
    }

    /** Copy the unread bytes to the beginning of the buffer. */
    method ToFront() returns (i: nat)
      requires Stream() && state == Bractive
      modifies this`gbuf, b
      ensures i + icount == 0 && Front(Pos(), i) && gbuf == BUNGETSIZE
    {
      i := -icount;
      CopyDown(i);
      gbuf := BUNGETSIZE;
    }

    method CopyDown(i: nat)
      requires StreamAt(0 - i)
      modifies b
      ensures forall j {:trigger fid.data[j]} :: offset - i <= j < offset ==>
        b[BUNGETSIZE + j - (offset - i)] == fid.data[j]
    {
      if i < bsize {
        Move(b, BUNGETSIZE, b.Length - i, i);
      }
      forall j | offset - i <= j < offset ensures b[BUNGETSIZE + j - (offset - i)] == fid.data[j] {
        assert old(b[b.Length - offset + j]) == fid.data[j];
      }
    }

    /** Read more behind the i bytes at the front of the buffer, and look for the delim there. */
    method Append(ghost from: int, i: nat, delim: int) returns (j: int, ep: int)
      requires Front(from, i) && i < bsize && NoDelim(from, i, delim)
      modifies this`offset, b, fid
      ensures j <= 0 ==> Front(from, i) && (j < 0 || |fid.data| <= offset)
      ensures j > 0 ==> Front(from, i + j) && NoDelim(from, if ep < 0 then i + j else ep - BUNGETSIZE, delim)
      ensures j > 0 && ep >= 0 ==> BUNGETSIZE <= ep < BUNGETSIZE + i + j && b[ep] == delim
      ensures fid.errors == old(fid.errors) + if j < 0 then 1 else 0
    {
      j := fid.Read(b, BUNGETSIZE + i, bsize - i);
      ep := -1;
      if j > 0 {
        offset := offset + j;
        ep := Memchr(BUNGETSIZE + i, delim, j);
      }
    }

    /** End of file with no delim: pack what there is against the end of the buffer. */
    method NoMore(ghost from: int, i: nat, ghost delim: int, ghost error: bool)
      requires Front(from, i) && i < bsize && NoDelim(from, i, delim) && state == Bractive
      requires error || |fid.data| <= offset
      modifies this, b
      ensures Window() && NoLine(from, delim, error) && Pos() == from && rdline == -icount && state == Bractive
    {
      Move(b, b.Length - i, BUNGETSIZE, i);
      rdline := i;
      icount := 0 - i;
      gbuf := b.Length - i;
    }

    /** Found in the new piece: pack it all against the end of the buffer. */
    method FoundIn(ghost from: int, i: nat, ep: int, ghost delim: int) returns (ip: int)
      requires Front(from, i) && state == Bractive && gbuf == BUNGETSIZE
      requires BUNGETSIZE <= ep < BUNGETSIZE + i && b[ep] == delim && NoDelim(from, ep - BUNGETSIZE, delim)
      modifies this, b
      ensures Window() && ip >= 0 && GotLine(ip, from, delim) && Pos() == from + rdline && state == Bractive
    {
      assert fid.data[from + ep - BUNGETSIZE] == delim;
      ip := b.Length - i;
      if i < bsize {
        Move(b, ip, BUNGETSIZE, i);
        gbuf := ip;
      }
      forall j | from <= j < offset ensures b[ip + j - from] == fid.data[j] {
        assert old(b[BUNGETSIZE + j - from]) == fid.data[j];
      }
      var j := ep - BUNGETSIZE + 1;
      rdline := j;
      icount := j - i;
    }

    /** The front of the buffer holds the k bytes of the file from position from on. */
    ghost predicate Front(from: int, k: int)
      reads this, b, fid
    {
      && 0 < bsize < 0x8000_0000 && b.Length == BUNGETSIZE + bsize && offset == fid.pos
      && 0 <= from && 0 <= k <= bsize && from + k == offset && (k > 0 ==> offset <= |fid.data|)
      && forall j {:trigger fid.data[j]} :: from <= j < offset ==> b[BUNGETSIZE + j - from] == fid.data[j]
    }

    /** The position of the file that Bseek is asked for. */
    ghost function Target(n: int, base: int): int
      reads this
    {
      if base == 0 then n else if base == 1 then n + Pos() else |fid.data| + n
    }

    /** How many bytes before offset Bseek takes to be in the buffer. */
    ghost function Room(): int
      reads this
    {
      if state == Bracteof then 0 else b.Length - gbuf
    }

    /** Bseek believes that the target is in the buffer because icount wraps into it. */
    ghost predicate WrapsIntoWindow(d: int)
      reads this
    {
      Wraps(icount, d, Room())
    }

    /** Bseek believes that the target is in the buffer, and icount points far before it. */
    ghost predicate LosesWindow(d: int)
      reads this
    {
      Loses(icount, d)
    }

    /** No sum or difference of Bseek leaves 64 bits, which C leaves undefined. */
    ghost predicate InVlong(n: int, base: int)
      reads this
    {
      IsVlong(n) && (base != 2 ==> IsVlong(Target(n, base)) && IsVlong(Target(n, base) - Pos()))
    }

    /** The position t is one that Bseek takes to be in the buffer. */
    ghost predicate InReach(t: int)
      reads this
    {
      t <= offset && offset - t <= Room()
    }

    /** Bseek on a reader, from the start of the file, from here, or from its end.  A seek within
        the buffer goes to the right byte; what is there is what was in the buffer. */
    method Bseek(n0: int, base: int) returns (n: int)
      requires Framed() && (state != Binactive ==> 0 <= base <= 2 && InVlong(n0, base))
      modifies this`icount, this`gbuf, this`state, this`offset, fid`pos
      ensures old(state) == Binactive ==>
        n == BEOF && state == Binactive && Framed() && (old(Window()) ==> Window()) && Pos() == old(Pos())
      ensures old(state) != Binactive ==> var t := old(Target(n0, base));
        if base != 2 && old(LosesWindow(t - Pos())) then
          n == t && icount == -0x8000_0000 && !Stream() && offset == old(offset) && fid.pos == old(fid.pos)
        else if base != 2 && old(WrapsIntoWindow(t - Pos())) then
          n == t && InPlace(old(offset), old(Room())) && (old(Seekable()) ==> Window())
          && Pos() == old(offset) + Wrap32(t - old(offset)) != t
        else if base != 2 && old(InReach(t)) then
          n == t && InPlace(old(offset), old(Room())) && (old(Seekable()) ==> Window()) && Pos() == t
        else if t < 0 then n == -1 && offset == -1 && icount == 0 && state == Bractive && fid.pos == old(fid.pos)
        else n == t && Window() && state == Bractive && Pos() == t && icount == 0
    {
      if state == Binactive {
        return BEOF;
      }
      Reactivate();
      n := SeekActive(n0, base);
    }

    /** At the end of the file Bseek forgets the buffer. */
    method Reactivate()
      requires Framed() && state != Binactive
      modifies this`icount, this`gbuf, this`state
      ensures Framed() && state == Bractive && icount == old(icount) && Room() == old(Room())
      ensures old(Seekable()) ==> Window()
    {
      if state == Bracteof {
        state := Bractive;
        icount := 0;
        gbuf := b.Length;
      }
    }

    /** The buffer is the one that ended at byte `end` of the file and had k bytes. */
    ghost predicate InPlace(end: int, k: int)
      reads this, fid
    {
      state == Bractive && offset == fid.pos == end && b.Length - gbuf == k && -k <= icount <= 0
    }

    method SeekActive(n0: int, base: int) returns (n: int)
      requires Framed() && state == Bractive && 0 <= base <= 2
      modifies this`icount, this`gbuf, this`offset, fid`pos
      ensures var t := old(Target(n0, base));
        if base != 2 && old(LosesWindow(t - Pos())) then
          n == t && icount == -0x8000_0000 && offset == old(offset) && fid.pos == old(fid.pos)
        else if base != 2 && old(WrapsIntoWindow(t - Pos())) then
          n == t && InPlace(old(offset), old(Room())) && (old(Window()) ==> Window())
          && Pos() == old(offset) + Wrap32(t - old(offset)) != t
        else if base != 2 && old(InReach(t)) then
          n == t && InPlace(old(offset), old(Room())) && (old(Window()) ==> Window()) && Pos() == t
        else if t < 0 then n == -1 && offset == -1 && icount == 0 && fid.pos == old(fid.pos)
        else n == t && Window() && Pos() == t && icount == 0
    {
      n := n0;
      var from := base;
      if from == 1 {
        n := n + (offset + icount);
        from := 0;
      }
      if from == 0 {
        var inside := InBuffer(n);
        if inside {
          return;
        }
      }
      n := Reset(n, from);
    }

    /** Try to seek within the buffer.  Both the sum and the negation are ints. */
    method InBuffer(n: int) returns (inside: bool)
      requires Framed() && state == Bractive
      modifies this`icount
      ensures inside <==> old(LosesWindow(n - Pos()) || WrapsIntoWindow(n - Pos()) || InReach(n))
      ensures old(LosesWindow(n - Pos())) ==> icount == -0x8000_0000
      ensures inside && !old(LosesWindow(n - Pos())) ==>
        InPlace(offset, old(Room())) && (old(Window()) ==> Window())
        && Pos() == if old(WrapsIntoWindow(n - Pos())) then offset + Wrap32(n - offset) else n
    {
      var d := n - (offset + icount);
      FastPath(icount, d, b.Length - gbuf, bsize);
      icount := Wrap32(icount + d);
      inside := d <= bsize && icount <= 0 && b.Length - gbuf >= Wrap32(-icount);
    }

    /** Reset the buffer and seek the descriptor. */
    method Reset(n0: int, from: int) returns (n: int)
      requires from == 0 || from == 2
      requires 0 < bsize < 0x8000_0000 && b.Length == BUNGETSIZE + bsize && state == Bractive
      modifies this`icount, this`gbuf, this`offset, fid`pos
      ensures var t := if from == 0 then n0 else |fid.data| + n0;
        if t < 0 then n == -1 && offset == -1 && icount == 0 && fid.pos == old(fid.pos)
        else n == t && Window() && Pos() == t && icount == 0
    {
      n := fid.Seek(n0, from);
      icount := 0;
      gbuf := b.Length;
      offset := n;
    }
  }
}
