/** The second pass of the quoting printer (lib9/fmtquote.c, and _fmtcpy of lib9/dofmt.c):
    what _quotesetup has accepted is written out. */
module QuotePrinting {
  import opened Bytes
  import opened Utf8
  import opened Quoting

  /** The buffer of a Fmt without a flush: output goes to `to`, and stops at `stop`. */
  class Fmt {
    const buf: array<Byte>
    const stop: nat
    var to: nat
    var nfmt: int

    constructor (buf: array<Byte>, stop: nat)
      requires stop <= buf.Length
      ensures this.buf == buf && this.stop == stop && to == 0 && nfmt == 0
    {
      this.buf, this.stop, this.to, this.nfmt := buf, stop, 0, 0;
    }

    ghost predicate Valid()
      reads this
    {
      to <= stop <= buf.Length
    }

    /** `FMTRUNE`: write r at t if it fits before stop. */
    method PutRune(t: nat, r: Rune) returns (ok: bool, t': nat)
      requires stop <= buf.Length && t <= stop
      modifies buf
      ensures ok <==> t + EncLen(Norm(r)) <= stop
      ensures ok ==> t' == t + EncLen(Norm(r)) && Wrote(old(buf[..]), buf[..], t, Enc(Norm(r)))
      ensures !ok ==> t' == t && buf[..] == old(buf[..])
    {
      ok, t' := true, t;
      if t + UTFMAX > stop && t + EncLen(Norm(r)) > stop {
        ok := false;
      } else if r < 0x80 {
        buf[t] := r;
        t' := t + 1;
      } else {
        var n := RuneToChar(buf, t, r);
        t' := t + n;
      }
    }
  }

  /** Take the next character of the string from m, which may not reach beyond me. */
  method NextRune(s: array<Byte>, m: nat, me: nat, ghost at: nat, ghost rs: seq<Rune>, ghost k: nat)
    returns (ok: bool, r: Rune, m': nat)
    requires StringHere(s[..], at, rs) && k < |rs| && m == Place(at, rs, k) && Place(at, rs, k + 1) <= me <= s.Length
    ensures ok && r == rs[k] && m' == Place(at, rs, k + 1)
  {
    ReadAt(s[..], at, rs, k);
    assert s[..][m..] == s[m..];
    DecByte(s[m..]);
    r := s[m];
    ok, m' := true, m + 1;
    if r >= 0x80 {
      var full := FullRune(s[m..me], me - m);
      if me - m >= UTFMAX || full {
        var w;
        r, w := CharToRune(s, m);
        m' := m + w;
      } else {
        ok := false;
      }
    }
  }

  lemma DecByte(s: seq<Byte>)
    requires s != [] && Dec(s) != (RUNEERROR, 1) 
    ensures s[0] < 0x80 ==> Dec(s) == (s[0], 1)
    ensures Announced(s[0]) == Dec(s).1
  {
  }

  /** The characters rs have been written at to0, behind the opening quote if there is one. */
  function Body(rs: seq<Rune>, quoted: bool): seq<Byte> {
    if quoted then [QUOTE] + Doubled(EncodeAll(rs)) else EncodeAll(rs)
  }

  lemma BodySize(rs: seq<Rune>, quoted: bool)
    ensures |Body(rs, quoted)| == Size(rs, quoted) - if quoted then 1 else 0
    ensures Quoted(EncodeAll(rs), quoted) == Body(rs, quoted) + if quoted then [QUOTE] else []
  {
  }

  /** What one character becomes. */
  function Piece(r: Rune, quoted: bool): (p: seq<Byte>)
    requires Scalar(r)
    ensures |p| == Cost(r, quoted)
  {
    Enc(r) + if quoted && r == QUOTE then [QUOTE] else []
  }

  lemma BodyMore(rs: seq<Rune>, c: Rune, quoted: bool)
    requires Scalar(c)
    ensures Body(rs + [c], quoted) == Body(rs, quoted) + Piece(c, quoted)
  {
    EncodeMore(rs, c);
    MoreDoubled(EncodeAll(rs), c);
    if quoted { Regroup([QUOTE], Doubled(EncodeAll(rs)), Piece(c, true)); }
  }

  lemma BodyNext(rs: seq<Rune>, k: nat, quoted: bool)
    requires k < |rs| && Scalar(rs[k])
    ensures Body(rs[..k + 1], quoted) == Body(rs[..k], quoted) + Piece(rs[k], quoted)
  {
    BodyMore(rs[..k], rs[k], quoted);
    Rejoined(rs, k);
  }

  /** Printing has come as far as the character k of the string. */
  ghost predicate Printing(was: seq<Byte>, buf: seq<Byte>, to0: nat, t: nat, rs: seq<Rune>, k: nat, quoted: bool) {
    k <= |rs| && Wrote(was, buf, to0, Body(rs[..k], quoted)) && t == to0 + |Body(rs[..k], quoted)|
  }

  lemma PrintingMore(was: seq<Byte>, b0: seq<Byte>, b1: seq<Byte>, to0: nat, t: nat, rs: seq<Rune>, k: nat,
                     quoted: bool)
    requires Printing(was, b0, to0, t, rs, k, quoted) && k < |rs| && Scalar(rs[k])
    requires Wrote(b0, b1, t, Piece(rs[k], quoted))
    ensures Printing(was, b1, to0, t + Cost(rs[k], quoted), rs, k + 1, quoted)
  {
    hide Body, Piece, Wrote;
    BodyNext(rs, k, quoted);
    WroteMore(was, b0, b1, to0, Body(rs[..k], quoted), Piece(rs[k], quoted));
  }

  /** One character: `FMTRUNE`, and a second one for a quote inside quotes. */
  method PutPiece(f: Fmt, t0: nat, r: Rune, quoted: bool) returns (ok: bool, t: nat)
    requires f.stop <= f.buf.Length && Scalar(r) && t0 + Cost(r, quoted) <= f.stop
    modifies f.buf
    ensures ok && t == t0 + Cost(r, quoted) && Wrote(old(f.buf[..]), f.buf[..], t0, Piece(r, quoted))
  {
    ghost var b0 := f.buf[..];
    ok, t := f.PutRune(t0, r);
    if quoted && r == QUOTE && ok {
      ghost var b1 := f.buf[..];
      ok, t := f.PutRune(t, r);
      WroteMore(b0, b1, f.buf[..], t0, Enc(r), [QUOTE]);
    } else {
      assert Enc(r) + [] == Enc(r);
    }
  }

  method PutNext(s: array<Byte>, ghost at: nat, m0: nat, me: nat, f: Fmt, t0: nat, quoted: bool,
                 ghost was: seq<Byte>, ghost to0: nat, ghost rs: seq<Rune>, ghost k: nat, ghost n: nat)
    returns (ok: bool, t: nat, m: nat)
    requires f.stop <= f.buf.Length && f.buf != s && StringHere(s[..], at, rs)
    requires k < n <= |rs| && me == Place(at, rs, n) <= s.Length && m0 == Place(at, rs, k)
    requires Printing(was, f.buf[..], to0, t0, rs, k, quoted) && to0 + |Body(rs[..n], quoted)| <= f.stop
    modifies f.buf
    ensures ok && m == Place(at, rs, k + 1) && Printing(was, f.buf[..], to0, t, rs, k + 1, quoted)
  {
    var r;
    Room(rs, k, n, quoted, at);
    ok, r, m := NextRune(s, m0, me, at, rs, k);
    ghost var b0 := f.buf[..];
    ok, t := PutPiece(f, t0, r, quoted);
    PrintingMore(was, b0, f.buf[..], to0, t0, rs, k, quoted);
  }

  /** The loop of qstrfmt, and without the quotes that of _fmtcpy: the first nrunes characters
      of the string. */
  method PutChars(s: array<Byte>, at: nat, nrunes: nat, me: nat, f: Fmt, t0: nat, quoted: bool,
                  ghost was: seq<Byte>, ghost to0: nat, ghost rs: seq<Rune>)
    returns (ok: bool, t: nat, m: nat)
    requires f.stop <= f.buf.Length && f.buf != s && StringHere(s[..], at, rs)
    requires nrunes <= |rs| && me == Place(at, rs, nrunes)
    requires Printing(was, f.buf[..], to0, t0, rs, 0, quoted) && to0 + |Body(rs[..nrunes], quoted)| <= f.stop
    modifies f.buf
    ensures ok && m == me && Printing(was, f.buf[..], to0, t, rs, nrunes, quoted)
  {
    ok, t, m := true, t0, at;
    ghost var str := s[..];
    ReadAt(s[..], at, rs, nrunes);
    var nc := nrunes;
    ghost var k := 0;
    assert rs[..0] == [];
    while nc > 0 && ok
      invariant ok && k <= nrunes && nc == nrunes - k && m == Place(at, rs, k) && s[..] == str
      invariant Printing(was, f.buf[..], to0, t, rs, k, quoted)
    {
      ok, t, m := PutNext(s, at, m, me, f, t, quoted, was, to0, rs, k, nrunes);
      k, nc := k + 1, nc - 1;
    }
  }

  /** The next character fits if all that are to be printed do. */
  lemma Room(rs: seq<Rune>, k: nat, n: nat, quoted: bool, at: nat)
    requires String(rs) && k < n <= |rs|
    ensures |Body(rs[..k], quoted)| + Cost(rs[k], quoted) <= |Body(rs[..n], quoted)|
    ensures Place(at, rs, k + 1) <= Place(at, rs, n)
  {
    Rejoined(rs, k);
    SizeMore(rs[..k], rs[k], quoted);
    assert rs[..n][..k + 1] == rs[..k + 1];
    SizeGrows(rs[..n], k + 1, quoted, quoted);
    SizeGrows(rs[..n], k + 1, false, false);
    BodySize(rs[..k], quoted);
    BodySize(rs[..n], quoted);
  }

  lemma StartPrinting(was: seq<Byte>, b: seq<Byte>, to0: nat, rs: seq<Rune>, quoted: bool)
    requires Wrote(was, b, to0, if quoted then [QUOTE] else [])
    ensures Printing(was, b, to0, to0 + if quoted then 1 else 0, rs, 0, quoted)
  {
    assert rs[..0] == [] && [QUOTE] + [] == [QUOTE];
  }

  /** qstrfmt: what has been accepted, in quotes.  It never runs out of room. */
  method QStrFmt(s: array<Byte>, at: nat, q: Quoteinfo, f: Fmt, ghost rs: seq<Rune>) returns (ok: bool)
    requires f.Valid() && f.buf != s && StringHere(s[..], at, rs)
    requires q.nrunesin <= |rs| && Counts(q, rs[..q.nrunesin]) && q.quoted && f.to + q.nbytesout <= f.stop
    modifies f, f.buf
    ensures ok && f.Valid() && f.to == old(f.to) + q.nbytesout && f.nfmt == old(f.nfmt) + q.nbytesout
    ensures Wrote(old(f.buf[..]), f.buf[..], old(f.to), Quoted(EncodeAll(rs[..q.nrunesin]), true))
  {
    ghost var was, to0, text := f.buf[..], f.to, rs[..q.nrunesin];
    BodySize(text, true);
    var t, m;
    ok, t := f.PutRune(f.to, QUOTE);
    StartPrinting(was, f.buf[..], to0, rs, true);
    ok, t, m := PutChars(s, at, q.nrunesin, at + q.nbytesin, f, t, true, was, to0, rs);
    if ok {
      ghost var b := f.buf[..];
      ok, t := f.PutRune(t, QUOTE);
      WroteMore(was, b, f.buf[..], to0, Body(text, true), [QUOTE]);
    }
    f.nfmt := f.nfmt + t - f.to;
    f.to := t;
  }

  /** _fmtcpy: what has been accepted, as it is. */
  method FmtCpy(s: array<Byte>, at: nat, nrunes: nat, nbytes: nat, f: Fmt, ghost rs: seq<Rune>) returns (ok: bool)
    requires f.Valid() && f.buf != s && StringHere(s[..], at, rs)
    requires nrunes <= |rs| && nbytes == |EncodeAll(rs[..nrunes])| && f.to + nbytes <= f.stop
    modifies f, f.buf
    ensures ok && f.Valid() && f.to == old(f.to) + nbytes && f.nfmt == old(f.nfmt) + nbytes
    ensures Wrote(old(f.buf[..]), f.buf[..], old(f.to), EncodeAll(rs[..nrunes]))
  {
    ghost var was, to0 := f.buf[..], f.to;
    var t, m;
    StartPrinting(was, was, to0, rs, false);
    ok, t, m := PutChars(s, at, nrunes, at + nbytes, f, f.to, false, was, to0, rs);
    f.nfmt := f.nfmt + t - f.to;
    f.to := t;
    ok := ok && m >= at + nbytes;
  }

  /** _quotestrfmt, for bytes in and bytes out.  What is printed stays before stop; it is the
      string, or as much of it as fits, in quotes if it needs them. */
  method QuoteStrFmt(s: array<Byte>, at: nat, f: Fmt, sharp: bool, doquote: Rune -> bool, ghost rs: seq<Rune>)
    returns (ok: bool, q: Quoteinfo)
    requires f.Valid() && f.buf != s && StringHere(s[..], at, rs)
    modifies f, f.buf
    ensures ok && f.Valid() && Setup(q, rs, sharp, doquote, f.stop - old(f.to))
    ensures f.to == old(f.to) + q.nbytesout && f.nfmt == old(f.nfmt) + q.nbytesout
    ensures Wrote(old(f.buf[..]), f.buf[..], old(f.to), Quoted(EncodeAll(rs[..q.nrunesin]), q.quoted))
  {
    var outlen := f.stop - f.to;
    q := QuoteSetup(s, at, outlen, sharp, doquote, rs);
    if !q.quoted {
      ok := FmtCpy(s, at, q.nrunesin, q.nbytesin, f, rs);
    } else {
      ok := QStrFmt(s, at, q, f, rs);
    }
  }
}
