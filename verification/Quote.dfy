/** The quoting printer of lib9/fmtquote.c: `%q` prints a string so that the tokenizer reads it
    back.  The strings are valid UTF-8, the output is bytes and the field width is zero. */
module Quoting {
  import opened Bytes
  import opened Utf8

  const BLANK: Byte := 32

  // --------------------------------------------------------------------- quoted text

  /** Inside quotes a quote is doubled. */
  function Doubled(b: Text): Text {
    if b == [] then [] else (if b[0] == QUOTE then [QUOTE, QUOTE] else [b[0]]) + Doubled(b[1..])
  }

  function Quoted(b: Text, quoted: bool): Text {
    if quoted then [QUOTE] + Doubled(b) + [QUOTE] else b
  }

  /** What can not be printed without quotes.  `doquote` is the caller's own wish. */
  predicate Special(c: Rune, doquote: Rune -> bool) { c <= BLANK || c == QUOTE || doquote(c) }

  predicate Needs(rs: seq<Rune>, doquote: Rune -> bool) {
    exists i :: 0 <= i < |rs| && Special(rs[i], doquote)
  }

  /** Whether a whole string is printed in quotes. */
  predicate Wanted(rs: seq<Rune>, sharp: bool, doquote: Rune -> bool) {
    sharp || rs == [] || Needs(rs, doquote)
  }

  lemma {:induction false} DoubledAppend(a: Text, b: Text)
    ensures Doubled(a + b) == Doubled(a) + Doubled(b)
    decreases |a|
  {
    if a == [] {
      assert a + b == b;
    } else {
      assert (a + b)[1..] == a[1..] + b;
      DoubledAppend(a[1..], b);
    }
  }

  lemma {:induction false} NothingToDouble(b: Text)
    ensures |Doubled(b)| >= |b|
    ensures QUOTE !in b ==> Doubled(b) == b
    decreases |b|
  {
    if b != [] { NothingToDouble(b[1..]); }
  }

  /** One more character in a text. */
  lemma MoreDoubled(b: Text, c: Rune)
    requires Scalar(c)
    ensures Doubled(b + Enc(c)) == Doubled(b) + (if c == QUOTE then [QUOTE, QUOTE] else Enc(c))
  {
    DoubledAppend(b, Enc(c));
    if c == QUOTE {
      assert Enc(c) == [QUOTE] && Doubled([QUOTE]) == [QUOTE, QUOTE] + Doubled([]);
    } else {
      NothingToDouble(Enc(c));
    }
  }

  lemma {:induction false} EncodeMore(rs: seq<Rune>, r: Rune)
    requires Scalar(r)
    ensures EncodeAll(rs + [r]) == EncodeAll(rs) + Enc(r)
    decreases |rs|
  {
    var t := rs + [r];
    if rs == [] {
      assert t[1..] == [] && EncodeAll(t) == Enc(r) + EncodeAll([]);
    } else {
      assert t[0] == rs[0] && t[1..] == rs[1..] + [r];
      EncodeMore(rs[1..], r);
      assert Enc(Norm(rs[0])) + (EncodeAll(rs[1..]) + Enc(r)) == EncodeAll(rs) + Enc(r);
    }
  }

  /** Characters that need no quotes have no bytes that need them. */
  lemma {:induction false} PlainBytes(rs: seq<Rune>, doquote: Rune -> bool)
    requires !Needs(rs, doquote) && forall i :: 0 <= i < |rs| ==> Scalar(rs[i])
    ensures forall x :: x in EncodeAll(rs) ==> x > BLANK && x != QUOTE
    decreases |rs|
  {
    if rs != [] {
      assert !Special(rs[0], doquote);
      forall i | 0 <= i < |rs[1..]| ensures !Special(rs[1..][i], doquote) && Scalar(rs[1..][i]) {
        assert rs[1..][i] == rs[i + 1];
      }
      PlainBytes(rs[1..], doquote);
    }
  }

  // -------------------------------------------------------------------- what is accepted

  datatype Quoteinfo = Quoteinfo(quoted: bool, nrunesin: nat, nbytesin: nat, nrunesout: nat, nbytesout: nat)

  /** A string: characters other than NUL. */
  ghost predicate String(rs: seq<Rune>) {
    forall i :: 0 <= i < |rs| ==> Scalar(rs[i]) && rs[i] != 0
  }

  function Size(rs: seq<Rune>, quoted: bool): nat { |Quoted(EncodeAll(rs), quoted)| }

  /** How many bytes a character takes in the output. */
  function Cost(c: Rune, quoted: bool): nat
  {
    EncLen(c) + if quoted && c == QUOTE then 1 else 0
  }

  lemma SizeMore(rs: seq<Rune>, c: Rune, quoted: bool)
    requires Scalar(c)
    ensures Size(rs + [c], quoted) == Size(rs, quoted) + Cost(c, quoted)
  {
    EncodeMore(rs, c);
    MoreDoubled(EncodeAll(rs), c);
  }

  /** The quotes cost two bytes as long as there is nothing to double. */
  lemma SizeQuotes(rs: seq<Rune>, doquote: Rune -> bool)
    requires !Needs(rs, doquote) && forall i :: 0 <= i < |rs| ==> Scalar(rs[i])
    ensures Size(rs, true) == Size(rs, false) + 2
  {
    PlainBytes(rs, doquote);
    NothingToDouble(EncodeAll(rs));
  }

  /** The string rs is at position `at`, with its NUL. */
  ghost predicate StringHere(s: Text, at: nat, rs: seq<Rune>) {
    && String(rs) && at + |EncodeAll(rs)| < |s|
    && s[at..at + |EncodeAll(rs)|] == EncodeAll(rs) && s[at + |EncodeAll(rs)|] == 0
  }

  /** Where the character k of the string begins. */
  ghost function Place(at: nat, rs: seq<Rune>, k: nat): nat
    requires k <= |rs|
  {
    at + |EncodeAll(rs[..k])|
  }

  lemma {:induction false} EncodeSplit(a: seq<Rune>, b: seq<Rune>)
    ensures EncodeAll(a + b) == EncodeAll(a) + EncodeAll(b)
    decreases |a|
  {
    if a == [] {
      assert a + b == b;
    } else {
      assert (a + b)[1..] == a[1..] + b;
      EncodeSplit(a[1..], b);
    }
  }

  /** What chartorune reads there. */
  lemma ReadAt(s: Text, at: nat, rs: seq<Rune>, k: nat)
    requires StringHere(s, at, rs) && k <= |rs|
    ensures var p := Place(at, rs, k);
      && p < |s| && Enough(s[p..])
      && (k == |rs| ==> Dec(s[p..]) == (0, 1))
      && (k < |rs| ==> Dec(s[p..]) == (rs[k], EncLen(rs[k])) && Place(at, rs, k + 1) == p + EncLen(rs[k]))
  {
    if k == |rs| {
      assert rs[..k] == rs;
    } else {
      SplitAt(rs, k);
      PrefixMore(rs, k);
      var t := CutOut(s, at, EncodeAll(rs[..k]), Enc(rs[k]), EncodeAll(rs[k + 1..]));
      EncThenDec(rs[k], t);
      EncAnnounced(rs[k], t);
    }
  }

  lemma SplitAt(rs: seq<Rune>, k: nat)
    requires k < |rs| && Scalar(rs[k])
    ensures EncodeAll(rs) == EncodeAll(rs[..k]) + (Enc(rs[k]) + EncodeAll(rs[k + 1..]))
  {
    EncodeThree(rs[..k], rs[k], rs[k + 1..]);
    Rejoined(rs, k);
  }

  lemma Rejoined(rs: seq<Rune>, k: nat)
    requires k < |rs|
    ensures rs[..k] + ([rs[k]] + rs[k + 1..]) == rs && rs[..k] + [rs[k]] == rs[..k + 1]
  {
  }

  lemma PrefixMore(rs: seq<Rune>, k: nat)
    requires k < |rs| && Scalar(rs[k])
    ensures EncodeAll(rs[..k + 1]) == EncodeAll(rs[..k]) + Enc(rs[k])
  {
    EncodeMore(rs[..k], rs[k]);
    Rejoined(rs, k);
  }

  lemma EncodeThree(a: seq<Rune>, c: Rune, b: seq<Rune>)
    requires Scalar(c)
    ensures EncodeAll(a + ([c] + b)) == EncodeAll(a) + (Enc(c) + EncodeAll(b))
  {
    EncodeSplit(a, [c] + b);
    EncodeFirst(c, b);
  }

  lemma EncodeFirst(c: Rune, b: seq<Rune>)
    requires Scalar(c)
    ensures EncodeAll([c] + b) == Enc(c) + EncodeAll(b)
  {
    assert ([c] + b)[1..] == b;
  }

  lemma CutOut(s: Text, at: nat, u: Text, v: Text, w: Text) returns (t: Text)
    requires at + |u + (v + w)| <= |s| && s[at..at + |u + (v + w)|] == u + (v + w)
    ensures s[at + |u|..] == v + t
  {
    t := s[at + |u| + |v|..];
    var e := u + (v + w);
    forall x | 0 <= x < |v| ensures s[at + |u| + x] == v[x] {
      assert s[at..at + |e|][|u| + x] == e[|u| + x];
    }
  }

  lemma EncAnnounced(c: Rune, t: Text)
    requires Scalar(c)
    ensures Enough(Enc(c) + t) && Announced((Enc(c) + t)[0]) == EncLen(c)
  {
  }

  function Quotes(rs: seq<Rune>): nat {
    if rs == [] then 0 else Quotes(rs[..|rs| - 1]) + if rs[|rs| - 1] == QUOTE then 1 else 0
  }

  /** q counts the characters rs and what they become in the output. */
  ghost predicate Counts(q: Quoteinfo, rs: seq<Rune>) {
    && q.nrunesin == |rs| && q.nbytesin == |EncodeAll(rs)| && q.nbytesout == Size(rs, q.quoted)
    && q.nrunesout == |rs| + if q.quoted then 2 + Quotes(rs) else 0
  }

  lemma CountsMore(q: Quoteinfo, rs: seq<Rune>, c: Rune)
    requires Counts(q, rs) && Scalar(c)
    ensures var n := if q.quoted && c == QUOTE then 1 else 0;
      Counts(q.(nrunesin := q.nrunesin + 1, nbytesin := q.nbytesin + EncLen(c),
                nrunesout := q.nrunesout + 1 + n, nbytesout := q.nbytesout + EncLen(c) + n), rs + [c])
  {
    SizeMore(rs, c, q.quoted);
    EncodeMore(rs, c);
    assert (rs + [c])[..|rs|] == rs;
  }

  lemma {:induction false} NoQuotes(rs: seq<Rune>, doquote: Rune -> bool)
    requires !Needs(rs, doquote)
    ensures Quotes(rs) == 0
    decreases |rs|
  {
    if rs != [] {
      var n := |rs| - 1;
      assert !Special(rs[n], doquote);
      forall i | 0 <= i < n ensures !Special(rs[..n][i], doquote) { assert rs[..n][i] == rs[i]; }
      NoQuotes(rs[..n], doquote);
    }
  }

  /** Putting quotes around what has been accepted. */
  lemma CountsQuoted(q: Quoteinfo, rs: seq<Rune>, doquote: Rune -> bool)
    requires Counts(q, rs) && !q.quoted && !Needs(rs, doquote) && forall i :: 0 <= i < |rs| ==> Scalar(rs[i])
    ensures Counts(q.(quoted := true, nrunesout := q.nrunesout + 2, nbytesout := q.nbytesout + 2), rs)
  {
    SizeQuotes(rs, doquote);
    NoQuotes(rs, doquote);
  }

  lemma NeedsMore(rs: seq<Rune>, c: Rune, doquote: Rune -> bool)
    ensures Needs(rs + [c], doquote) <==> Needs(rs, doquote) || Special(c, doquote)
  {
    var t := rs + [c];
    assert t[|rs|] == c && forall i :: 0 <= i < |rs| ==> t[i] == rs[i];
    if Needs(rs, doquote) {
      var i :| 0 <= i < |rs| && Special(rs[i], doquote);
      assert Special(t[i], doquote);
    }
    if Special(c, doquote) { assert Special(t[|rs|], doquote); }
  }

  /** What _quotesetup keeps while it accepts characters. */
  ghost predicate Accepting(q: Quoteinfo, rs: seq<Rune>, forced: bool, doquote: Rune -> bool, nout: nat) {
    String(rs) && Counts(q, rs) && q.nbytesout <= nout && (q.quoted <==> forced || Needs(rs, doquote))
  }

  /** The body of its loop, for the character c of w bytes: accept it if it fits together with
      the quotes it needs. */
  method Accept(q0: Quoteinfo, c: Rune, w: nat, nout: nat, doquote: Rune -> bool, ghost rs: seq<Rune>,
                ghost forced: bool)
    returns (full: bool, q: Quoteinfo)
    requires Accepting(q0, rs, forced, doquote, nout) && Scalar(c) && c != 0 && w == EncLen(c)
    ensures !full ==> Accepting(q, rs + [c], forced, doquote, nout)
    ensures full ==> Size(rs + [c], forced || Needs(rs + [c], doquote)) > nout
    ensures full ==> Counts(q, rs) && q.nbytesout <= nout && (q0.quoted ==> q.quoted)
    ensures full ==> (q.quoted <==> q0.quoted || (c == QUOTE && nout == q0.nbytesout + 3))
  {
    NeedsMore(rs, c, doquote);
    SizeMore(rs, c, q0.quoted);
    SizeMore(rs, c, true);
    if !q0.quoted { CountsQuoted(q0, rs, doquote); }
    q := q0;
    full := false;
    if q.nbytesout + w > nout {
      full := true;
    } else if c <= BLANK || c == QUOTE || doquote(c) {
      if !q.quoted {
        if 1 + q.nbytesout + w + 1 > nout {
          full := true;
        } else {
          q := q.(nrunesout := q.nrunesout + 2, nbytesout := q.nbytesout + 2, quoted := true);
        }
      }
      if !full && c == QUOTE {
        if 1 + q.nbytesout + w > nout {
          full := true;
        } else {
          CountsMore(q, rs, c);
          q := q.(nbytesout := q.nbytesout + 1, nrunesout := q.nrunesout + 1);
        }
      } else if !full {
        CountsMore(q, rs, c);
      }
    } else {
      CountsMore(q, rs, c);
    }
    if !full {
      q := q.(nbytesin := q.nbytesin + w, nrunesin := q.nrunesin + 1, nbytesout := q.nbytesout + w,
              nrunesout := q.nrunesout + 1);
    }
  }

  /** A single quote comes next, and there is room for it with quotes around the text but not
      for doubling it: the quotes are put there, and the single quote is not accepted. */
  ghost predicate QuoteCutOff(rs: seq<Rune>, k: nat, nout: nat) {
    k < |rs| && rs[k] == QUOTE && nout == |EncodeAll(rs[..k])| + 3
  }

  /** Whether the first k characters of the string rs are printed in quotes when nout bytes are
      all the room there is. */
  ghost predicate InQuotes(rs: seq<Rune>, k: nat, sharp: bool, doquote: Rune -> bool, nout: nat)
    requires k <= |rs|
  {
    if sharp || rs == [] then nout >= 2 else Needs(rs[..k], doquote) || QuoteCutOff(rs, k, nout)
  }

  /** What _quotesetup promises about the string rs and room for nout bytes: it takes as many
      characters as fit together with the quotes they need, and all if they fit. */
  ghost predicate Setup(q: Quoteinfo, rs: seq<Rune>, sharp: bool, doquote: Rune -> bool, nout: nat) {
    && q.nrunesin <= |rs| && Counts(q, rs[..q.nrunesin]) && q.nbytesout <= nout
    && (q.quoted <==> InQuotes(rs, q.nrunesin, sharp, doquote, nout)) && (sharp && nout < 2 ==> q.nrunesin == 0)
    && (q.nrunesin < |rs| ==> Size(rs[..q.nrunesin + 1], sharp || Needs(rs[..q.nrunesin + 1], doquote)) > nout)
    && (Size(rs, Wanted(rs, sharp, doquote)) <= nout ==> q.nrunesin == |rs| && q.quoted == Wanted(rs, sharp, doquote))
  }

  /** The string of one single quote, with room for three bytes: nothing of it is accepted, and
      a pair of quotes is printed all the same. */
  lemma LoneQuote(q: Quoteinfo, doquote: Rune -> bool)
    requires Setup(q, [39], false, doquote, 3)
    ensures q == Quoteinfo(true, 0, 0, 2, 2) && Quoted([], true) == [39, 39]
  {
    var rs := [QUOTE];
    assert Special(rs[0], doquote);
    assert rs[..0] == [] && rs[..1] == rs == [] + [QUOTE];
    SizeMore([], QUOTE, true);
    assert Size([], true) == 2;
  }

  lemma {:induction false} SizeGrows(rs: seq<Rune>, k: nat, quoted: bool, quoted': bool)
    requires k <= |rs| && String(rs) && (quoted ==> quoted')
    ensures Size(rs[..k], quoted) <= Size(rs, quoted')
    decreases |rs| - k
  {
    if k == |rs| {
      assert rs[..k] == rs;
      NothingToDouble(EncodeAll(rs));
    } else {
      assert rs[..k + 1] == rs[..k] + [rs[k]];
      SizeMore(rs[..k], rs[k], quoted);
      SizeGrows(rs, k + 1, quoted, quoted');
    }
  }

  lemma NeedsPrefix(rs: seq<Rune>, k: nat, doquote: Rune -> bool)
    requires k <= |rs|
    ensures Needs(rs[..k], doquote) ==> Needs(rs, doquote)
  {
    if i :| 0 <= i < k && Special(rs[..k][i], doquote) {
      assert Special(rs[i], doquote);
    }
  }

  /** A character that does not fit, or no more characters. */
  lemma SetupDone(q: Quoteinfo, rs: seq<Rune>, k: nat, sharp: bool, doquote: Rune -> bool, nout: nat)
    requires String(rs) && k <= |rs| && Counts(q, rs[..k]) && q.nbytesout <= nout && (sharp || rs == [] ==> nout >= 2)
    requires q.quoted <==> sharp || rs == [] || Needs(rs[..k], doquote) || QuoteCutOff(rs, k, nout)
    requires k < |rs| ==> Size(rs[..k + 1], sharp || Needs(rs[..k + 1], doquote)) > nout
    ensures Setup(q, rs, sharp, doquote, nout)
  {
    AllOfIt(rs, k);
    if k < |rs| {
      NeedsPrefix(rs, k + 1, doquote);
      SizeGrows(rs, k + 1, sharp || Needs(rs[..k + 1], doquote), Wanted(rs, sharp, doquote));
    }
  }

  lemma PlainGrows(rs: seq<Rune>, j: nat, k: nat)
    requires String(rs) && j <= k <= |rs|
    ensures |EncodeAll(rs[..j])| <= |EncodeAll(rs[..k])|
  {
    assert rs[..k][..j] == rs[..j];
    SizeGrows(rs[..k], j, false, false);
  }

  /** Quotes that the text does not need are printed exactly if the first character that needs
      quotes is a single quote, and there is room for it in quotes but not for doubling it. */
  lemma NeedlessQuotes(q: Quoteinfo, rs: seq<Rune>, doquote: Rune -> bool, nout: nat)
    requires String(rs) && rs != [] && Setup(q, rs, false, doquote, nout)
    ensures q.quoted && !Needs(rs[..q.nrunesin], doquote) <==>
      exists k: nat :: k < |rs| && rs[k] == QUOTE && !Needs(rs[..k], doquote) && nout == |EncodeAll(rs[..k])| + 3
  {
    if k: nat :| k < |rs| && rs[k] == QUOTE && !Needs(rs[..k], doquote) && nout == |EncodeAll(rs[..k])| + 3 {
      CutOffThere(q, rs, doquote, nout, k);
    }
  }

  lemma CutOffThere(q: Quoteinfo, rs: seq<Rune>, doquote: Rune -> bool, nout: nat, k: nat)
    requires String(rs) && Setup(q, rs, false, doquote, nout)
    requires k < |rs| && rs[k] == QUOTE && !Needs(rs[..k], doquote) && nout == |EncodeAll(rs[..k])| + 3
    ensures q.nrunesin == k
  {
    var j := q.nrunesin;
    if j > k { WithTheQuote(rs, k, j, doquote); }
    if j < k { BeforeTheQuote(rs, j, k, doquote); }
  }

  lemma WithTheQuote(rs: seq<Rune>, k: nat, j: nat, doquote: Rune -> bool)
    requires String(rs) && k < j <= |rs| && rs[k] == QUOTE && !Needs(rs[..k], doquote)
    ensures Needs(rs[..j], doquote) && Size(rs[..j], true) >= |EncodeAll(rs[..k])| + 4
  {
    assert Special(rs[..j][k], doquote);
    Rejoined(rs, k);
    SizeMore(rs[..k], QUOTE, true);
    SizeQuotes(rs[..k], doquote);
    assert rs[..j][..k + 1] == rs[..k + 1];
    SizeGrows(rs[..j], k + 1, true, true);
  }

  lemma BeforeTheQuote(rs: seq<Rune>, j: nat, k: nat, doquote: Rune -> bool)
    requires String(rs) && j < k <= |rs| && !Needs(rs[..k], doquote)
    ensures !Needs(rs[..j + 1], doquote) && Size(rs[..j + 1], false) <= |EncodeAll(rs[..k])|
  {
    PlainGrows(rs, j + 1, k);
    assert rs[..k][..j + 1] == rs[..j + 1];
    NeedsPrefix(rs[..k], j + 1, doquote);
  }

  /** _quotesetup, for a string of bytes printed as bytes. */
  method QuoteSetup(s: array<Byte>, at: nat, nout: nat, sharp: bool, doquote: Rune -> bool, ghost rs: seq<Rune>)
    returns (q: Quoteinfo)
    requires StringHere(s[..], at, rs)
    ensures Setup(q, rs, sharp, doquote, nout)
  {
    q := Quoteinfo(false, 0, 0, 0, 0);
    ReadAt(s[..], at, rs, 0);
    assert rs[..0] == [];
    ghost var forced := sharp || rs == [];
    if sharp || s[at] == 0 {
      if nout < 2 {
        TooNarrow(rs, sharp, doquote, nout);
        return;
      }
      q := q.(quoted := true, nbytesout := 2, nrunesout := 2);
    }
    q := SetupLoop(s, at, nout, sharp, doquote, q, rs);
  }

  method SetupLoop(s: array<Byte>, at: nat, nout: nat, ghost sharp: bool, doquote: Rune -> bool,
                   q0: Quoteinfo, ghost rs: seq<Rune>)
    returns (q: Quoteinfo)
    requires StringHere(s[..], at, rs) && Accepting(q0, [], sharp || rs == [], doquote, nout)
    ensures Setup(q, rs, sharp, doquote, nout)
  {
    q := q0;
    var p := at;
    ghost var k, forced := 0, sharp || rs == [];
    assert rs[..0] == [];
    while true
      invariant k <= |rs| && p == Place(at, rs, k) && Accepting(q, rs[..k], forced, doquote, nout)
      decreases |rs| - k
    {
      ReadAt(s[..], at, rs, k);
      assert s[..][p..] == s[p..];
      var c, w := CharToRune(s, p);
      if c == 0 {
        break;
      }
      var full;
      Rejoined(rs, k);
      full, q := Accept(q, c, w, nout, doquote, rs[..k], forced);
      if full {
        break;
      }
      p := p + w;
      k := k + 1;
    }
    AllOfIt(rs, k);
    SetupDone(q, rs, k, sharp, doquote, nout);
  }

  lemma AllOfIt(rs: seq<Rune>, k: nat)
    ensures k == |rs| ==> rs[..k] == rs
  {
  }

  /** Not even the quotes fit. */
  lemma TooNarrow(rs: seq<Rune>, sharp: bool, doquote: Rune -> bool, nout: nat)
    requires String(rs) && nout < 2 && (sharp || rs == [])
    ensures Setup(Quoteinfo(false, 0, 0, 0, 0), rs, sharp, doquote, nout)
  {
    var q := Quoteinfo(false, 0, 0, 0, 0);
    assert rs[..0] == [];
    assert Size([], true) == 2;
    SizeGrows(rs, 0, true, true);
    if rs != [] { SizeGrows(rs[..1], 0, true, true); assert rs[..1][..0] == []; }
  }
}
