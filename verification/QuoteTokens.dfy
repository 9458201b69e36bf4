/** The quoting printer and the tokenizer undo each other (lib9/fmtquote.c, lib9/tokenize.c). */
module QuoteTokens {
  import opened Bytes
  import opened Utf8
  import opened Quoting
  import opened QuotePrinting
  import opened Tokenize

  /** A text without blanks and quotes is a token. */
  lemma {:induction false} TokenPlain(b: seq<Byte>, rest: seq<Byte>)
    requires (forall x :: x in b ==> x > BLANK && x != QUOTE) && (rest == [] || IsSep(rest[0]))
    ensures Token(b + rest, false) == (b, rest)
    decreases |b|
  {
    var r := b + rest;
    if b == [] {
      assert r == rest;
    } else {
      assert r[0] == b[0] && b[0] in b && r[1..] == b[1..] + rest;
      forall x | x in b[1..] ensures x in b {}
      TokenPlain(b[1..], rest);
      assert [b[0]] + b[1..] == b;
    }
  }

  /** Inside quotes the doubled quotes become one again, and everything else stays. */
  lemma {:induction false} TokenInside(b: seq<Byte>, rest: seq<Byte>)
    requires rest == [] || IsSep(rest[0])
    ensures Token(Doubled(b) + ([QUOTE] + rest), true) == (b, rest)
    decreases |b|
  {
    var tail := [QUOTE] + rest;
    var r := Doubled(b) + tail;
    if b == [] {
      assert r == tail && tail[1..] == rest;
    } else {
      TokenInside(b[1..], rest);
      var r' := Doubled(b[1..]) + tail;
      if b[0] == QUOTE {
        assert r[0] == QUOTE && r[1] == QUOTE && r[2..] == r';
        assert [QUOTE] + b[1..] == b;
      } else {
        assert r[0] == b[0] && r[1..] == r';
        assert [b[0]] + b[1..] == b;
      }
    }
  }

  lemma TokenQuoted(b: seq<Byte>, rest: seq<Byte>)
    requires rest == [] || IsSep(rest[0])
    ensures Token(Quoted(b, true) + rest, false) == (b, rest)
  {
    var r := Quoted(b, true) + rest;
    assert r[0] == QUOTE && r[1..] == Doubled(b) + ([QUOTE] + rest);
    TokenInside(b, rest);
  }

  /** A printed string is one token, the string itself, if it is in quotes or does not need
      them. */
  lemma TokenPrinted(rs: seq<Rune>, quoted: bool, doquote: Rune -> bool, rest: seq<Byte>)
    requires String(rs) && (Needs(rs, doquote) ==> quoted) && (rest == [] || IsSep(rest[0]))
    ensures Token(Quoted(EncodeAll(rs), quoted) + rest, false) == (EncodeAll(rs), rest)
  {
    if quoted {
      TokenQuoted(EncodeAll(rs), rest);
    } else {
      PlainBytes(rs, doquote);
      TokenPlain(EncodeAll(rs), rest);
    }
  }

  lemma PrintedStarts(rs: seq<Rune>, quoted: bool, doquote: Rune -> bool)
    requires String(rs) && (Needs(rs, doquote) ==> quoted) && (rs != [] || quoted)
    ensures var t := Quoted(EncodeAll(rs), quoted); t != [] && !IsSep(t[0])
  {
    if !quoted {
      PlainBytes(rs, doquote);
      var t := EncodeAll(rs);
      assert t[..|Enc(rs[0])|] == Enc(rs[0]);
      assert t[0] in t;
    }
  }

  /** Whatever the room was, what has been printed reads back as the characters accepted. */
  lemma PrefixReadsBack(q: Quoteinfo, rs: seq<Rune>, sharp: bool, doquote: Rune -> bool, nout: nat)
    requires String(rs) && Setup(q, rs, sharp, doquote, nout)
    ensures var text, t := rs[..q.nrunesin], Quoted(EncodeAll(rs[..q.nrunesin]), q.quoted);
      Tokens(t) == if t == [] then [] else [EncodeAll(text)]
  {
    var text := rs[..q.nrunesin];
    var t := Quoted(EncodeAll(text), q.quoted);
    if t != [] {
      PrintedStarts(text, q.quoted, doquote);
      TokenPrinted(text, q.quoted, doquote, []);
      assert t + [] == t;
      assert Tokens([]) == [];
    }
  }

  // --------------------------------------------------------------------------- whole lists

  /** A list of strings printed with blanks between them. */
  function Printed(list: seq<seq<Rune>>, quoted: seq<bool>): seq<Byte>
    requires |list| == |quoted|
    decreases |list|
  {
    if list == [] then []
    else Quoted(EncodeAll(list[0]), quoted[0])
         + if |list| == 1 then [] else [BLANK] + Printed(list[1..], quoted[1..])
  }

  /** The strings, and quotes wherever the printer wants them. */
  ghost predicate Printable(list: seq<seq<Rune>>, quoted: seq<bool>, doquote: Rune -> bool) {
    && |quoted| == |list|
    && forall i :: 0 <= i < |list| ==> String(list[i]) && (Wanted(list[i], false, doquote) ==> quoted[i])
  }

  /** Tokenizing what has been printed gives the list back, with its empty strings, blanks and
      quotes. */
  lemma {:induction false} RoundTrip(list: seq<seq<Rune>>, quoted: seq<bool>, doquote: Rune -> bool)
    requires Printable(list, quoted, doquote)
    ensures var toks := Tokens(Printed(list, quoted));
      |toks| == |list| && forall i :: 0 <= i < |list| ==> toks[i] == EncodeAll(list[i]) && DecodeAll(toks[i]) == list[i]
    decreases |list|
  {
    if list != [] {
      var rs, q := list[0], quoted[0];
      var more := Printed(list[1..], quoted[1..]);
      var rest := if |list| == 1 then [] else [BLANK] + more;
      PrintedStarts(rs, q, doquote);
      TokenPrinted(rs, q, doquote, rest);
      assert |list| > 1 ==> rest[1..] == more;
      TokensStep(Printed(list, quoted), more);
      RoundTrip(list[1..], quoted[1..], doquote);
      Utf8.RoundTrip(rs);
    }
  }

  /** Spaces, tabs, carriage returns and newlines. */
  predicate Gap(g: Text) { forall i :: 0 <= i < |g| ==> g[i] == 32 || g[i] == 9 || g[i] == 13 || g[i] == 10 }

  /** A list of strings with a gap before each of them, and one at the end. */
  function Spread(list: seq<seq<Rune>>, quoted: seq<bool>, gaps: seq<Text>, end: Text): Text
    requires |list| == |quoted| == |gaps|
    decreases |list|
  {
    if list == [] then end
    else gaps[0] + (Quoted(EncodeAll(list[0]), quoted[0]) + Spread(list[1..], quoted[1..], gaps[1..], end))
  }

  lemma {:induction false} OverGap(g: Text, t: Text)
    requires Gap(g)
    ensures Tokens(g + t) == Tokens(t) && Skip(g + t) == Skip(t)
    decreases |g|
  {
    if g == [] {
      assert g + t == t;
    } else {
      assert (g + t)[1..] == g[1..] + t;
      OverGap(g[1..], t);
    }
  }

  /** One printed string in front of a text. */
  lemma FirstPrinted(rs: seq<Rune>, q: bool, doquote: Rune -> bool, rest: Text)
    requires String(rs) && (Wanted(rs, false, doquote) ==> q) && (rest == [] || IsSep(rest[0]))
    ensures Tokens(Quoted(EncodeAll(rs), q) + rest) == [EncodeAll(rs)] + Tokens(rest)
  {
    PrintedStarts(rs, q, doquote);
    TokenPrinted(rs, q, doquote, rest);
  }

  /** Whatever blanks there are between printed strings, and before and behind them, the strings
      come back. */
  lemma {:induction false} AnyGaps(list: seq<seq<Rune>>, quoted: seq<bool>, doquote: Rune -> bool, gaps: seq<Text>,
                                   end: Text)
    requires Printable(list, quoted, doquote) && |gaps| == |list| && Gap(end)
    requires forall i :: 0 <= i < |gaps| ==> Gap(gaps[i]) && (i > 0 ==> gaps[i] != [])
    ensures var toks := Tokens(Spread(list, quoted, gaps, end));
      |toks| == |list| && forall i :: 0 <= i < |list| ==> toks[i] == EncodeAll(list[i])
    decreases |list|
  {
    if list == [] {
      OverGap(end, []);
      assert end + [] == end;
    } else {
      var rs, q := list[0], quoted[0];
      var rest := Spread(list[1..], quoted[1..], gaps[1..], end);
      assert |list| > 1 ==> rest[0] == gaps[1][0];
      FirstPrinted(rs, q, doquote, rest);
      OverGap(gaps[0], Quoted(EncodeAll(rs), q) + rest);
      hide Tokens, Quoted, EncodeAll;
      AnyGaps(list[1..], quoted[1..], doquote, gaps[1..], end);
    }
  }

  // ------------------------------------------------------------- printed and tokenized again

  lemma {:induction false} EncodedNoNul(rs: seq<Rune>)
    requires String(rs)
    ensures NoNul(EncodeAll(rs))
    decreases |rs|
  {
    if rs != [] {
      EncodedNoNul(rs[1..]);
    }
  }

  lemma {:induction false} DoubledNoNul(b: Text)
    requires NoNul(b)
    ensures NoNul(Doubled(b))
    decreases |b|
  {
    if b != [] {
      DoubledNoNul(b[1..]);
    }
  }

  /** The quotes that the printer puts around the strings of a list when there is room. */
  ghost function Quotes(list: seq<seq<Rune>>, doquote: Rune -> bool): (r: seq<bool>)
    ensures |r| == |list|
  {
    seq(|list|, i requires 0 <= i < |list| => Wanted(list[i], false, doquote))
  }

  /** The strings of the list are in memory, at the positions ats. */
  ghost predicate Listed(s: Text, ats: seq<nat>, list: seq<seq<Rune>>) {
    |ats| == |list| && forall i :: 0 <= i < |list| ==> StringHere(s, ats[i], list[i])
  }

  /** One string: what is printed has no NUL, and is the string if there is room. */
  method PrintOne(s: array<Byte>, at: nat, f: Fmt, doquote: Rune -> bool, ghost rs: seq<Rune>)
    returns (ghost out: Text)
    requires f.Valid() && f.buf != s && StringHere(s[..], at, rs)
    modifies f, f.buf
    ensures f.Valid() && f.to == old(f.to) + |out| && Wrote(old(f.buf[..]), f.buf[..], old(f.to), out) && NoNul(out)
    ensures var t := Quoted(EncodeAll(rs), Wanted(rs, false, doquote)); old(f.to) + |t| <= f.stop ==> out == t
  {
    hide EncodeAll, Doubled, Needs, InQuotes;
    var ok, q := QuoteStrFmt(s, at, f, false, doquote, rs);
    var k := q.nrunesin;
    out := Quoted(EncodeAll(rs[..k]), q.quoted);
    EncodedNoNul(rs[..k]);
    DoubledNoNul(EncodeAll(rs[..k]));
    assert k == |rs| ==> rs[..k] == rs;
  }

  /** The text of a list, string by string. */
  lemma ListText(list: seq<seq<Rune>>, doquote: Rune -> bool)
    ensures var t := Printed(list, Quotes(list, doquote));
      if list == [] then t == []
      else
        var first := Quoted(EncodeAll(list[0]), Wanted(list[0], false, doquote));
        if |list| == 1 then t == first
        else t == first + ([BLANK] + Printed(list[1..], Quotes(list[1..], doquote)))
  {
    hide EncodeAll, Quoted, Wanted;
    if |list| > 1 {
      assert Quotes(list, doquote)[1..] == Quotes(list[1..], doquote);
    } else if |list| == 1 {
      assert Printed(list, Quotes(list, doquote)) == Quoted(EncodeAll(list[0]), Quotes(list, doquote)[0]) + [];
    }
  }

  /** The strings one after the other with blanks between them, until the room is used up. */
  method PrintList(s: array<Byte>, ats: seq<nat>, f: Fmt, doquote: Rune -> bool, ghost list: seq<seq<Rune>>)
    returns (ghost out: Text)
    requires f.Valid() && f.buf != s && Listed(s[..], ats, list)
    modifies f, f.buf
    ensures f.Valid() && f.to == old(f.to) + |out| && Wrote(old(f.buf[..]), f.buf[..], old(f.to), out) && NoNul(out)
    ensures var t := Printed(list, Quotes(list, doquote)); old(f.to) + |t| <= f.stop ==> out == t
    decreases |ats|, 0
  {
    hide EncodeAll, Quoted, Wanted, Printed, Quotes, StringHere;
    ghost var was, p := f.buf[..], f.to;
    ListText(list, doquote);
    out := [];
    if |ats| > 0 {
      out := PrintOne(s, ats[0], f, doquote, list[0]);
      if |ats| > 1 {
        ghost var one := f.buf[..];
        ghost var more := PrintRest(s, ats[1..], f, doquote, list[1..]);
        WroteMore(was, one, f.buf[..], p, out, more);
        out := out + more;
      }
    }
  }

  /** A blank, and the strings that are left. */
  method PrintRest(s: array<Byte>, ats: seq<nat>, f: Fmt, doquote: Rune -> bool, ghost list: seq<seq<Rune>>)
    returns (ghost out: Text)
    requires f.Valid() && f.buf != s && Listed(s[..], ats, list)
    modifies f, f.buf
    ensures f.Valid() && f.to == old(f.to) + |out| && Wrote(old(f.buf[..]), f.buf[..], old(f.to), out) && NoNul(out)
    ensures var t := [BLANK] + Printed(list, Quotes(list, doquote)); old(f.to) + |t| <= f.stop ==> out == t
    decreases |ats|, 1
  {
    hide EncodeAll, Quoted, Wanted, Printed, Quotes, StringHere;
    ghost var was, p := f.buf[..], f.to;
    out := [];
    var ok := PrintBlank(f);
    if ok {
      ghost var blank := f.buf[..];
      ghost var more := PrintList(s, ats, f, doquote, list);
      WroteMore(was, blank, f.buf[..], p, [BLANK], more);
      out := [BLANK] + more;
    }
  }

  method PrintBlank(f: Fmt) returns (ok: bool)
    requires f.Valid()
    modifies f, f.buf
    ensures f.Valid() && (ok <==> old(f.to) < f.stop)
    ensures ok ==> f.to == old(f.to) + 1 && Wrote(old(f.buf[..]), f.buf[..], old(f.to), [BLANK])
    ensures !ok ==> f.to == old(f.to) && f.buf[..] == old(f.buf[..])
  {
    var t;
    ok, t := f.PutRune(f.to, BLANK);
    if ok {
      f.to, f.nfmt := t, f.nfmt + 1;
    }
  }

  lemma ListTrip(s: Text, ats: seq<nat>, list: seq<seq<Rune>>, doquote: Rune -> bool)
    requires Listed(s, ats, list)
    ensures var toks := Tokens(Printed(list, Quotes(list, doquote)));
      |toks| == |list| && forall i :: 0 <= i < |list| ==> toks[i] == EncodeAll(list[i]) && DecodeAll(toks[i]) == list[i]
  {
    RoundTrip(list, Quotes(list, doquote), doquote);
  }

  /** A list of strings is printed into buf and tokenized again.  When there is room for it the
      arguments are the strings of the list. */
  method PrintAndTokenize(s: array<Byte>, ats: seq<nat>, buf: array<Byte>, doquote: Rune -> bool, args: array<nat>,
                          ghost list: seq<seq<Rune>>)
    returns (nargs: nat)
    requires buf != s && buf.Length > 0 && Listed(s[..], ats, list)
    modifies buf, args
    ensures |Printed(list, Quotes(list, doquote))| < buf.Length && |list| <= args.Length ==>
      nargs == |list|
      && forall i :: 0 <= i < |list| ==>
        StringAt(buf[..], args[i], EncodeAll(list[i])) && DecodeAll(EncodeAll(list[i])) == list[i]
  {
    hide EncodeAll, DecodeAll, Quoted, Wanted, Printed, Tokens, StringHere, StringAt;
    var f := new Fmt(buf, buf.Length - 1);
    ghost var out := PrintList(s, ats, f, doquote, list);
    buf[f.to] := 0;
    assert buf[0..f.to] == out;
    nargs := Tokenize.Tokenize(buf, 0, args, args.Length, f.to);
    ListTrip(s[..], ats, list, doquote);
  }
}
