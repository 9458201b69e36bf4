/** The tokenizer of lib9/tokenize.c: it cuts a string into arguments at blanks, takes quotes
    off, and does both in place. */
module Tokenize {
  import opened Bytes

  /** `qsep`: space, tab, carriage return and newline. */
  predicate IsSep(b: Byte) { b == 32 || b == 9 || b == 13 || b == 10 }

  // -------------------------------------------------------------------- what tokens mean

  predicate AtEnd(r: Text, quoting: bool) { r == [] || (!quoting && IsSep(r[0])) }

  /** The token at the beginning of r, and what is left after it.  Inside quotes blanks count
      and a doubled quote stands for one. */
  function Token(r: Text, quoting: bool): (p: (Text, Text))
    ensures |p.1| <= |r| && (!AtEnd(r, quoting) ==> |p.1| < |r|)
    decreases |r|
  {
    if AtEnd(r, quoting) then ([], r)
    else if r[0] != QUOTE then
      var (tok, rest) := Token(r[1..], quoting);
      ([r[0]] + tok, rest)
    else if !quoting then Token(r[1..], true)
    else if |r| == 1 || r[1] != QUOTE then Token(r[1..], false)
    else
      var (tok, rest) := Token(r[2..], true);
      ([QUOTE] + tok, rest)
  }

  function Skip(r: Text): (t: Text)
    ensures |t| <= |r| && (t != [] ==> !IsSep(t[0]))
  {
    if r != [] && IsSep(r[0]) then Skip(r[1..]) else r
  }

  function Tokens(r: Text): seq<Text>
    decreases |r|
  {
    var t := Skip(r);
    if t == [] then [] else [Token(t, false).0] + Tokens(Token(t, false).1)
  }

  lemma {:induction false} TokenShrinks(r: Text, quoting: bool)
    ensures var (tok, rest) := Token(r, quoting);
      |tok| + |rest| <= |r| && rest == r[|r| - |rest|..] && (rest == [] || IsSep(rest[0]))
      && (NoNul(r) ==> NoNul(tok))
    decreases |r|
  {
    if r == [] || (!quoting && IsSep(r[0])) {
    } else if r[0] != QUOTE {
      TokenShrinks(r[1..], quoting);
    } else if !quoting {
      TokenShrinks(r[1..], true);
    } else if |r| == 1 || r[1] != QUOTE {
      TokenShrinks(r[1..], false);
    } else {
      TokenShrinks(r[2..], true);
    }
  }

  lemma TokensFrom(r: Text, r': Text)
    requires Skip(r) == Skip(r')
    ensures Tokens(r) == Tokens(r')
  {
  }

  // ------------------------------------------------------------------------ the code itself

  /** buf[n] is the NUL of the text that begins at s. */
  ghost predicate EndsAt(buf: Text, s: int, n: nat) {
    0 <= s <= n < |buf| && buf[n] == 0 && forall x :: s <= x < n ==> buf[x] != 0
  }

  /** The C string tok is at position s. */
  ghost predicate StringAt(buf: Text, s: int, tok: Text) {
    0 <= s && s + |tok| < |buf| && buf[s..s + |tok|] == tok && NoNul(tok) && buf[s + |tok|] == 0
  }

  /** One turn of qtoken's loop: what it writes, how far it reads, and whether it is inside
      quotes after it. */
  function Turn(r: Text, quoting: bool): (Text, nat, bool)
    requires !AtEnd(r, quoting)
  {
    if r[0] != QUOTE then ([r[0]], 1, quoting)
    else if !quoting then ([], 1, true)
    else if |r| == 1 || r[1] != QUOTE then ([], 1, false)
    else ([QUOTE], 2, true)
  }

  lemma TurnIs(r: Text, quoting: bool)
    requires !AtEnd(r, quoting)
    ensures var (w, n, q) := Turn(r, quoting);
      n <= |r| && |w| <= 1 && (n == 1 || |w| == 1) && 1 <= n && NoNul(w) == (w == [] || w[0] != 0)
      && Token(r, quoting) == (w + Token(r[n..], q).0, Token(r[n..], q).1)
  {
    if r[0] == QUOTE && !(quoting && |r| > 1 && r[1] == QUOTE) {
      var q := !quoting;
      assert [] + Token(r[1..], q).0 == Token(r[1..], q).0;
    }
  }

  /** The state of qtoken: the token so far is at s0..s, reading is at t, and from s on the
      text is still as it was. */
  ghost predicate Reading(was: Text, buf: Text, n: nat, s0: int, s: int, t: int, quoting: bool) {
    && |buf| == |was| && 0 <= s0 <= s <= t <= n < |was| && EndsAt(was, s0, n)
    && (forall x :: 0 <= x < |was| && (x < s0 || s <= x) ==> buf[x] == was[x])
    && var (tok, rest) := Token(was[t..n], quoting);
       Token(was[s0..n], false) == (buf[s0..s] + tok, rest)
  }

  /** What lies before s is as it was. */
  ghost predicate Kept(buf: Text, buf': Text, s: int) {
    |buf'| == |buf| && forall x :: 0 <= x < s && x < |buf| ==> buf'[x] == buf[x]
  }

  lemma ReadOn(was: Text, buf: Text, buf': Text, n: nat, s0: nat, s: nat, t: nat, quoting: bool)
    requires Reading(was, buf, n, s0, s, t, quoting) && !AtEnd(was[t..n], quoting)
    requires Wrote(buf, buf', s, Turn(was[t..n], quoting).0)
    ensures var (w, k, q) := Turn(was[t..n], quoting);
      Reading(was, buf', n, s0, s + |w|, t + k, q)
  {
    var r := was[t..n];
    var (w, k, q) := Turn(r, quoting);
    TurnIs(r, quoting);
    assert r[k..] == was[t + k..n];
    var tok := Token(was[t + k..n], q).0;
    assert buf'[s0..s + |w|] == buf[s0..s] + w;
    Regroup(buf[s0..s], w, tok);
  }

  /** The body of qtoken's loop. */
  method QTurn(buf: array<Byte>, s: nat, t: nat, quoting: bool, ghost n: nat) returns (s': nat, t': nat, quoting': bool)
    requires s <= t < n && EndsAt(buf[..], t, n) && !AtEnd(buf[..][t..n], quoting)
    modifies buf
    ensures var (w, k, q) := Turn(old(buf[..])[t..n], quoting);
      Wrote(old(buf[..]), buf[..], s, w) && s' == s + |w| && t' == t + k && quoting' == q
  {
    s', t', quoting' := s, t, quoting;
    if buf[t] != QUOTE {
      buf[s] := buf[t];
      s', t' := s + 1, t + 1;
    } else if !quoting {
      quoting' := true;
      t' := t + 1;
    } else if buf[t + 1] != QUOTE {
      t' := t + 1;
      quoting' := false;
    } else {
      t' := t + 1;
      buf[s] := buf[t'];
      s', t' := s + 1, t' + 1;
    }
  }

  lemma StartReading(was: Text, n: nat, s0: nat)
    requires EndsAt(was, s0, n)
    ensures Reading(was, was, n, s0, s0, s0, false)
  {
    var tok := Token(was[s0..n], false).0;
    assert was[s0..s0] + tok == tok;
  }

  /** What is left to do when the loop has come to the end of the token. */
  lemma DoneReading(was: Text, buf: Text, n: nat, s0: nat, s: nat, t: nat, quoting: bool)
    requires Reading(was, buf, n, s0, s, t, quoting) && (t == n || (!quoting && IsSep(buf[t])))
    ensures Token(was[s0..n], false) == (buf[s0..s], was[t..n]) && NoNul(buf[s0..s])
  {
    assert buf[s0..s] + [] == buf[s0..s];
    TokenShrinks(was[s0..n], false);
  }

  lemma SkipOne(buf: Text, t: nat, n: nat)
    requires t < n <= |buf| && IsSep(buf[t])
    ensures Skip(buf[t..n]) == Skip(buf[t + 1..n])
  {
    assert buf[t..n][1..] == buf[t + 1..n];
  }

  /** The end of qtoken. */
  method QEnd(buf: array<Byte>, s: nat, t0: nat, ghost s0: nat, ghost n: nat) returns (t: nat)
    requires s0 <= s <= t0 <= n && s0 < t0 && EndsAt(buf[..], t0, n) && NoNul(buf[s0..s])
    requires (t0 < n ==> IsSep(buf[t0])) && (s < t0 ==> buf[s] != 0)
    modifies buf
    ensures StringAt(buf[..], s0, old(buf[s0..s])) && s0 < t <= n && EndsAt(buf[..], t, n)
    ensures Skip(buf[..][t..n]) == Skip(old(buf[t0..n])) && (s < t || t == n == s)
    ensures Kept(old(buf[..]), buf[..], s0)
  {
    t := t0;
    if t0 < n { SkipOne(buf[..], t0, n); }
    ghost var tok, rest, more := buf[s0..s], buf[t0..n], if t0 < n then buf[t0 + 1..n] else [];
    if buf[s] != 0 {
      buf[s] := 0;
      if t == s {
        t := t + 1;
      }
    }
    assert buf[..][s0..s] == tok;
    assert buf[..][t..n] == if t == t0 then rest else more;
  }

  lemma StillThere(was: Text, buf: Text, n: nat, s0: nat, s: nat, t: nat, quoting: bool)
    requires Reading(was, buf, n, s0, s, t, quoting)
    ensures EndsAt(buf, t, n) && buf[t..n] == was[t..n]
  {
  }

  method QStep(buf: array<Byte>, s: nat, t: nat, quoting: bool, ghost s0: nat, ghost n: nat, ghost was: Text)
    returns (s': nat, t': nat, quoting': bool)
    requires Reading(was, buf[..], n, s0, s, t, quoting) && t < n && (quoting || !IsSep(buf[t]))
    modifies buf
    ensures Reading(was, buf[..], n, s0, s', t', quoting') && t < t'
  {
    ghost var before := buf[..];
    StillThere(was, before, n, s0, s, t, quoting);
    s', t', quoting' := QTurn(buf, s, t, quoting, n);
    ReadOn(was, before, buf[..], n, s0, s, t, quoting);
  }

  /** The loop of qtoken. */
  method QLoop(buf: array<Byte>, s0: nat, ghost n: nat) returns (s: nat, t: nat)
    requires s0 < n && EndsAt(buf[..], s0, n) && !IsSep(buf[s0])
    modifies buf
    ensures s0 <= s <= t <= n && s0 < t && EndsAt(buf[..], s, n) && (t < n ==> IsSep(buf[t]))
    ensures Token(old(buf[s0..n]), false) == (buf[s0..s], buf[t..n]) && NoNul(buf[s0..s])
    ensures Kept(old(buf[..]), buf[..], s0)
  {
    ghost var was := buf[..];
    var quoting := false;
    s, t := s0, s0;
    StartReading(was, n, s0);
    while buf[t] != 0 && (quoting || !IsSep(buf[t]))
      invariant Reading(was, buf[..], n, s0, s, t, quoting) && (t == s0 ==> !quoting)
      decreases n - t
    {
      s, t, quoting := QStep(buf, s, t, quoting, s0, n, was);
    }
    DoneReading(was, buf[..], n, s0, s, t, quoting);
    assert buf[t..n] == was[t..n];
  }

  /** qtoken: the token at s, with its quotes taken off, ends with a NUL; the result is where
      to go on. */
  method QToken(buf: array<Byte>, s0: nat, ghost n: nat) returns (t: nat)
    requires s0 < n && EndsAt(buf[..], s0, n) && !IsSep(buf[s0])
    modifies buf
    ensures var (tok, rest) := Token(old(buf[s0..n]), false);
      && StringAt(buf[..], s0, tok) && s0 < t <= n && EndsAt(buf[..], t, n) && Skip(buf[t..n]) == Skip(rest)
      && (s0 + |tok| < t || t == n == s0 + |tok|)
    ensures Kept(old(buf[..]), buf[..], s0)
  {
    var s;
    s, t := QLoop(buf, s0, n);
    t := QEnd(buf, s, t, s0, n);
  }

  /** The tokens found so far are where args says, before s. */
  ghost predicate Found(buf: Text, args: seq<nat>, toks: seq<Text>, s: nat, n: nat) {
    && |args| == |toks|
    && forall i {:trigger args[i]} :: 0 <= i < |args| ==>
         StringAt(buf, args[i], toks[i]) && (args[i] + |toks[i]| < s || args[i] + |toks[i]| == s == n)
  }

  lemma FoundMore(buf: Text, buf': Text, args: seq<nat>, toks: seq<Text>, s: nat, n: nat, tok: Text, t: nat)
    requires Found(buf, args, toks, s, n) && s < n && Kept(buf, buf', s) && s < t <= n
    requires StringAt(buf', s, tok) && (s + |tok| < t || t == n == s + |tok|)
    ensures Found(buf', args + [s], toks + [tok], t, n)
  {
    forall i | 0 <= i < |args| ensures StringAt(buf', args[i], toks[i]) {
      var a, b := args[i], args[i] + |toks[i]|;
      assert buf'[a..b] == buf[a..b];
    }
  }

  lemma TokensStep(r: Text, rest: Text)
    requires r != [] && !IsSep(r[0]) && Skip(rest) == Skip(Token(r, false).1)
    ensures Tokens(r) == [Token(r, false).0] + Tokens(rest)
  {
    TokensFrom(Token(r, false).1, rest);
  }

  lemma OneMore(all: seq<Text>, toks: seq<Text>, left: seq<Text>, tok: Text, more: seq<Text>)
    requires all == toks + left && left == [tok] + more
    ensures all == toks + [tok] + more
  {
  }

  /** Steps over the blanks before a token. */
  method SkipBlanks(buf: array<Byte>, s0: nat, ghost n: nat) returns (s: nat)
    requires EndsAt(buf[..], s0, n)
    ensures s0 <= s <= n && buf[s..n] == Skip(buf[s0..n]) && (s < n ==> !IsSep(buf[s]))
  {
    s := s0;
    while buf[s] != 0 && IsSep(buf[s])
      invariant s0 <= s <= n && Skip(buf[s..n]) == Skip(buf[s0..n])
      decreases n - s
    {
      SkipOne(buf[..], s, n);
      assert buf[..][s..n] == buf[s..n] && buf[..][s + 1..n] == buf[s + 1..n];
      s := s + 1;
    }
  }

  /** What tokenize keeps: the tokens of r are those found and those to be found from s on. */
  ghost predicate Cutting(r: Text, buf: Text, args: seq<nat>, toks: seq<Text>, s: nat, n: nat) {
    EndsAt(buf, s, n) && Found(buf, args, toks, s, n) && Tokens(r) == toks + Tokens(buf[s..n])
  }

  /** The blanks before a token. */
  method SkipCut(buf: array<Byte>, s0: nat, ghost args: seq<nat>, ghost r: Text, ghost toks: seq<Text>, ghost n: nat)
    returns (s: nat)
    requires Cutting(r, buf[..], args, toks, s0, n)
    ensures Cutting(r, buf[..], args, toks, s, n) && s <= n && Skip(buf[s..n]) == buf[s..n]
      && (s < n ==> !IsSep(buf[s]))
  {
    s := SkipBlanks(buf, s0, n);
    SkipTwice(buf[s0..n]);
    assert buf[..][s0..n] == buf[s0..n] && buf[..][s..n] == buf[s..n];
    TokensFrom(buf[s0..n], buf[s..n]);
  }

  lemma CutMore(r: Text, buf: Text, buf': Text, args: seq<nat>, toks: seq<Text>, s: nat, n: nat, tok: Text, t: nat)
    requires Cutting(r, buf, args, toks, s, n) && s < n && !IsSep(buf[s])
    requires Kept(buf, buf', s) && s < t <= n && StringAt(buf', s, tok) && (s + |tok| < t || t == n == s + |tok|)
    requires EndsAt(buf', t, n) && Token(buf[s..n], false).0 == tok
      && Skip(buf'[t..n]) == Skip(Token(buf[s..n], false).1)
    ensures Cutting(r, buf', args + [s], toks + [tok], t, n)
  {
    FoundMore(buf, buf', args, toks, s, n, tok, t);
    TokensStep(buf[s..n], buf'[t..n]);
    OneMore(Tokens(r), toks, Tokens(buf[s..n]), tok, Tokens(buf'[t..n]));
  }

  /** One turn of the loop of tokenize after the blanks: one token. */
  method Cut(buf: array<Byte>, s: nat, args: array<nat>, nargs: nat, ghost r: Text, ghost toks: seq<Text>, ghost n: nat)
    returns (t: nat, ghost toks': seq<Text>)
    requires nargs == |toks| < args.Length
    requires Cutting(r, buf[..], args[..nargs], toks, s, n) && s < n && !IsSep(buf[s])
    modifies buf, args
    ensures |toks'| == nargs + 1 && Cutting(r, buf[..], args[..nargs + 1], toks', t, n)
  {
    ghost var was, found := buf[..], args[..nargs];
    ghost var tok := Token(was[s..n], false).0;
    args[nargs] := s;
    assert args[..nargs + 1] == found + [s];
    assert was[s..n] == buf[s..n];
    t := QToken(buf, s, n);
    assert buf[..][t..n] == buf[t..n];
    toks' := toks + [tok];
    CutMore(r, was, buf[..], found, toks, s, n, tok, t);
  }

  /** Nothing is left to be cut. */
  lemma AllCut(r: Text, buf: Text, args: seq<nat>, toks: seq<Text>, s: nat, n: nat)
    requires Cutting(r, buf, args, toks, s, n)
    ensures |toks| <= |Tokens(r)| && (Skip(buf[s..n]) == [] ==> |toks| == |Tokens(r)|)
    ensures forall i :: 0 <= i < |args| ==> StringAt(buf, args[i], Tokens(r)[i])
  {
    forall i | 0 <= i < |args| ensures Tokens(r)[i] == toks[i] {}
  }

  /** tokenize: args[0..nargs] are the positions of the first maxargs tokens of the text at s0,
      as C strings; all of them if there are no more. */
  method Tokenize(buf: array<Byte>, s0: nat, args: array<nat>, maxargs: int, ghost n: nat) returns (nargs: nat)
    requires maxargs <= args.Length && EndsAt(buf[..], s0, n)
    modifies buf, args
    ensures var toks := Tokens(old(buf[s0..n]));
      && nargs == (if maxargs < 0 then 0 else if |toks| <= maxargs then |toks| else maxargs)
      && forall i :: 0 <= i < nargs ==> StringAt(buf[..], args[i], toks[i])
  {
    nargs := 0;
    var s := s0;
    ghost var r, toks: seq<Text> := buf[s0..n], [];
    while nargs < maxargs
      invariant nargs <= (if maxargs < 0 then 0 else maxargs) && nargs <= args.Length && |toks| == nargs
      invariant Cutting(r, buf[..], args[..nargs], toks, s, n)
    {
      s := SkipCut(buf, s, args[..nargs], r, toks, n);
      if buf[s] == 0 {
        break;
      }
      s, toks := Cut(buf, s, args, nargs, r, toks, n);
      nargs := nargs + 1;
    }
    AllCut(r, buf[..], args[..nargs], toks, s, n);
    forall i | 0 <= i < nargs ensures StringAt(buf[..], args[i], Tokens(r)[i]) {
      assert args[..nargs][i] == args[i];
    }
  }

  lemma SkipTwice(r: Text)
    ensures Skip(Skip(r)) == Skip(r)
  {
  }
}
