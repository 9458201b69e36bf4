/** UTF-8 (lib9/rune.c).  The reference is RFC 3629: section 3 says how a character is encoded,
    the grammar of section 4 which bytes are the encoding of one. */
module Utf8 {
  import opened Bytes

  const UTFMAX := 4
  const RUNEMAX: Rune := 0x10FFFF
  const RUNEERROR: Rune := 0xFFFD
  const SURROGATE_MIN := 0xD800
  const SURROGATE_MAX := 0xDFFF
  const TX := 0x80
  const RUNE1 := 0x7F

  // ------------------------------------------------------------------ encoding (section 3)

  predicate Scalar(r: int) { 0 <= r <= RUNEMAX && !(SURROGATE_MIN <= r <= SURROGATE_MAX) }

  function EncLen(r: Rune): nat {
    if r < 0x80 then 1 else if r < 0x800 then 2 else if r < 0x10000 then 3 else 4
  }

  function Enc(r: Rune): (s: seq<Byte>)
    requires Scalar(r)
    ensures |s| == EncLen(r)
  {
    if r < 0x80 then [r]
    else if r < 0x800 then [0xC0 + r / 64, 0x80 + r % 64]
    else if r < 0x10000 then [0xE0 + r / 4096, 0x80 + r / 64 % 64, 0x80 + r % 64]
    else [0xF0 + r / 262144, 0x80 + r / 4096 % 64, 0x80 + r / 64 % 64, 0x80 + r % 64]
  }

  /** What is written for a rune that is no character: the error rune. */
  function Norm(r: Rune): (c: Rune)
    ensures Scalar(c) && (c != r <==> !Scalar(r)) && (c != r ==> c == 0xFFFD)
  {
    if Scalar(r) then r else RUNEERROR
  }

  // ------------------------------------------------------------------ decoding (section 4)

  predicate Tail(b: Byte) { 0x80 <= b <= 0xBF }

  predicate Tails(s: seq<Byte>, n: nat) {
    n <= |s| && forall i :: 1 <= i < n ==> Tail(s[i])
  }

  /** The length of the UTF8-char at the beginning of s, 0 if there is none. */
  function CharLen(s: seq<Byte>): (n: nat)
    ensures n <= |s| && n <= 4
  {
    if s == [] then 0
    else if s[0] <= 0x7F then 1
    else if 0xC2 <= s[0] <= 0xDF && Tails(s, 2) then 2
    else if 0xE0 <= s[0] <= 0xEF && Tails(s, 3)
         && (s[0] == 0xE0 ==> s[1] >= 0xA0) && (s[0] == 0xED ==> s[1] <= 0x9F) then 3
    else if 0xF0 <= s[0] <= 0xF4 && Tails(s, 4)
         && (s[0] == 0xF0 ==> s[1] >= 0x90) && (s[0] == 0xF4 ==> s[1] <= 0x8F) then 4
    else 0
  }

  function Value(s: seq<Byte>): (r: Rune)
    requires CharLen(s) > 0
  {
    match CharLen(s)
    case 1 => s[0]
    case 2 => Join(s[0] as int - 0xC0, s[1] as int - 0x80)
    case 3 => Join(Join(s[0] as int - 0xE0, s[1] as int - 0x80), s[2] as int - 0x80)
    case _ => Join(Join(Join(s[0] as int - 0xF0, s[1] as int - 0x80), s[2] as int - 0x80), s[3] as int - 0x80)
  }

  function Join(a: int, b: int): int { a * 64 + b }

  /** The rune at the beginning of s and how many bytes it takes; bytes that are no character
      are the error rune, one at a time. */
  function Dec(s: seq<Byte>): (Rune, nat) {
    if CharLen(s) > 0 then (Value(s), CharLen(s)) else (RUNEERROR, 1)
  }

  /** What decodes is an encoding ... */
  lemma DecIsEnc(s: seq<Byte>)
    requires CharLen(s) > 0
    ensures Scalar(Value(s)) && Enc(Value(s)) == s[..CharLen(s)]
  {
    match CharLen(s) {
      case 1 =>
      case 2 =>
      case 3 => DecIsEnc3(s);
      case _ => DecIsEnc4(s);
    }
  }

  lemma DecIsEnc3(s: seq<Byte>)
    requires CharLen(s) == 3
    ensures Scalar(Value(s)) && Enc(Value(s)) == s[..3]
  {
    Digits(s[0] - 0xE0, s[1] - 0x80, s[2] - 0x80);
  }

  lemma DecIsEnc4(s: seq<Byte>)
    requires CharLen(s) == 4
    ensures Scalar(Value(s)) && Enc(Value(s)) == s[..4]
  {
    Digits4(s[0] - 0xF0, s[1] - 0x80, s[2] - 0x80, s[3] - 0x80);
  }

  lemma Digits(a: int, b: int, c: int)
    requires 0 <= a && 0 <= b < 64 && 0 <= c < 64
    ensures var r := Join(Join(a, b), c); r / 4096 == a && r / 64 % 64 == b && r % 64 == c
  {
  }

  lemma Digits4(a: int, b: int, c: int, d: int)
    requires 0 <= a && 0 <= b < 64 && 0 <= c < 64 && 0 <= d < 64
    ensures var r := Join(Join(Join(a, b), c), d);
      r / 262144 == a && r / 4096 % 64 == b && r / 64 % 64 == c && r % 64 == d
  {
    Digits(Join(a, b), c, d);
  }

  /** ... and an encoding decodes, whatever follows it. */
  lemma EncThenDec(r: Rune, t: seq<Byte>)
    requires Scalar(r)
    ensures CharLen(Enc(r) + t) == EncLen(r) && Dec(Enc(r) + t) == (r, EncLen(r))
  {
    var e := Enc(r);
    var s := e + t;
    assert forall i :: 0 <= i < |e| ==> s[i] == e[i];
    EncIsChar(r, s);
    Rejoin(r);
  }

  lemma EncIsChar(r: Rune, s: seq<Byte>)
    requires Scalar(r) && EncLen(r) <= |s| && forall i :: 0 <= i < EncLen(r) ==> s[i] == Enc(r)[i]
    ensures CharLen(s) == EncLen(r)
  {
    var n := EncLen(r);
    assert s[0] == Enc(r)[0];
    if n > 1 { assert s[1] == Enc(r)[1]; }
    if n > 2 { assert s[2] == Enc(r)[2]; }
    if n > 3 { assert s[3] == Enc(r)[3]; }
  }

  lemma Rejoin(r: Rune)
    ensures Join(r / 64, r % 64) == r && Join(Join(r / 4096, r / 64 % 64), r % 64) == r
    ensures Join(Join(Join(r / 262144, r / 4096 % 64), r / 64 % 64), r % 64) == r
  {
    var a := r / 64;
    var b := a / 64;
    assert b == r / 4096;
    assert b / 64 == r / 262144;
    assert Join(b, a % 64) == a && Join(b / 64, b % 64) == b;
  }

  // ------------------------------------------------------------------------ whole texts

  /** Repeated runetochar. */
  function EncodeAll(rs: seq<Rune>): seq<Byte> {
    if rs == [] then [] else Enc(Norm(rs[0])) + EncodeAll(rs[1..])
  }

  /** Repeated chartorune. */
  function DecodeAll(s: seq<Byte>): seq<Rune>
    decreases |s|
  {
    if s == [] then [] else [Dec(s).0] + DecodeAll(s[Dec(s).1..])
  }

  /** No byte of s is decoded as an error. */
  predicate Valid(s: seq<Byte>)
    decreases |s|
  {
    s == [] || (CharLen(s) > 0 && Valid(s[CharLen(s)..]))
  }

  /** Characters survive encoding and decoding; every other rune comes back as the error rune. */
  lemma {:induction false} RoundTrip(rs: seq<Rune>)
    ensures Valid(EncodeAll(rs)) && |DecodeAll(EncodeAll(rs))| == |rs|
    ensures forall i :: 0 <= i < |rs| ==> DecodeAll(EncodeAll(rs))[i] == Norm(rs[i])
    ensures DecodeAll(EncodeAll(rs)) == rs <==> forall i :: 0 <= i < |rs| ==> Scalar(rs[i])
    decreases |rs|
  {
    if rs != [] {
      var e, rest := Enc(Norm(rs[0])), EncodeAll(rs[1..]);
      EncThenDec(Norm(rs[0]), rest);
      assert (e + rest)[|e|..] == rest;
      RoundTrip(rs[1..]);
      var d := DecodeAll(e + rest);
      assert d == [Norm(rs[0])] + DecodeAll(rest);
      forall i | 0 <= i < |rs| ensures d[i] == Norm(rs[i]) {
        if i > 0 { assert d[i] == DecodeAll(rest)[i - 1] && rs[i] == rs[1..][i - 1]; }
      }
    }
  }

  /** Bytes that decode without an error are exactly the bytes their runes encode to. */
  lemma {:induction false} Reencode(s: seq<Byte>)
    ensures Valid(s) <==> EncodeAll(DecodeAll(s)) == s
    decreases |s|
  {
    if s != [] {
      Reencode(s[Dec(s).1..]);
      if CharLen(s) > 0 { ReencodeChar(s); } else { ReencodeBad(s); }
    }
  }

  lemma DecodeAllFirst(s: seq<Byte>)
    requires s != []
    ensures EncodeAll(DecodeAll(s)) == Enc(Norm(Dec(s).0)) + EncodeAll(DecodeAll(s[Dec(s).1..]))
  {
    var rest := DecodeAll(s[Dec(s).1..]);
    assert ([Dec(s).0] + rest)[1..] == rest;
  }

  lemma ReencodeChar(s: seq<Byte>)
    requires CharLen(s) > 0
    ensures var rest := s[CharLen(s)..];
      EncodeAll(DecodeAll(s)) == s <==> EncodeAll(DecodeAll(rest)) == rest
  {
    var a, n := Enc(Norm(Dec(s).0)), Dec(s).1;
    DecodeAllFirst(s);
    CharFront(s);
    SameFront(a, EncodeAll(DecodeAll(s[n..])), s[n..]);
  }

  lemma CharFront(s: seq<Byte>)
    requires CharLen(s) > 0
    ensures s == Enc(Norm(Dec(s).0)) + s[CharLen(s)..]
  {
    DecIsEnc(s);
    assert s == s[..CharLen(s)] + s[CharLen(s)..];
  }

  lemma SameFront(a: seq<Byte>, x: seq<Byte>, y: seq<Byte>)
    ensures a + x == a + y <==> x == y
  {
    assert (a + x)[|a|..] == x && (a + y)[|a|..] == y;
  }

  lemma ReencodeBad(s: seq<Byte>)
    requires s != [] && CharLen(s) == 0
    ensures EncodeAll(DecodeAll(s)) != s
  {
    DecodeAllFirst(s);
    NoCharNoError(s);
    assert EncodeAll(DecodeAll(s))[..3] == Enc(RUNEERROR);
  }

  lemma NoCharNoError(s: seq<Byte>)
    requires CharLen(s) == 0
    ensures |s| >= 3 ==> s[..3] != Enc(RUNEERROR)
  {
    if |s| >= 3 && s[..3] == Enc(RUNEERROR) {
      assert s == Enc(RUNEERROR) + s[3..];
      EncThenDec(RUNEERROR, s[3..]);
    }
  }

  // ------------------------------------------------------------------------ the code itself

  /** `T(i)`: i ones, then zeros, in a byte. */
  function T(i: nat): int
    requires 1 <= i <= 5
  {
    0x100 - Pow2(8 - i)
  }

  /** `RuneX(i)`: the largest rune that i bytes have room for. */
  function RuneX(i: nat): int
    requires 2 <= i <= 4
  {
    Pow2(5 * i + 1) - 1
  }

  lemma Powers()
    ensures T(1) == 0x80 && T(2) == 0xC0 && T(3) == 0xE0 && T(4) == 0xF0 && T(5) == 0xF8
    ensures RuneX(2) == 0x7FF && RuneX(3) == 0xFFFF && RuneX(4) == 0x1FFFFF
  {
  }

  /** How many bytes the first byte announces, as fullrune sees it. */
  function Announced(b: Byte): nat {
    if b < 0x80 then 1 else if b < 0xE0 then 2 else if b < 0xF0 then 3 else 4
  }

  /** fullrune: all the bytes the first one announces are there. */
  method FullRune(str: seq<Byte>, n: int) returns (full: bool)
    requires n <= |str|
    ensures full <==> n > 0 && n >= Announced(str[0])
  {
    Powers();
    if n <= 0 {
      return false;
    }
    var c := str[0];
    if c < TX {
      return true;
    }
    for i := 3 to UTFMAX + 1
      invariant i == 4 ==> c >= 0xE0
      invariant i == 5 ==> c >= 0xF0
    {
      if c < T(i) {
        return n >= i - 1;
      }
    }
    return n >= UTFMAX;
  }

  /** The bytes chartorune looks at are there: it stops at the first byte that does not
      continue the character, so a NUL in the string is enough. */
  predicate Enough(s: seq<Byte>) {
    s != [] && (|s| >= Announced(s[0]) || exists i :: 1 <= i < |s| && !Tail(s[i]))
  }

  /** Those bytes decide: nothing that follows them changes what is decoded.  So after
      fullrune(s, n) chartorune does not depend on more than n bytes. */
  lemma EnoughDecides(s: seq<Byte>, t: seq<Byte>)
    requires Enough(s)
    ensures Dec(s + t) == Dec(s) && Enough(s + t)
  {
    var u := s + t;
    assert forall i :: 0 <= i < |s| ==> u[i] == s[i];
    if |s| < Announced(s[0]) {
      var i :| 1 <= i < |s| && !Tail(s[i]);
      assert !Tail(u[i]);
    }
  }

  /** A byte with its uppermost bit inverted: below 0x40 exactly if it continues a character. */
  function Flip80(b: Byte): Byte { if b >= 0x80 then b - 0x80 else b + 0x80 }

  /** The bits gathered after i bytes, with those of the first byte still in front. */
  function Gathered(s: seq<Byte>, i: nat): int
    requires 1 <= i <= |s|
  {
    if i == 1 then s[0] else Join(Gathered(s, i - 1), s[i - 1] as int - 0x80)
  }

  /** The first byte announces i + 1 bytes: it is below T(i + 2). */
  predicate Announces(b: Byte, i: nat) {
    (i == 1 && 0x80 <= b < 0xE0) || (i == 2 && 0xE0 <= b < 0xF0) || (i == 3 && 0xF0 <= b < 0xF8)
  }

  /** The tests of chartorune accept exactly the characters of i + 1 bytes. */
  lemma Tests(s: seq<Byte>, i: nat, l: int)
    requires 1 <= i <= 3 && Tails(s, i + 1) && Announces(s[0], i)
    requires l == Gathered(s, i + 1) % (RuneX(i + 1) + 1)
    ensures CharLen(s) == 0 || CharLen(s) == i + 1
    ensures CharLen(s) > 0 <==>
      && (if i == 1 then s[0] >= T(2) && l > RUNE1 else RuneX(i) < l <= RUNEMAX)
      && !(i == 2 && SURROGATE_MIN <= l <= SURROGATE_MAX)
    ensures CharLen(s) > 0 ==> Value(s) == l
  {
    Powers();
    if i == 1 { Tests2(s, l); } else if i == 2 { Tests3(s, l); } else { Tests4(s, l); }
  }

  lemma Tests2(s: seq<Byte>, l: int)
    requires Tails(s, 2) && Announces(s[0], 1) && l == Gathered(s, 2) % 0x800
    ensures s[0] >= 0xC0 ==> l == Join(s[0] as int - 0xC0, s[1] as int - 0x80)
  {
  }

  lemma Tests3(s: seq<Byte>, l: int)
    requires Tails(s, 3) && Announces(s[0], 2) && l == Gathered(s, 3) % 0x10000
    ensures l == Join(Join(s[0] as int - 0xE0, s[1] as int - 0x80), s[2] as int - 0x80)
  {
    assert Gathered(s, 1) == s[0];
    assert Gathered(s, 3) == Join(Join(s[0], s[1] as int - 0x80), s[2] as int - 0x80);
  }

  lemma Tests4(s: seq<Byte>, l: int)
    requires Tails(s, 4) && Announces(s[0], 3) && l == Gathered(s, 4) % 0x200000
    ensures l == Join(Join(Join(s[0] as int - 0xF0, s[1] as int - 0x80), s[2] as int - 0x80), s[3] as int - 0x80)
  {
    assert Gathered(s, 1) == s[0] && Gathered(s, 2) == Join(s[0], s[1] as int - 0x80);
    assert Gathered(s, 4) == Join(Join(Join(s[0], s[1] as int - 0x80), s[2] as int - 0x80), s[3] as int - 0x80);
  }

  /** chartorune. */
  method CharToRune(str: array<Byte>, at: nat) returns (rune: Rune, n: nat)
    requires at < str.Length && Enough(str[at..])
    ensures (rune, n) == Dec(str[at..])
  {
    Powers();
    ghost var s := str[at..];
    var c0 := str[at];
    if c0 < TX {
      return c0, 1;
    }
    var l: int := c0;
    rune, n := RUNEERROR, 1;
    var i := 1;
    while i < UTFMAX
      invariant 1 <= i <= 4 && Tails(s, i) && rune == RUNEERROR && n == 1
      invariant c0 >= if i == 1 then 0x80 else if i == 2 then 0xE0 else if i == 3 then 0xF0 else 0xF8
      invariant l == Gathered(s, i)
      decreases 4 - i
    {
      assert s[0] == c0 && i < |s|;
      var c := Flip80(str[at + i]);
      if c >= 0x40 {
        assert !Tail(s[i]);
        break;
      }
      l := l * 64 + c;
      if c0 < T(i + 2) {
        l := l % (RuneX(i + 1) + 1);
        Tests(s, i, l);
        if i == 1 {
          if c0 < T(2) || l <= RUNE1 {
            break;
          }
        } else if l <= RuneX(i) || l > RUNEMAX {
          break;
        }
        if i == 2 && SURROGATE_MIN <= l <= SURROGATE_MAX {
          break;
        }
        rune, n := l, i + 1;
        break;
      }
      i := i + 1;
    }
  }

  // ---------------------------------------------------------------- runetochar and runenlen

  function Pow64(n: nat): (p: nat)
    ensures p > 0
  {
    if n == 0 then 1 else 64 * Pow64(n - 1)
  }

  /** What runetochar writes at place j of the i bytes of c: `|` joins bits that do not
      overlap. */
  lemma Bits(c: Rune, i: nat, j: nat)
    requires Scalar(c) && i == EncLen(c) && 2 <= i && j < i
    ensures Enc(c)[j] == if j == 0 then T(i) + c / Pow64(i - 1) else TX + c / Pow64(i - j - 1) % 64
    ensures j == 0 ==> c / Pow64(i - 1) < Pow2(7 - i)
  {
    Powers();
    assert Pow64(1) == 64 && Pow64(2) == 4096 && Pow64(3) == 262144;
  }

  /** The inner loop of runetochar. */
  method PutTails(str: array<Byte>, at: nat, c: Rune, i: nat)
    requires Scalar(c) && i == EncLen(c) && 2 <= i && at + i <= str.Length
    requires str[at] == Enc(c)[0]
    modifies str
    ensures str[at..at + i] == Enc(c) && str[..at] == old(str[..at]) && str[at + i..] == old(str[at + i..])
  {
    for j := 1 to i
      invariant forall x :: 0 <= x < j ==> str[at + x] == Enc(c)[x]
      invariant str[..at] == old(str[..at]) && str[at + i..] == old(str[at + i..])
    {
      Bits(c, i, j);
      str[at + j] := TX + c / Pow64(i - j - 1) % 64;
    }
  }

  /** runetochar. */
  method RuneToChar(str: array<Byte>, at: nat, rune: Rune) returns (n: nat)
    requires at + EncLen(Norm(rune)) <= str.Length
    modifies str
    ensures n == EncLen(Norm(rune)) && str[at..at + n] == Enc(Norm(rune))
    ensures str[..at] == old(str[..at]) && str[at + n..] == old(str[at + n..])
  {
    Powers();
    var c := rune;
    n := 1;
    if c <= RUNE1 {
      str[at] := c;
    } else {
      var i := 2;
      while i < UTFMAX + 1
        invariant 2 <= i <= 4 && c == (if i <= 3 then rune else Norm(rune))
        invariant i >= 3 ==> rune > RuneX(2)
        invariant i >= 4 ==> c > RuneX(3)
        invariant c > RUNE1
      {
        if i == 3 {
          if c > RUNEMAX {
            c := RUNEERROR;
          }
          if SURROGATE_MIN <= c <= SURROGATE_MAX {
            c := RUNEERROR;
          }
        }
        if c <= RuneX(i) || i == UTFMAX {
          break;
        }
        i := i + 1;
      }
      Bits(c, i, 0);
      str[at] := T(i) + c / Pow64(i - 1);
      PutTails(str, at, c, i);
      n := i;
    }
  }

  /** How many runes of rs are above the largest there is. */
  function TooLarge(rs: seq<Rune>): nat {
    if rs == [] then 0 else (if rs[0] > RUNEMAX then 1 else 0) + TooLarge(rs[1..])
  }

  function Length(rs: seq<Rune>): nat { |EncodeAll(rs)| + TooLarge(rs) }

  lemma {:induction false} LengthOneMore(rs: seq<Rune>, r: Rune)
    ensures Length(rs + [r]) == Length(rs) + (if r > RUNEMAX then 4 else EncLen(Norm(r)))
    decreases |rs|
  {
    var t := rs + [r];
    if rs == [] {
      assert t[1..] == [] && EncodeAll(t) == Enc(Norm(r)) + EncodeAll([]);
    } else {
      assert t[0] == rs[0] && t[1..] == rs[1..] + [r];
      LengthOneMore(rs[1..], r);
      assert EncodeAll(t) == Enc(Norm(rs[0])) + EncodeAll(rs[1..] + [r]);
    }
  }

  /** The body of runenlen's loop: how many bytes it counts for one rune. */
  method CountRune(c: Rune) returns (nb: nat)
    ensures nb == if c > RUNEMAX then 4 else EncLen(Norm(c))
  {
    Powers();
    nb := 1;
    if c > RUNE1 {
      var i := 2;
      while i < UTFMAX + 1
        invariant 2 <= i <= 4 && c > RUNE1 && (i >= 3 ==> c > RuneX(i - 1))
      {
        if c <= RuneX(i) || i == UTFMAX {
          nb := i;
          break;
        }
        i := i + 1;
      }
    }
  }

  /** runenlen: the length of the encoding, but one byte too many for every rune above the
      largest there is, which runetochar writes as the error rune. */
  method RuneNLen(rs: seq<Rune>) returns (nb: nat)
    ensures nb == |EncodeAll(rs)| + TooLarge(rs)
    ensures nb == |EncodeAll(rs)| <==> forall i :: 0 <= i < |rs| ==> rs[i] <= RUNEMAX
  {
    nb := 0;
    for k := 0 to |rs|
      invariant nb == Length(rs[..k])
    {
      var w := CountRune(rs[k]);
      assert rs[..k + 1] == rs[..k] + [rs[k]];
      LengthOneMore(rs[..k], rs[k]);
      nb := nb + w;
    }
    assert rs[..|rs|] == rs;
    NoneTooLarge(rs);
  }

  lemma {:induction false} NoneTooLarge(rs: seq<Rune>)
    ensures TooLarge(rs) == 0 <==> forall i :: 0 <= i < |rs| ==> rs[i] <= RUNEMAX
    decreases |rs|
  {
    if rs != [] {
      NoneTooLarge(rs[1..]);
      assert forall i :: 1 <= i < |rs| ==> rs[i] == rs[1..][i - 1];
    }
  }
}
