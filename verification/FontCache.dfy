/** The cache of characters of a font (libdraw/font.c): five-way probing, eviction of the least
    recently used, growth, and the ages that decide about both. */
module FontCache {
  import opened Bytes

  const NFLOOK := 5
  const MAXFCACHE := 1024 + NFLOOK

  /** A slot of the cache (Cacheinfo).  Age 0 says that it is empty. */
  datatype Slot = Slot(value: Rune, age: nat, width: int)

  const EMPTY := Slot(0, 0, 0)

  /** What looking for a character in the subfonts comes to. */
  datatype Glyph =
    | NoGlyph                                   // the font has none: loadchar returns 0
    | NoSubfont                                 // its subfont must be fetched first: -1
    | Glyph(wid: int, depth: int, width: int)

  /** The sizes a cache can have: a power of two, and the slots to look on. */
  ghost predicate IsSize(n: int) { exists k: nat :: k <= 10 && n == Pow2(k) + NFLOOK }

  /** Where to look for a rune in a cache of n slots. */
  function Hash(r: Rune, n: int): nat
    requires n > NFLOOK
  {
    17 * r % 0x1_0000_0000 % (n - NFLOOK)
  }

  predicate InWindow(r: Rune, n: int, h: int) {
    n > NFLOOK && Hash(r, n) <= h < Hash(r, n) + NFLOOK
  }

  lemma {:induction false} PowersGrow(k: nat)
    requires k <= 10
    ensures 1 <= Pow2(k) <= 1024 && (k < 10 ==> 2 * Pow2(k) == Pow2(k + 1) <= 1024) && (k == 10 ==> Pow2(k) == 1024)
    decreases 10 - k
  {
    if k < 10 { PowersGrow(k + 1); } else { assert Pow2(10) == 1024; }
  }

  lemma SizeFacts(n: int)
    requires IsSize(n)
    ensures NFLOOK < n <= MAXFCACHE
    ensures 2 * (n - NFLOOK) + NFLOOK <= MAXFCACHE ==> IsSize(2 * (n - NFLOOK) + NFLOOK)
    ensures 2 * (n - NFLOOK) + NFLOOK <= MAXFCACHE <==> n < MAXFCACHE
  {
    var k: nat :| k <= 10 && n == Pow2(k) + NFLOOK;
    PowersGrow(k);
    if k < 10 { assert 2 * (n - NFLOOK) + NFLOOK == Pow2(k + 1) + NFLOOK; }
  }

  // ------------------------------------------------------------------- renormalising ages

  /** The age of a slot after renormalisation. */
  function Aged(a: nat): nat { if a == 0 then 0 else a / 4 + 1 }

  /** Renormalisation keeps live slots live, keeps their order weakly, and leaves every one of
      them strictly younger than the new age of the font. */
  lemma AgedKeepsOrder(a: nat, b: nat)
    ensures (Aged(a) == 0 <==> a == 0) && (a <= b ==> Aged(a) <= Aged(b)) && Aged(a) <= a
    ensures a < 65536 ==> Aged(a) < 65536 / 4 + 1
    ensures 0 < a && a + 4 <= b ==> Aged(a) < Aged(b)
    ensures 0 < a ==> 4 * (Aged(a) - 1) <= a < 4 * Aged(a)
  {
  }

  datatype Act = Put | Skip | Stop

  /** A slot that may be given away: empty, not used for 500 ages, or in a cache that can not
      grow; but never one that is in use now. */
  predicate Evictable(was: Slot, age: nat, n: nat) {
    was.age != age && (was.age == 0 || age - was.age >= 500 || n >= MAXFCACHE)
  }

  /** The rune is in one of its slots. */
  ghost predicate Live(cache: seq<Slot>, r: Rune) {
    exists x {:trigger cache[x]} :: 0 <= x < |cache| && InWindow(r, |cache|, x) && cache[x].value == r
      && cache[x].age != 0
  }

  /** A slot that was given to r without its bits is taken for r's exactly if it is not empty. */
  lemma LostIsFound(was: seq<Slot>, now: seq<Slot>, r: Rune, h: int, wiped: bool)
    requires |was| == |now| && 0 <= h < |now| && InWindow(r, |now|, h) && !Live(was, r)
    requires now[h].value == r && now[h].age == if wiped then 0 else was[h].age
    requires forall x :: 0 <= x < |now| && x != h ==> now[x] == if wiped then EMPTY else was[x]
    ensures Live(now, r) <==> !wiped && was[h].age != 0
  {
    forall x | 0 <= x < |now| && InWindow(r, |now|, x) && x != h ensures now[x].value != r || now[x].age == 0 {
      assert was[x].value != r || was[x].age == 0;
    }
  }

  /** All slots of the rune have been used within the last 500 ages, and the cache can grow. */
  ghost predicate Crowded(cache: seq<Slot>, r: Rune, age: nat) {
    && |cache| < MAXFCACHE
    && forall x {:trigger cache[x]} :: 0 <= x < |cache| && InWindow(r, |cache|, x) ==>
      cache[x].age != 0 && age - cache[x].age < 500
  }

  /** All slots of the rune are in use now. */
  ghost predicate InUse(cache: seq<Slot>, r: Rune, age: nat) {
    forall x {:trigger cache[x]} :: 0 <= x < |cache| && InWindow(r, |cache|, x) ==> cache[x].age == age
  }

  /** A cache that was resized, or was to be: empty, with as many slots as before or about
      twice as many. */
  ghost predicate Emptied(cache: seq<Slot>, n: int) {
    (|cache| == n || |cache| == 2 * (n - NFLOOK) + NFLOOK) && forall x :: 0 <= x < |cache| ==> cache[x] == EMPTY
  }

  /** h is the slot of the rune that was used longest ago. */
  ghost predicate IsOldest(cache: seq<Slot>, r: Rune, h: int) {
    && 0 <= h < |cache| && InWindow(r, |cache|, h)
    && forall x {:trigger cache[x]} :: 0 <= x < |cache| && InWindow(r, |cache|, x) ==>
         cache[h].age <= cache[x].age && (x < h ==> cache[h].age < cache[x].age)
  }

  /** What a batch does to a slot: in use, it stays as it is; its character goes only if it may
      be given away; and its age stays or becomes that of the font. */
  predicate Keeps(was: Slot, now: Slot, age: nat, n: nat) {
    && (was.age == age ==> now == was)
    && (now.value != was.value ==> Evictable(was, age, n))
    && (now.age == was.age || now.age == age)
  }

  lemma KeepsOn(a: Slot, b: Slot, c: Slot, age: nat, n: nat)
    requires Keeps(a, b, age, n) && Keeps(b, c, age, n)
    ensures Keeps(a, c, age, n)
  {
  }

  lemma KeepsSame(cache: seq<Slot>, age: nat, n: nat)
    ensures forall x :: 0 <= x < |cache| ==> Keeps(cache[x], cache[x], age, n)
  {
  }

  function Sum(ws: seq<int>): int {
    if ws == [] then 0 else Sum(ws[..|ws| - 1]) + ws[|ws| - 1]
  }

  /** The slots hs hold, at this age, the characters of s at the places src; ws are their
      widths. */
  ghost predicate Holds(cache: seq<Slot>, age: nat, s: seq<Rune>, hs: seq<nat>, src: seq<nat>, ws: seq<int>) {
    && |hs| == |src| == |ws|
    && (forall i :: 0 <= i < |hs| ==>
          && hs[i] < |cache| && src[i] < |s| && cache[hs[i]] == Slot(s[src[i]], age, ws[i])
          && InWindow(s[src[i]], |cache|, hs[i]))
    && (forall i, j :: 0 <= i < j < |hs| ==> src[i] < src[j])
  }

  lemma HoldsStill(cache: seq<Slot>, cache': seq<Slot>, age: nat, s: seq<Rune>,
                   hs: seq<nat>, src: seq<nat>, ws: seq<int>, n: nat)
    requires Holds(cache, age, s, hs, src, ws) && |cache'| == |cache|
    requires forall x :: 0 <= x < |cache| ==> Keeps(cache[x], cache'[x], age, n)
    ensures Holds(cache', age, s, hs, src, ws)
  {
  }

  lemma HoldsFirst(cache: seq<Slot>, age: nat, s: seq<Rune>, h: nat, k: nat)
    requires k < |s| && h < |cache| && cache[h].value == s[k] && cache[h].age == age && InWindow(s[k], |cache|, h)
    ensures Holds(cache, age, s, [] + [h], [] + [k], [] + [cache[h].width])
  {
  }

  lemma SumMore(ws: seq<int>, w: int)
    ensures Sum(ws + [w]) == Sum(ws) + w
  {
    assert (ws + [w])[..|ws|] == ws;
  }

  lemma HoldsNone(cache: seq<Slot>, age: nat, s: seq<Rune>)
    ensures Holds(cache, age, s, [], [], [])
  {
  }

  lemma HoldsSizes(cache: seq<Slot>, age: nat, s: seq<Rune>, hs: seq<nat>, src: seq<nat>, ws: seq<int>)
    requires Holds(cache, age, s, hs, src, ws)
    ensures |hs| == |src| == |ws|
  {
  }

  lemma HoldsMore(cache: seq<Slot>, cache': seq<Slot>, age: nat, s: seq<Rune>, hs: seq<nat>, src: seq<nat>,
                  ws: seq<int>, h: nat, k: nat, n: nat)
    requires Holds(cache, age, s, hs, src, ws) && |cache'| == |cache|
    requires forall x :: 0 <= x < |cache| ==> Keeps(cache[x], cache'[x], age, n)
    requires k < |s| && h < |cache| && cache'[h].value == s[k] && cache'[h].age == age && InWindow(s[k], |cache|, h)
    requires forall i :: 0 <= i < |src| ==> src[i] < k
    ensures Holds(cache', age, s, hs + [h], src + [k], ws + [cache'[h].width])
  {
  }

  /** A search for the character r, from number l0 to number l, has found nothing, or something
      that the device, which has failed since, did not take. */
  ghost predicate Missed(glyph: (nat, Rune) -> Glyph, r: Rune, l0: nat, l: nat, failed: bool) {
    exists k: nat :: l0 <= k < l && (glyph(k, r).NoGlyph? || (glyph(k, r).Glyph? && failed))
  }

  /** The characters of s before `next` are those of src, but for some that could not be loaded. */
  ghost predicate LeftOut(glyph: (nat, Rune) -> Glyph, s: seq<Rune>, next: nat, src: seq<nat>, l0: nat, l: nat,
                          failed: bool)
    requires next <= |s|
  {
    forall k :: 0 <= k < next && k !in src ==> Missed(glyph, s[k], l0, l, failed)
  }

  lemma LeftOutMore(glyph: (nat, Rune) -> Glyph, s: seq<Rune>, next: nat, src: seq<nat>, src': seq<nat>, l0: nat,
                    l: nat, l': nat, failed: bool, failed': bool)
    requires next < |s| && LeftOut(glyph, s, next, src, l0, l, failed) && l0 <= l <= l' && (failed ==> failed')
    requires src' == src + [next] || (src' == src && Missed(glyph, s[next], l, l', failed'))
    ensures LeftOut(glyph, s, next + 1, src', l0, l', failed')
  {
    forall k | 0 <= k < next + 1 && k !in src' ensures Missed(glyph, s[k], l0, l', failed') {
      if k < next { assert k !in src && Missed(glyph, s[k], l0, l, failed); }
    }
  }

  class Font {
    const glyph: (nat, Rune) -> Glyph   // what each search for a character comes to
    var loads: nat
    var faults: nat                     // how often the device has failed
    var cache: array<Slot>
    var age: nat
    var width: int
    var maxdepth: int

    /** A search for the character r has found a glyph of width w. */
    ghost predicate Known(r: Rune, w: int)
      reads this`loads
    {
      exists k: nat :: k < loads && glyph(k, r).Glyph? && glyph(k, r).width == w
    }

    /** Why a batch ends at a character that is not in the cache: its slots are all in use, or
        all used lately and the cache can grow but for the batch, or it can not be loaded now. */
    ghost predicate Halted(r: Rune, first: bool)
      reads this, cache
    {
      && !Live(cache[..], r)
      && (InUse(cache[..], r, age) || (!first && Crowded(cache[..], r, age)) || (loads > 0 &&
            match glyph(loads - 1, r)
            case NoGlyph => false
            case NoSubfont => true
            case Glyph(w, d, _) => !first && TooSmall(w, d)))
    }

    lemma Halts(r: Rune, first: bool)
      requires !Live(cache[..], r) && (InUse(cache[..], r, age) || (!first && Crowded(cache[..], r, age)))
      ensures Halted(r, first)
    {
    }

    /** No slot is older than the font, no age needs more than 16 bits, and the width of a live
        slot is that of a glyph for its character. */
    ghost predicate Valid()
      reads this, cache
    {
      && IsSize(cache.Length) && 1 <= age < 65536
      && forall h :: 0 <= h < cache.Length ==>
        cache[h].age <= age && (cache[h].age != 0 ==> Known(cache[h].value, cache[h].width))
    }

    /** A new font: 64 slots and the slots to look on, all empty. */
    constructor (glyph: (nat, Rune) -> Glyph)
      ensures this.glyph == glyph && Valid() && fresh(cache) && cache.Length == 64 + NFLOOK
      ensures age == 1 && width == 0 && maxdepth == 0
      ensures forall h :: 0 <= h < cache.Length ==> cache[h] == EMPTY
    {
      cache := new Slot[64 + NFLOOK](_ => EMPTY);
      this.glyph, loads, faults, age, width, maxdepth := glyph, 0, 0, 1, 0, 0;
      assert Pow2(6) == 64;
    }

    /** agefont. */
    method AgeFont()
      requires Valid()
      modifies this, cache
      ensures Valid() && cache == old(cache)
      ensures age == if old(age) == 65535 then 65536 / 4 + 1 else old(age) + 1
      ensures forall h :: 0 <= h < cache.Length ==>
        cache[h] == if old(age) == 65535 then old(cache[h]).(age := Aged(old(cache[h]).age)) else old(cache[h])
      ensures forall h :: 0 <= h < cache.Length ==> cache[h].age < age
    {
      age := age + 1;
      if age == 65536 {
        var c := 0;
        while c < cache.Length
          invariant 0 <= c <= cache.Length && cache == old(cache) && age == 65536 && loads == old(loads)
          invariant forall h :: 0 <= h < cache.Length ==>
            cache[h] == if h < c then old(cache[h]).(age := Aged(old(cache[h]).age)) else old(cache[h])
        {
          if cache[c].age != 0 {
            cache[c] := cache[c].(age := cache[c].age / 4 + 1);
          }
          c := c + 1;
        }
        age := 65536 / 4 + 1;
      }
    }

    /** fontresize: whatever the device does, the cache is empty after it.  The result says that
        it worked and the cache is the same. */
    method FontResize(wid: int, ncache: nat, depth: int) returns (ret: int)
      requires Valid() && IsSize(ncache)
      modifies this, cache
      ensures Valid() && age == old(age) && loads == old(loads) && (cache == old(cache) || fresh(cache))
      ensures faults >= old(faults) && (ret == 0 && ncache == old(cache.Length) ==> faults > old(faults))
      ensures cache.Length == old(cache.Length) || cache.Length == ncache
      ensures ret > 0 || ncache == old(cache.Length) ==> cache == old(cache)
      ensures forall h :: 0 <= h < cache.Length ==> cache[h] == EMPTY
      ensures 0 <= ret <= 1 && (ret > 0 ==> width == wid && maxdepth >= depth)
      ensures width == wid || (width == old(width) && ret == 0 && cache == old(cache))
    {
      ret := 0;
      var imageOk: bool, memoryOk: bool := *, *;
      if imageOk {
        width := wid;
        maxdepth := if depth <= 0 then 1 else depth;
        ret := 1;
        if cache.Length != ncache && memoryOk {
          ret := 0;
          cache := new Slot[ncache](_ => EMPTY);
        }
      } else {
        faults := faults + 1;
      }
      forall h | 0 <= h < cache.Length {
        cache[h] := EMPTY;
      }
    }

    /** The slots a rune may be in. */
    method Probe(r: Rune) returns (found: bool, h: nat)
      requires Valid()
      ensures found ==> InWindow(r, cache.Length, h) && h < cache.Length && cache[h].value == r && cache[h].age != 0
      ensures found == Live(cache[..], r)
    {
      SizeFacts(cache.Length);
      var sh := Hash(r, cache.Length);
      h := sh;
      found := false;
      while h < sh + NFLOOK && !found
        invariant sh <= h <= sh + NFLOOK
        invariant forall x :: sh <= x < h ==> cache[x].value != r || cache[x].age == 0
        invariant found ==> h < sh + NFLOOK && cache[h].value == r && cache[h].age != 0
        decreases sh + NFLOOK - h, !found
      {
        if cache[h].value == r && cache[h].age != 0 {
          found := true;
        } else {
          h := h + 1;
        }
      }
    }

    /** The slot of the window that was used longest ago. */
    method Oldest(r: Rune) returns (h: nat)
      requires Valid()
      ensures IsOldest(cache[..], r, h)
    {
      SizeFacts(cache.Length);
      var sh := Hash(r, cache.Length);
      var a := 0xFFFF_FFFF;
      var th := sh;
      h := sh;
      while th < sh + NFLOOK
        invariant sh <= th <= sh + NFLOOK && sh <= h < sh + NFLOOK && (th == sh ==> a == 0xFFFF_FFFF && h == sh)
        invariant th > sh ==> h < th && a == cache[h].age
        invariant forall x :: sh <= x < th ==> a <= cache[x].age && (x < h ==> a < cache[x].age)
      {
        if cache[th].age < a {
          a := cache[th].age;
          h := th;
        }
        th := th + 1;
      }
    }

    /** The images of the cache have no room for a glyph of this width and depth. */
    predicate TooSmall(wid: int, depth: int)
      reads this`width, this`maxdepth
    {
      width < wid || width == 0 || maxdepth < depth
    }

    /** The cache part of loadchar: the slot h is given to r.  A cache that has to be resized is
        wiped, but not while it is in use: `noflush`.  1 is success, 0 failure, -1 retry.  The
        slot is written before the device is asked for the bits; `lost` says that it was, and
        the device did not take them. */
    method LoadChar(r: Rune, h: nat, noflush: bool) returns (ret: int, ghost wiped: bool, ghost lost: bool)
      requires Valid() && h < cache.Length
      modifies this, cache
      ensures Valid() && age == old(age) && cache == old(cache)
      ensures noflush ==> !wiped
      ensures forall x :: 0 <= x < cache.Length && x != h ==> cache[x] == if wiped then EMPTY else old(cache[x])
      ensures cache[h].age == if wiped then 0 else old(cache[h].age)
      ensures ret < 0 ==> !wiped && cache[..] == old(cache[..])
      ensures loads == old(loads) + 1 && (lost ==> ret == 0)
      ensures faults >= old(faults) && (ret == 0 && glyph(old(loads), r).Glyph? ==> faults > old(faults))
      ensures noflush ==> width == old(width) && maxdepth == old(maxdepth)
      ensures match glyph(old(loads), r)
              case NoGlyph => ret == 0 && !wiped && !lost
              case NoSubfont => ret == -1 && !wiped
              case Glyph(w, d, _) =>
                if old(TooSmall(w, d)) && noflush then ret == -1
                else 0 <= ret <= 1 && (wiped <==> old(TooSmall(w, d))) && (ret == 0 ==> wiped || lost)
      ensures ret > 0 || lost ==>
        var g := glyph(old(loads), r);
        g.Glyph? && cache[h].value == r && cache[h].width == g.width && Known(r, g.width)
      ensures ret == 0 && !lost ==> cache[h] == if wiped then EMPTY else old(cache[h])
    {
      var g := glyph(loads, r);
      loads := loads + 1;
      wiped, lost := false, false;
      match g {
        case NoGlyph =>
          ret := 0;
        case NoSubfont =>
          ret := -1;
        case Glyph(wid, depth, w) =>
          ret := 1;
          if width < wid || width == 0 || maxdepth < depth {
            if noflush {
              ret := -1;
            } else {
              width := if width < wid then wid else width;
              maxdepth := if maxdepth < depth then depth else maxdepth;
              ret := FontResize(width, cache.Length, maxdepth);
              wiped := true;
            }
          }
          if ret > 0 {
            cache[h] := Slot(r, cache[h].age, w);
            assert glyph(old(loads), r) == g;
            var deviceOk: bool := *;
            if !deviceOk {
              ret, lost, faults := 0, true, faults + 1;
            }
          }
      }
    }

    /** One character of cachechars: h is its slot, or it is skipped, or the batch ends.  The
        cache is only ever wiped before the first slot of a batch has been handed out.  A lost
        character is found from then on exactly if its slot had been in use before. */
    method CacheOne(r: Rune, first: bool) returns (act: Act, h: nat, ghost wiped: bool, ghost lost: bool)
      requires Valid()
      modifies this, cache
      ensures Valid() && age == old(age) && (wiped ==> first)
      ensures cache == old(cache) || (wiped && act.Stop? && fresh(cache))
      ensures act.Put? ==>
        InWindow(r, cache.Length, h) && h < cache.Length && cache[h].value == r && cache[h].age == age
      ensures !wiped ==> forall x :: 0 <= x < cache.Length ==> Keeps(old(cache[x]), cache[x], age, cache.Length)
      ensures act.Stop? && !wiped ==> cache[..] == old(cache[..]) && Halted(r, first)
      ensures act.Stop? && wiped ==> Blank()
      ensures loads >= old(loads) && faults >= old(faults)
      ensures act.Skip? ==> Missed(glyph, r, old(loads), loads, faults > old(faults))
      ensures act.Skip? && !wiped && !lost ==> cache[..] == old(cache[..])
      ensures lost ==> act.Skip? && cache == old(cache) && h < cache.Length && cache[h].value == r
      ensures lost ==> (Live(cache[..], r) <==> !wiped && old(cache[..])[h].age != 0)
      ensures var was := old(cache[..]);
        if Live(was, r) then act.Put? && !wiped && was[h].value == r && cache[..] == was[h := was[h].(age := age)]
        else if Crowded(was, r, age) then
          act.Stop? && wiped == first && if first then Emptied(cache[..], |was|) else cache[..] == was
        else if InUse(was, r, age) then act.Stop? && !wiped && cache[..] == was
        else IsOldest(was, r, h) && cache == old(cache)
             && Follows(act, wiped, lost, glyph(old(loads), r), first, old(width), old(maxdepth))
             && forall x :: 0 <= x < cache.Length && x != h ==> cache[x] == if wiped then EMPTY else was[x]
    {
      hide Live, IsSize, Known, Halted, Missed;
      SizeFacts(cache.Length);
      wiped, lost := false, false;
      act := Put;
      var found;
      found, h := Probe(r);
      if !found {
        h := Oldest(r);
        var a, n := cache[h].age, cache.Length;
        if a != 0 && age - a < 500 && 2 * (n - NFLOOK) + NFLOOK <= MAXFCACHE {
          if first {
            var _ := FontResize(width, 2 * (n - NFLOOK) + NFLOOK, maxdepth);
            wiped := true;
          } else {
            Halts(r, first);
          }
          act := Stop;
        } else if a == age {
          Halts(r, first);
          act := Stop;
        } else {
          act, wiped, lost := GiveAway(r, h, first);
        }
      }
      if act.Put? {
        cache[h] := cache[h].(age := age);
      }
    }

    /** How a batch goes on after a search that came to g: without a glyph the character is skipped,
        without its subfont or while the cache can not be resized the batch ends, and otherwise
        the character is put into the batch unless the device fails. */
    predicate Follows(act: Act, wiped: bool, lost: bool, g: Glyph, first: bool, width0: int, maxdepth0: int) {
      match g
      case NoGlyph => act.Skip? && !wiped && !lost
      case NoSubfont => act.Stop?
      case Glyph(w, d, _) =>
        var small := width0 < w || width0 == 0 || maxdepth0 < d;
        if small && !first then act.Stop? else (act.Put? || (act.Skip? && (wiped || lost))) && wiped == small
    }

    /** The slot h, the least recently used, is given to r if it can be loaded. */
    method GiveAway(r: Rune, h: nat, first: bool) returns (act: Act, ghost wiped: bool, ghost lost: bool)
      requires Valid() && h < cache.Length && InWindow(r, cache.Length, h) && !Live(cache[..], r)
      modifies this, cache
      ensures Valid() && age == old(age) && cache == old(cache) && (wiped ==> first)
      ensures forall x :: 0 <= x < cache.Length && x != h ==> cache[x] == if wiped then EMPTY else old(cache[x])
      ensures cache[h].age == if wiped then 0 else old(cache[h].age)
      ensures Follows(act, wiped, lost, glyph(old(loads), r), first, old(width), old(maxdepth))
      ensures act.Put? ==> cache[h].value == r && Known(r, cache[h].width)
      ensures act.Stop? ==> !wiped && cache[..] == old(cache[..]) && Halted(r, first)
      ensures loads >= old(loads) && faults >= old(faults)
      ensures act.Skip? ==> Missed(glyph, r, old(loads), loads, faults > old(faults))
      ensures act.Skip? && !wiped && !lost ==> cache[..] == old(cache[..])
      ensures lost ==> act.Skip? && cache[h].value == r
      ensures lost ==> (Live(cache[..], r) <==> !wiped && old(cache[..])[h].age != 0)
    {
      hide IsSize, Live;
      var ld;
      ld, wiped, lost := LoadChar(r, h, !first);
      if lost { LostIsFound(old(cache[..]), cache[..], r, h, wiped); }
      act := if ld > 0 then Put else if ld == 0 then Skip else Stop;
    }

    /** Every slot is empty. */
    ghost predicate Blank()
      reads this`cache, cache
    {
      forall x :: 0 <= x < cache.Length ==> cache[x] == EMPTY
    }

    /** The state of a batch: n slots in cp, for the characters src of s. */
    ghost predicate Batch(s: seq<Rune>, cp: array<nat>, n: nat, wid: int, next: nat, src: seq<nat>, ws: seq<int>)
      reads this, cache, cp
    {
      && n <= cp.Length && next <= |s| && (forall i :: 0 <= i < |src| ==> src[i] < next)
      && Holds(cache[..], age, s, cp[..n], src, ws) && wid == Sum(ws)
    }

    /** The body of the loop of cachechars. */
    method NextChar(s: seq<Rune>, cp: array<nat>, n0: nat, wid0: int, next: nat, ghost src0: seq<nat>,
                    ghost ws0: seq<int>)
      returns (act: Act, n: nat, wid: int, ghost src: seq<nat>, ghost ws: seq<int>, ghost wiped: bool)
      requires Valid() && Batch(s, cp, n0, wid0, next, src0, ws0) && next < |s| && n0 < cp.Length
      modifies this, cache, cp
      ensures Valid() && age == old(age) && (cache == old(cache) || (wiped && act.Stop? && fresh(cache)))
      ensures n == (if act.Put? then n0 + 1 else n0)
        && Batch(s, cp, n, wid, if act.Stop? then next else next + 1, src, ws)
      ensures act.Stop? ==> n == n0 && if wiped then n == 0 && Blank() else Halted(s[next], n == 0)
      ensures loads >= old(loads) && faults >= old(faults)
      ensures act.Skip? ==> Missed(glyph, s[next], old(loads), loads, faults > old(faults))
      ensures act.Put? ==> src == src0 + [next]
      ensures !act.Put? ==> src == src0
      ensures !wiped ==> forall x :: 0 <= x < cache.Length ==> Keeps(old(cache[x]), cache[x], age, cache.Length)
    {
      hide Valid, Live, Crowded, InUse, Emptied, IsOldest, Follows, Keeps, Missed, Halted, Blank, Holds;
      ghost var before, hs := cache[..], cp[..n0];
      var h;
      ghost var lost;
      act, h, wiped, lost := CacheOne(s[next], n0 == 0);
      n, wid, src, ws := n0, wid0, src0, ws0;
      assert cp[..n0] == hs;
      HoldsSizes(before, age, s, hs, src0, ws0);
      if act.Put? {
        wid := wid + cache[h].width;
        cp[n] := h;
        n := n + 1;
        src, ws := src + [next], ws + [cache[h].width];
        assert cp[..n] == hs + [h];
        SumMore(ws0, cache[h].width);
        if wiped {
          HoldsFirst(cache[..], age, s, h, next);
        } else {
          HoldsMore(before, cache[..], age, s, hs, src0, ws0, h, next, cache.Length);
        }
      } else if !wiped {
        HoldsStill(before, cache[..], age, s, hs, src0, ws0, cache.Length);
      } else {
        HoldsNone(cache[..], age, s);
        assert hs == [] && src0 == [] && ws0 == [];
      }
    }

    /** cachechars: the slots of the next characters of the string s, at most max of them.  Each
        still holds its character when the batch is complete, and wid is their total width.
        `src` says which characters of s they are, `next` where to go on; a character before that
        was left out only because it could not be loaded.  A batch ends early only at a character
        that is not in the cache and can not be brought into it now, or when the cache is wiped. */
    method CacheChars(s: seq<Rune>, cp: array<nat>, max: nat)
      returns (n: nat, wid: int, next: nat, ghost src: seq<nat>, ghost ws: seq<int>, ghost wiped: bool)
      requires Valid() && max <= cp.Length
      modifies this, cache, cp
      ensures Valid() && age == old(age) && n <= max && Batch(s, cp, n, wid, next, src, ws)
      ensures cache == old(cache) || (wiped && fresh(cache))
      ensures !wiped ==> forall x :: 0 <= x < cache.Length ==> Keeps(old(cache[x]), cache[x], age, cache.Length)
      ensures forall i :: 0 <= i < n ==> |src| == |ws| == n && src[i] < |s| && Known(s[src[i]], ws[i])
      ensures LeftOut(glyph, s, next, src, old(loads), loads, faults > old(faults))
      ensures n < max && next < |s| ==> Halted(s[next], n == 0) || (n == 0 && wiped && Blank())
    {
      hide Live, IsSize, Halted, Keeps;
      n, wid, next, src, ws, wiped := 0, 0, 0, [], [], false;
      ghost var was := cache[..];
      KeepsSame(was, age, cache.Length);
      var act := Skip;
      while !act.Stop? && next < |s| && n < max
        invariant Valid() && age == old(age) && n <= max && Batch(s, cp, n, wid, next, src, ws)
        invariant cache == old(cache) || (wiped && act.Stop? && fresh(cache))
        invariant act.Stop? ==> next < |s| && (Halted(s[next], n == 0) || (n == 0 && wiped && Blank()))
        invariant loads >= old(loads) && faults >= old(faults)
        invariant LeftOut(glyph, s, next, src, old(loads), loads, faults > old(faults))
        invariant !wiped ==> forall x :: 0 <= x < cache.Length ==> Keeps(was[x], cache[x], age, cache.Length)
        decreases !act.Stop?, |s| - next
      {
        ghost var before, src0, l, f := cache[..], src, loads, faults;
        ghost var w;
        act, n, wid, src, ws, w := NextChar(s, cp, n, wid, next, src, ws);
        wiped := wiped || w;
        if !wiped {
          forall x | 0 <= x < cache.Length ensures Keeps(was[x], cache[x], age, cache.Length) {
            KeepsOn(was[x], before[x], cache[x], age, cache.Length);
          }
        }
        if !act.Stop? {
          LeftOutMore(glyph, s, next, src0, src, old(loads), l, loads, f > old(faults), faults > old(faults));
          next := next + 1;
        }
      }
    }
  }
}
