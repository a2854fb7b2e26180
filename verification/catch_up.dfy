/**
 When the catch-up loop of the scheduler (core/plc/plc_scheduler.c:230-233) ends at all, for every 64-bit clock reading and
 every 32-bit last_run_ms. Past 2^32 ms the 32-bit additions wrap: the loop then visits exactly the words that agree with
 last_run_ms modulo the largest power of two dividing the period.
 */
module CatchUpTermination {
  import opened Release
  import opened Words

  /** The largest power of two dividing `n`; for a 32-bit period this is gcd(n, 2^32). */
  function TwoPart(n: nat): (g: nat)
    requires n > 0
    ensures g > 0
  {
    if n % 2 == 1 then 1 else 2 * TwoPart(n / 2)
  }

  lemma {:induction false} PowAdd(a: nat, b: nat)
    ensures Pow2(a + b) == Pow2(a) * Pow2(b)
  {
    if a > 0 {
      PowAdd(a - 1, b);
      assert Pow2(a) == 2 * Pow2(a - 1) && Pow2(a + b) == 2 * Pow2(a - 1 + b);
      hide Pow2;
      DoubledProduct(Pow2(a - 1), Pow2(b));
    }
  }

  lemma DoubledProduct(x: nat, y: nat)
    ensures 2 * (x * y) == (2 * x) * y
  {
  }

  lemma PowFour()
    ensures Pow2(4) == 16
  {
  }

  lemma PowWord()
    ensures Pow2(32) == U32
  {
    hide Pow2;
    PowFour();
    PowAdd(4, 4);
    PowAdd(8, 8);
    PowAdd(16, 16);
  }

  lemma {:induction false} PowMonotone(a: nat, b: nat)
    requires a <= b
    ensures Pow2(a) <= Pow2(b)
    decreases b
  {
    if a < b {
      PowMonotone(a, b - 1);
    }
  }

  /** A number is its power of two times an odd number. */
  lemma {:induction false} Factor(n: nat) returns (e: nat, m: nat)
    requires n > 0
    ensures TwoPart(n) == Pow2(e) && n == Pow2(e) * m && m % 2 == 1
  {
    if n % 2 == 1 {
      e, m := 0, n;
    } else {
      e, m := Factor(n / 2);
      assert n == 2 * (Pow2(e) * m) == (2 * Pow2(e)) * m;
      e := e + 1;
    }
  }

  // ---------------------------------------------------------------- products

  lemma Shuffle(k: int, g: int, m: int)
    ensures k * (g * m) == g * (k * m)
  {
  }

  lemma Distribute(g: int, a: int, b: int)
    ensures g * (a + b) == g * a + g * b
    ensures g * (a - b) == g * a - g * b
  {
  }

  lemma Euclid(x: nat, g: nat)
    requires g > 0
    ensures x == g * (x / g) + x % g && 0 <= x % g < g && x % g <= x
  {
    assert g * (x / g) >= 0;
  }

  lemma AtLeast(x: nat, m: nat)
    requires m > 0
    ensures x * m >= x
  {
    Distribute(x, 1, m - 1);
    assert x * (m - 1) >= 0;
  }

  lemma Combine(last: int, k: int, g: int, m: int, c: int, q: int, words: int, r: int)
    requires r - last == g * c && k * m == c + q * words
    ensures last + k * (g * m) == q * (g * words) + r
  {
    Shuffle(k, g, m);
    Distribute(g, c, q * words);
    Shuffle(q, g, words);
    assert g * (k * m) == g * (c + q * words);
  }

  lemma Separate(last: int, n: int, g: int, m: int, q: int, words: int)
    ensures last + n * (g * m) - q * (g * words) == last + (n * m - q * words) * g
  {
    Shuffle(n, g, m);
    Shuffle(q, g, words);
    Distribute(g, n * m, q * words);
  }

  lemma Halve(k0: int, m: int, c: int, q0: int, half: int)
    requires k0 * m == c + q0 * half
    ensures q0 % 2 == 0 ==> k0 * m == c + (q0 / 2) * (2 * half)
    ensures (q0 + m) % 2 == 0 ==> (k0 + half) * m == c + ((q0 + m) / 2) * (2 * half)
  {
    if q0 % 2 == 0 {
      var q := q0 / 2;
      Shuffle(q, 2, half);
      assert q0 == 2 * q && q0 * half == 2 * (q * half);
    }
    if (q0 + m) % 2 == 0 {
      var q := (q0 + m) / 2;
      Shuffle(q, 2, half);
      Distribute(half, q0, m);
      Distribute(m, k0, half);
      assert 2 * q == q0 + m && (q0 + m) * half == 2 * (q * half);
    }
  }

  // ---------------------------------------------------------------- residues

  /** The same power of two also divides 2^32. */
  lemma FactorPeriod(period: u32) returns (m: nat, words: nat, e: nat)
    requires period > 0
    ensures period == TwoPart(period) * m && m % 2 == 1
    ensures U32 == TwoPart(period) * words && words == Pow2(e)
    ensures TwoPart(period) <= period
  {
    var a: nat;
    a, m := Factor(period);
    PowWord();
    hide Pow2, TwoPart;
    AtLeast(Pow2(a), m);
    if a > 32 {
      PowMonotone(32, a);
    }
    e := 32 - a;
    words := Pow2(e);
    PowAdd(a, e);
  }

  /** An odd number can be multiplied to any residue modulo a power of two. */
  lemma {:induction false} OddSolves(m: nat, e: nat, c: int) returns (k: nat, q: int)
    requires m % 2 == 1
    ensures k * m == c + q * Pow2(e)
  {
    if e == 0 {
      k, q := 0, -c;
    } else {
      var half := Pow2(e - 1);
      assert Pow2(e) == 2 * half;
      hide Pow2;
      var k0, q0 := OddSolves(m, e - 1, c);
      Halve(k0, m, c, q0, half);
      if q0 % 2 == 0 {
        k, q := k0, q0 / 2;
      } else {
        k, q := k0 + half, (q0 + m) / 2;
      }
    }
  }

  lemma {:induction false} TurnsWrap(last: u32, period: u32, n: nat)
    ensures n * period >= 0 && CatchUpTurns(last, period, n) == Index(last + n * period)
  {
    if n > 0 {
      TurnsWrap(last, period, n - 1);
      Distribute(period, n - 1, 1);
      hide Index, Add32;
      AddIndex(last + (n - 1) * period, period);
    }
  }

  lemma IndexIs(x: nat, q: int, r: u32)
    requires x == q * U32 + r
    ensures Index(x) == r
  {
    ModUnique(x, U32, q, r);
  }

  lemma IndexOf(x: nat) returns (q: int)
    ensures Index(x) == x - q * U32
  {
    q := x / U32;
  }

  /** The loop gets to every word that agrees with last_run_ms modulo the power of two. */
  lemma ReachesResidue(last: u32, period: u32, r: u32) returns (k: nat)
    requires period > 0 && r % TwoPart(period) == last % TwoPart(period)
    ensures CatchUpTurns(last, period, k) == r
  {
    var g := TwoPart(period);
    var m, words, e := FactorPeriod(period);
    var c := r / g - last / g;
    Euclid(r, g);
    Euclid(last, g);
    Distribute(g, r / g, last / g);
    hide TwoPart, Pow2, Index, CatchUpTurns;
    assert r - last == g * c;
    var q: int;
    k, q := OddSolves(m, e, c);
    TurnsWrap(last, period, k);
    Combine(last, k, g, m, c, q, words, r);
    IndexIs(last + k * period, q, r);
  }

  /** and to no other. */
  lemma StaysInResidue(last: u32, period: u32, n: nat)
    requires period > 0
    ensures CatchUpTurns(last, period, n) % TwoPart(period) == last % TwoPart(period)
  {
    var g := TwoPart(period);
    var m, words, e := FactorPeriod(period);
    TurnsWrap(last, period, n);
    var q := IndexOf(last + n * period);
    hide TwoPart, Pow2, Index, CatchUpTurns;
    Separate(last, n, g, m, q, words);
    ModShift(last, g, n * m - q * words);
  }

  /** The guard fails exactly on the words of the last period up to the clock. */
  lemma BehindMeans(v: u32, now: nat, period: u32)
    requires now < 0x1_0000_0000_0000_0000
    ensures !Behind(v, now, period) <==> v <= now < v + period
  {
    if v <= now {
      ModUnique(now - v, 0x1_0000_0000_0000_0000, 0, now - v);
    } else {
      ModUnique(now - v, 0x1_0000_0000_0000_0000, -1, now - v + 0x1_0000_0000_0000_0000);
    }
  }

  lemma {:induction false} FirstStop(last: u32, now: nat, period: u32, k: nat) returns (n: nat)
    requires !Behind(CatchUpTurns(last, period, k), now, period)
    ensures StopsAfter(last, now, period, n)
  {
    if j: nat :| j < k && !Behind(CatchUpTurns(last, period, j), now, period) {
      n := FirstStop(last, now, period, j);
    } else {
      n := k;
    }
  }

  /** Some word of the residue class lies among the `g` words up to `top`. */
  lemma WordBelow(last: nat, g: nat, top: nat) returns (r: nat)
    requires g > 0 && last % g <= top
    ensures top - g < r <= top && r % g == last % g
  {
    var l := last % g;
    Euclid(top - l, g);
    var q := (top - l) / g;
    r := l + q * g;
    Euclid(last, g);
    ModUnique(r, g, q, l);
  }

  lemma TopOfClass(v: nat, g: nat, words: nat)
    requires g > 0 && v < g * words
    ensures v <= g * words - g + v % g
    ensures (g * words - g + v % g) % g == v % g
  {
    Euclid(v, g);
    var a := v / g;
    Distribute(g, words - 1, 1);
    MultipleGap(a - words, g);
    Distribute(g, a, words);
    MultipleGap(words - 1 - a, g);
    Distribute(g, words - 1, a);
    ModUnique(g * words - g + v % g, g, words - 1, v % g);
  }

  /** The top of a residue class among the 32-bit words. */
  lemma TopWord(v: u32, period: u32)
    requires period > 0
    ensures v <= U32 - TwoPart(period) + v % TwoPart(period)
    ensures (U32 - TwoPart(period) + v % TwoPart(period)) % TwoPart(period) == v % TwoPart(period)
    ensures TwoPart(period) <= period && v % TwoPart(period) < TwoPart(period)
  {
    var m, words, e := FactorPeriod(period);
    hide TwoPart, Pow2;
    TopOfClass(v, TwoPart(period), words);
  }

  /**
   The loop ends, after some number of turns, exactly when the clock lies between last_run_ms mod g and
   2^32 + period - g + last_run_ms mod g, where g is the largest power of two dividing the period.
   */
  lemma CatchUpEndsIff(last: u32, now: nat, period: u32)
    requires period > 0 && now < 0x1_0000_0000_0000_0000
    ensures (exists n :: StopsAfter(last, now, period, n))
       <==> last % TwoPart(period) <= now < U32 + period - TwoPart(period) + last % TwoPart(period)
  {
    var g := TwoPart(period);
    if last % g <= now < U32 + period - g + last % g {
      EndsInside(last, now, period);
    }
    if n :| StopsAfter(last, now, period, n) {
      EndsOnlyInside(last, now, period, n);
    }
  }

  lemma EndsInside(last: u32, now: nat, period: u32)
    requires period > 0 && now < 0x1_0000_0000_0000_0000
    requires last % TwoPart(period) <= now < U32 + period - TwoPart(period) + last % TwoPart(period)
    ensures exists n :: StopsAfter(last, now, period, n)
  {
    var g := TwoPart(period);
    TopWord(last, period);
    hide TwoPart, Behind, CatchUpTurns;
    var r: u32 := U32 - g + last % g;
    if now < U32 {
      r := WordBelow(last, g, now);
    }
    BehindMeans(r, now, period);
    var k := ReachesResidue(last, period, r);
    var n := FirstStop(last, now, period, k);
  }

  lemma EndsOnlyInside(last: u32, now: nat, period: u32, n: nat)
    requires period > 0 && now < 0x1_0000_0000_0000_0000 && StopsAfter(last, now, period, n)
    ensures last % TwoPart(period) <= now < U32 + period - TwoPart(period) + last % TwoPart(period)
  {
    var v := CatchUpTurns(last, period, n);
    BehindMeans(v, now, period);
    StaysInResidue(last, period, n);
    hide TwoPart, Behind, CatchUpTurns;
    TopWord(v, period);
    Euclid(v, TwoPart(period));
  }

  /** In particular it always ends below 2^32 ms, once last_run_ms is not ahead of the clock. */
  lemma CatchUpEndsBelowWrap(last: u32, now: u32, period: u32)
    requires period > 0 && last <= now
    ensures exists n :: StopsAfter(last, now, period, n)
  {
    TopWord(last, period);
    Euclid(last, TwoPart(period));
    CatchUpEndsIff(last, now, period);
    hide TwoPart;
  }
}
