/**
 Where the date picker's search for an enabled date ends.  Dates are day numbers; `off` is the set
 of disabled days, which holds every day outside the limits `lo` and `hi`; `month` gives the month
 number of a day.
 */
module DateSearch {
  ghost predicate Limited(off: iset<int>, lo: int, hi: int) {
    lo <= hi && forall p :: p < lo || hi < p ==> p in off
  }

  /** `r` is the first enabled day from `a` on. */
  ghost predicate FirstFrom(off: iset<int>, a: int, r: int) {
    a <= r && r !in off && forall q :: a <= q < r ==> q in off
  }

  /** `r` is the last enabled day up to `b`. */
  ghost predicate LastTo(off: iset<int>, b: int, r: int) {
    r <= b && r !in off && forall q :: r < q <= b ==> q in off
  }

  ghost predicate NoneBetween(off: iset<int>, a: int, b: int) {
    forall q :: a <= q <= b ==> q in off
  }

  /**
   The end of a day-by-day search from the disabled day `s`: at a limit it turns round at once, and
   inside the limits it turns round at the limit ahead when no day up to there is enabled.
   */
  ghost predicate Walk(off: iset<int>, lo: int, hi: int, s: int, forward: bool, r: int) {
    if s <= lo then FirstFrom(off, lo, r)
    else if s >= hi then LastTo(off, hi, r)
    else if forward then
      if NoneBetween(off, s, hi) then LastTo(off, hi, r) else FirstFrom(off, s, r)
    else
      if NoneBetween(off, lo, s) then FirstFrom(off, lo, r) else LastTo(off, s, r)
  }

  function Ahead(lo: int, hi: int, k: int, p: int): nat {
    if k > 0 then (if hi >= p then hi + 1 - p else 0) else if p >= lo then p + 1 - lo else 0
  }

  /**
   The end of a search by strides of `k` days that started at `s` and has reached `p`.  Leaving the
   month of `s` gives up the strides for a day-by-day search from `s`; a limit turns the search round.
   */
  ghost predicate Lands(off: iset<int>, lo: int, hi: int, month: int -> int, s: int, k: int, p: int, r: int)
    requires k != 0
    decreases Ahead(lo, hi, k, p)
  {
    if p !in off then r == p
    else if month(p) != month(s) then Walk(off, lo, hi, s, k > 0, r)
    else if p <= lo then FirstFrom(off, lo, r)
    else if p >= hi then LastTo(off, hi, r)
    else Lands(off, lo, hi, month, s, k, p + k, r)
  }

  /** The day that a search from `s` by `k` days settles on. */
  ghost predicate Settles(off: iset<int>, lo: int, hi: int, month: int -> int, s: int, k: int, r: int)
    requires k != 0
  {
    if s !in off then r == s
    else if k == 1 || k == -1 then Walk(off, lo, hi, s, k > 0, r)
    else Lands(off, lo, hi, month, s, k, s, r)
  }

  lemma {:induction false} FirstFromExists(off: iset<int>, a: int, b: int) returns (r: int)
    requires a <= b && b !in off
    ensures FirstFrom(off, a, r)
    decreases b - a
  {
    if a !in off {
      r := a;
    } else {
      r := FirstFromExists(off, a + 1, b);
    }
  }

  lemma {:induction false} LastToExists(off: iset<int>, a: int, b: int) returns (r: int)
    requires a <= b && a !in off
    ensures LastTo(off, b, r)
    decreases b - a
  {
    if b !in off {
      r := b;
    } else {
      r := LastToExists(off, a, b - 1);
    }
  }

  lemma WalkSettles(off: iset<int>, lo: int, hi: int, s: int, forward: bool, e: int) returns (r: int)
    requires Limited(off, lo, hi) && s in off && e !in off
    ensures Walk(off, lo, hi, s, forward, r)
    ensures forall q :: Walk(off, lo, hi, s, forward, q) ==> q == r
  {
    if s <= lo || (s < hi && !forward && NoneBetween(off, lo, s)) {
      r := FirstFromExists(off, lo, e);
    } else if s >= hi || (forward && NoneBetween(off, s, hi)) {
      r := LastToExists(off, e, hi);
    } else if forward {
      var q :| s <= q <= hi && q !in off;
      r := FirstFromExists(off, s, q);
    } else {
      var q :| lo <= q <= s && q !in off;
      r := LastToExists(off, q, s);
    }
  }

  lemma {:induction false} LandingSettles(off: iset<int>, lo: int, hi: int, month: int -> int, s: int, k: int,
    p: int, e: int)
      returns (r: int)
    requires k != 0 && Limited(off, lo, hi) && s in off && e !in off
    ensures Lands(off, lo, hi, month, s, k, p, r)
    ensures forall q :: Lands(off, lo, hi, month, s, k, p, q) ==> q == r
    decreases Ahead(lo, hi, k, p)
  {
    if p !in off {
      r := p;
    } else if month(p) != month(s) {
      r := WalkSettles(off, lo, hi, s, k > 0, e);
    } else if p <= lo {
      r := FirstFromExists(off, lo, e);
    } else if p >= hi {
      r := LastToExists(off, e, hi);
    } else {
      r := LandingSettles(off, lo, hi, month, s, k, p + k, e);
    }
  }

  /**
   Whenever some day is enabled, a search settles on exactly one day, and that day is enabled and within the limits.
   */
  lemma SearchSettlesOnOneEnabledDay(off: iset<int>, lo: int, hi: int, month: int -> int, s: int, k: int, e: int)
      returns (r: int)
    requires k != 0 && Limited(off, lo, hi) && e !in off
    ensures Settles(off, lo, hi, month, s, k, r) && r !in off && lo <= r <= hi
    ensures forall q :: Settles(off, lo, hi, month, s, k, q) ==> q == r
  {
    if s !in off {
      r := s;
    } else if k == 1 || k == -1 {
      r := WalkSettles(off, lo, hi, s, k > 0, e);
    } else {
      r := LandingSettles(off, lo, hi, month, s, k, s, e);
      LandsOnEnabled(off, lo, hi, month, s, k, s, r);
    }
  }

  lemma {:induction false} LandsOnEnabled(off: iset<int>, lo: int, hi: int, month: int -> int, s: int, k: int,
    p: int, r: int)
    requires k != 0 && Lands(off, lo, hi, month, s, k, p, r)
    ensures r !in off
    decreases Ahead(lo, hi, k, p)
  {
    if p in off && month(p) == month(s) && lo < p < hi {
      LandsOnEnabled(off, lo, hi, month, s, k, p + k, r);
    }
  }

  /**
   A search by single days settles on the nearest enabled day ahead.  At a limit, or when there is none ahead up to the
   limit, it settles on the one nearest to that limit.
   */
  lemma UnitSearchExactly(off: iset<int>, lo: int, hi: int, month: int -> int, s: int, k: int, r: int)
    requires k == 1 || k == -1
    ensures Settles(off, lo, hi, month, s, k, r) <==>
      if s !in off then r == s
      else if s <= lo || (s < hi && k == -1 && forall q :: lo <= q <= s ==> q in off) then
        r !in off && lo <= r && forall q :: lo <= q < r ==> q in off
      else if s >= hi || (k == 1 && forall q :: s <= q <= hi ==> q in off) then
        r !in off && r <= hi && forall q :: r < q <= hi ==> q in off
      else if k == 1 then r !in off && s <= r && forall q :: s <= q < r ==> q in off
      else r !in off && r <= s && forall q :: r < q <= s ==> q in off
  {
  }

  /** The first `n` strides from `s` land on disabled days inside the limits, in the month of `s`. */
  ghost predicate Strides(off: iset<int>, lo: int, hi: int, month: int -> int, s: int, k: int, n: nat) {
    forall i :: 0 <= i < n ==> s + i * k in off && lo < s + i * k < hi && month(s + i * k) == month(s)
  }

  lemma {:induction false} LandsFrom(off: iset<int>, lo: int, hi: int, month: int -> int, s: int, k: int, n: nat,
    i: nat, r: int)
    requires k != 0 && i <= n && Strides(off, lo, hi, month, s, k, n)
    ensures Lands(off, lo, hi, month, s, k, s + i * k, r) <==> Lands(off, lo, hi, month, s, k, s + n * k, r)
    decreases n - i
  {
    if i < n {
      assert s + i * k in off && lo < s + i * k < hi && month(s + i * k) == month(s);
      assert s + i * k + k == s + (i + 1) * k;
      LandsFrom(off, lo, hi, month, s, k, n, i + 1, r);
    }
  }

  /**
   A search by strides goes on while they land on disabled days inside the limits and in the month of its start.  The
   next one ends it when it lands on an enabled day, makes it a search by single days from the start when it lands in
   another month, and turns it to the days nearest to a limit when it lands there.
   */
  lemma StridesExactly(off: iset<int>, lo: int, hi: int, month: int -> int, s: int, k: int, n: nat, r: int)
    requires k < -1 || k > 1
    requires Strides(off, lo, hi, month, s, k, n) && s in off
    requires var p := s + n * k; p !in off || month(p) != month(s) || p <= lo || p >= hi
    ensures var p := s + n * k;
      Settles(off, lo, hi, month, s, k, r) <==>
        if p !in off then r == p
        else if month(p) != month(s) then Settles(off, lo, hi, month, s, if k > 0 then 1 else -1, r)
        else if p <= lo then r !in off && lo <= r && forall q :: lo <= q < r ==> q in off
        else r !in off && r <= hi && forall q :: r < q <= hi ==> q in off
  {
    LandsFrom(off, lo, hi, month, s, k, n, 0, r);
    assert s + 0 * k == s;
  }

  // The search as a loop: what holds of the day `p` it has reached, its step and the limits it has met

  ghost predicate Searching(off: iset<int>, lo: int, hi: int, month: int -> int, s: int, k: int,
    p: int, step: int, metLo: bool, metHi: bool)
  {
    && k != 0 && step != 0 && !(metLo && metHi)
    && if metLo then
         step == 1 && lo <= p && NoneBetween(off, lo, p - 1)
         && forall r :: FirstFrom(off, lo, r) ==> Settles(off, lo, hi, month, s, k, r)
       else if metHi then
         step == -1 && p <= hi && NoneBetween(off, p + 1, hi)
         && forall r :: LastTo(off, hi, r) ==> Settles(off, lo, hi, month, s, k, r)
       else
         && (step > 0) == (k > 0)
         && (p == s || (lo < s < hi && s in off))
         && if step == 1 || step == -1 then
              && (if step > 0 then s <= p && NoneBetween(off, s + 1, p - 1)
                  else p <= s && NoneBetween(off, p + 1, s - 1))
              && (s in off ==> forall r :: Walk(off, lo, hi, s, k > 0, r) ==> Settles(off, lo, hi, month, s, k, r))
            else
              step == k && forall r :: Lands(off, lo, hi, month, s, k, p, r) ==> Lands(off, lo, hi, month, s, k, s, r)
  }

  lemma SettledAlready(off: iset<int>, lo: int, hi: int, month: int -> int, s: int, k: int)
    requires k != 0
    ensures s !in off ==> Settles(off, lo, hi, month, s, k, s)
  {
  }

  lemma SearchStarts(off: iset<int>, lo: int, hi: int, month: int -> int, s: int, k: int)
    requires k != 0
    ensures Searching(off, lo, hi, month, s, k, s, k, false, false)
  {
  }

  /** Strides that leave the month of the start are given up for single steps from the start. */
  lemma SearchGivesUpStrides(off: iset<int>, lo: int, hi: int, month: int -> int, s: int, k: int,
    p: int, step: int, metLo: bool, metHi: bool)
    requires Searching(off, lo, hi, month, s, k, p, step, metLo, metHi)
    requires p in off && (step > 1 || step < -1) && month(p) != month(s)
    ensures lo < s < hi && s in off && !metLo && !metHi
    ensures Searching(off, lo, hi, month, s, k, s, if step > 0 then 1 else -1, metLo, metHi)
  {
    assert forall r :: Walk(off, lo, hi, s, k > 0, r) ==> Lands(off, lo, hi, month, s, k, p, r);
  }

  lemma SearchMeetsLo(off: iset<int>, lo: int, hi: int, month: int -> int, s: int, k: int,
    p: int, step: int, metLo: bool, metHi: bool)
    requires Searching(off, lo, hi, month, s, k, p, step, metLo, metHi)
    requires lo <= hi && p in off && p <= lo && (step == 1 || step == -1 || month(p) == month(s))
    ensures metHi ==> NoneBetween(off, lo, hi)
    ensures !metHi ==> Searching(off, lo, hi, month, s, k, if p == lo then lo + 1 else lo, 1, true, false)
    ensures metLo ==> p == lo && Ahead(lo, hi, 1, lo + 1) < Ahead(lo, hi, step, p) && step == 1
  {
    if !metLo && !metHi {
      if step == 1 || step == -1 {
        assert forall r :: FirstFrom(off, lo, r) ==> Walk(off, lo, hi, s, k > 0, r);
        assert p == s ==> s in off;
      } else {
        assert forall r :: FirstFrom(off, lo, r) ==> Lands(off, lo, hi, month, s, k, p, r);
        assert s in off;
      }
    }
  }

  lemma SearchMeetsHi(off: iset<int>, lo: int, hi: int, month: int -> int, s: int, k: int,
    p: int, step: int, metLo: bool, metHi: bool)
    requires Searching(off, lo, hi, month, s, k, p, step, metLo, metHi)
    requires lo <= hi && p in off && p > lo && p >= hi && (step == 1 || step == -1 || month(p) == month(s))
    ensures metLo ==> NoneBetween(off, lo, hi)
    ensures !metLo ==> Searching(off, lo, hi, month, s, k, if p == hi then hi - 1 else hi, -1, false, true)
    ensures metHi ==> p == hi && Ahead(lo, hi, -1, hi - 1) < Ahead(lo, hi, step, p) && step == -1
  {
    if !metLo && !metHi {
      if step == 1 || step == -1 {
        assert forall r :: LastTo(off, hi, r) ==> Walk(off, lo, hi, s, k > 0, r);
        assert p == s ==> s in off;
      } else {
        assert forall r :: LastTo(off, hi, r) ==> Lands(off, lo, hi, month, s, k, p, r);
        assert s in off;
      }
    }
  }

  lemma SearchMoves(off: iset<int>, lo: int, hi: int, month: int -> int, s: int, k: int,
    p: int, step: int, metLo: bool, metHi: bool)
    requires Searching(off, lo, hi, month, s, k, p, step, metLo, metHi)
    requires p in off && lo < p < hi && (step == 1 || step == -1 || month(p) == month(s))
    ensures Searching(off, lo, hi, month, s, k, p + step, step, metLo, metHi)
    ensures Ahead(lo, hi, step, p + step) < Ahead(lo, hi, step, p)
  {
    if !metLo && !metHi && step != 1 && step != -1 {
      assert forall r :: Lands(off, lo, hi, month, s, k, p + k, r) ==> Lands(off, lo, hi, month, s, k, p, r);
    }
  }

  lemma SearchEnds(off: iset<int>, lo: int, hi: int, month: int -> int, s: int, k: int,
    p: int, step: int, metLo: bool, metHi: bool)
    requires Limited(off, lo, hi)
    requires Searching(off, lo, hi, month, s, k, p, step, metLo, metHi) && p !in off
    ensures Settles(off, lo, hi, month, s, k, p)
  {
    if metLo {
      assert FirstFrom(off, lo, p);
    } else if metHi {
      assert LastTo(off, hi, p);
    } else if p != s {
      if step == 1 || step == -1 {
        assert Walk(off, lo, hi, s, k > 0, p);
      } else {
        assert Lands(off, lo, hi, month, s, k, p, p);
      }
    }
  }
}
