/**
 The units a date picker's list of disabled dates is made of, how a date matches them, when two
 of them are the same or overlap, and how disabling and enabling a list of units edits the list.
 */
module DateUnits {
  import opened Wrappers
  import opened Calendar
  import opened Remainders

  /**
   A unit, or an end of a range.  A range's ends may be any value; an integer end counts days from
   the other end.  `inverted` marks a unit that re-enables the dates it matches.
   */
  datatype Unit =
    | Integer(n: int)
    | Native(pick: int)
    | Triple(year: int, month: int, date: int, inverted: bool)
    | Range(from: Unit, to: Unit, inverted: bool)
    | Flag(b: bool)
    | Missing
    | Other

  /** What matching depends on besides the list: the `firstDay` setting and the clock's day. */
  datatype Context = Context(firstDay: bool, today: int)

  /** What a list is edited with: "flip", a literal boolean, or a list of units. */
  datatype Change = Flip | All(b: bool) | Units(us: seq<Unit>)

  predicate IsDate(u: Unit) {
    u.Native? || u.Triple?
  }

  /** The day a unit is created as; values that are no dates have none. */
  function DayOf(ctx: Context, u: Unit): Option<int> {
    match u
    case Native(p) => Some(p)
    case Triple(y, m, d, _) => Some(Create(y, m, d).pick)
    case Flag(true) => Some(ctx.today)
    case _ => None
  }

  function Relative(ctx: Context, base: Option<int>, n: int): int {
    match base
    case Some(p) => Create(FromPick(p).year, FromPick(p).month, FromPick(p).date + n).pick
    case None => ctx.today
  }

  /** The days of the ends of a range. */
  function RangeDays(ctx: Context, from: Unit, to: Unit): (Option<int>, Option<int>) {
    var f, t := DayOf(ctx, from), DayOf(ctx, to);
    if from.Integer? && (t.Some? || to.Range?) then (Some(Relative(ctx, t, from.n)), t)
    else if to.Integer? && (f.Some? || from.Range?) then (f, Some(Relative(ctx, f, to.n)))
    else (f, t)
  }

  predicate Within(ends: (Option<int>, Option<int>), day: Option<int>) {
    ends.0.Some? && ends.1.Some? && day.Some? && ends.0.value <= day.value <= ends.1.value
  }

  predicate Matches(ctx: Context, u: Unit, o: DateObject) {
    match u
    case Integer(n) => o.day == Remainder(if ctx.firstDay then n else n - 1, 7)
    case Native(_) => DayOf(ctx, u) == Some(o.pick)
    case Triple(_, _, _, _) => DayOf(ctx, u) == Some(o.pick)
    case Range(from, to, _) => Within(RangeDays(ctx, from, to), Some(o.pick))
    case _ => false
  }

  predicate IsInverted(u: Unit) {
    (u.Triple? || u.Range?) && u.inverted
  }

  /** Some unit of the list matches the date, and no inverted unit does. */
  predicate MatchesList(ctx: Context, units: seq<Unit>, o: DateObject) {
    && (exists i :: 0 <= i < |units| && Matches(ctx, units[i], o))
    && (forall i :: 0 <= i < |units| && Matches(ctx, units[i], o) ==> !IsInverted(units[i]))
  }

  predicate Exact(ctx: Context, one: Unit, two: Unit) {
    if one.Integer? && two.Integer? then one.n == two.n
    else if one.Flag? && two.Flag? then one.b == two.b
    else if IsDate(one) && IsDate(two) then DayOf(ctx, one) == DayOf(ctx, two)
    else if one.Range? && two.Range? then Exact(ctx, one.from, two.from) && Exact(ctx, one.to, two.to)
    else false
  }

  predicate RangesOverlap(ctx: Context, one: Unit, two: Unit)
    requires one.Range? && two.Range?
  {
    var a, b := RangeDays(ctx, one.from, one.to), RangeDays(ctx, two.from, two.to);
    Within(a, b.0) || Within(a, b.1) || Within(b, a.0) || Within(b, a.1)
  }

  predicate Overlap(ctx: Context, one: Unit, two: Unit) {
    var firstDay := if ctx.firstDay then 1 else 0;
    if one.Integer? && IsDate(two) then
      Remainder(one.n, 7) + firstDay == FromPick(DayOf(ctx, two).value).day + 1
    else if two.Integer? && IsDate(one) then
      Remainder(two.n, 7) + firstDay == FromPick(DayOf(ctx, one).value).day + 1
    else one.Range? && two.Range? && RangesOverlap(ctx, one, two)
  }

  predicate Truthy(u: Unit) {
    match u
    case Integer(n) => n != 0
    case Flag(b) => b
    case Missing => false
    case _ => true
  }

  /** The units that may be added to the list. */
  predicate IsUnit(u: Unit) {
    u.Integer? || IsDate(u) || (u.Range? && Truthy(u.from) && Truthy(u.to))
  }

  // Disabling

  predicate Known(ctx: Context, items: seq<Unit>, u: Unit) {
    exists i :: 0 <= i < |items| && Exact(ctx, u, items[i])
  }

  function Disable(ctx: Context, items: seq<Unit>, u: Unit): seq<Unit> {
    if !Known(ctx, items, u) && IsUnit(u) then items + [u] else items
  }

  /** The list after disabling the units `us`, one after the other. */
  function DisableAll(ctx: Context, items: seq<Unit>, us: seq<Unit>): seq<Unit>
    decreases |us|
  {
    if us == [] then items
    else Disable(ctx, DisableAll(ctx, items, us[..|us| - 1]), us[|us| - 1])
  }

  // Enabling.  A removed unit leaves a hole in the list until the end of the edit.

  type Slot = Option<Unit>

  predicate ExactAt(ctx: Context, s: Slot, u: Unit) {
    s.Some? && Exact(ctx, s.value, u)
  }

  predicate OverlapAt(ctx: Context, s: Slot, u: Unit) {
    s.Some? && Overlap(ctx, s.value, u)
  }

  predicate Hit(ctx: Context, s: Slot, u: Unit) {
    ExactAt(ctx, s, u) || OverlapAt(ctx, s, u)
  }

  /** The first of the slots from `i` to `n` that a unit is exactly, or overlaps; `n` when there is none. */
  function FirstHit(ctx: Context, slots: seq<Slot>, n: nat, i: nat, u: Unit): (r: nat)
    requires i <= n <= |slots|
    ensures i <= r <= n
    decreases n - i
  {
    if i == n || Hit(ctx, slots[i], u) then i else FirstHit(ctx, slots, n, i + 1, u)
  }

  lemma {:induction false} FirstHitIsFirst(ctx: Context, slots: seq<Slot>, n: nat, i: nat, u: Unit)
    requires i <= n <= |slots|
    ensures var r := FirstHit(ctx, slots, n, i, u);
      (forall j :: i <= j < r ==> !Hit(ctx, slots[j], u)) && (r < n ==> Hit(ctx, slots[r], u))
    decreases n - i
  {
    hide Hit;
    if i < n && !Hit(ctx, slots[i], u) {
      FirstHitIsFirst(ctx, slots, n, i + 1, u);
    }
  }

  /** Empties the first slot from `i` to `n` that holds exactly `u`. */
  function ClearExact(ctx: Context, slots: seq<Slot>, n: nat, i: nat, u: Unit): (r: seq<Slot>)
    requires i <= n <= |slots|
    ensures |r| == |slots|
    decreases n - i
  {
    if i == n then slots
    else if ExactAt(ctx, slots[i], u) then slots[i := None]
    else ClearExact(ctx, slots, n, i + 1, u)
  }

  /** Empties the first slot from `i` to `n` that overlaps `u`. */
  function ClearOverlap(ctx: Context, slots: seq<Slot>, n: nat, i: nat, u: Unit): (r: seq<Slot>)
    requires i <= n <= |slots|
    ensures |r| == |slots|
    decreases n - i
  {
    if i == n then slots
    else if OverlapAt(ctx, slots[i], u) then slots[i := None]
    else ClearOverlap(ctx, slots, n, i + 1, u)
  }

  /** The unit that re-enables the dates of `u` inside a disabled unit it overlaps. */
  function Reenabling(u: Unit): Slot {
    match u
    case Range(f, t, _) => Some(Range(f, t, true))
    case Triple(y, m, d, _) => Some(Triple(y, m, d, true))
    case Native(p) => Some(Triple(FromPick(p).year, FromPick(p).month, FromPick(p).date, true))
    case _ => None
  }

  function Enable(ctx: Context, slots: seq<Slot>, n: nat, u: Unit): (r: seq<Slot>)
    requires n <= |slots|
    ensures n <= |r|
  {
    var i := FirstHit(ctx, slots, n, 0, u);
    if i == n then slots
    else if ExactAt(ctx, slots[i], u) then
      ClearOverlap(ctx, slots[i := None], n, 0, u)
    else if Reenabling(u).Some? then
      ClearExact(ctx, slots, n, 0, u) + [Reenabling(u)]
    else slots
  }

  function EnableAll(ctx: Context, slots: seq<Slot>, n: nat, us: seq<Unit>): (r: seq<Slot>)
    requires n <= |slots|
    ensures n <= |r|
    decreases |us|
  {
    if us == [] then slots
    else Enable(ctx, EnableAll(ctx, slots, n, us[..|us| - 1]), n, us[|us| - 1])
  }

  function Filled(items: seq<Unit>): seq<Slot> {
    seq(|items|, i requires 0 <= i < |items| => Some(items[i]))
  }

  function Compact(slots: seq<Slot>): seq<Unit> {
    if slots == [] then []
    else Compact(slots[..|slots| - 1]) + (if slots[|slots| - 1].Some? then [slots[|slots| - 1].value] else [])
  }

  /** The list after enabling the units `us`. */
  function Enabled(ctx: Context, items: seq<Unit>, us: seq<Unit>): seq<Unit> {
    Compact(EnableAll(ctx, Filled(items), |items|, us))
  }

  // What the edits promise

  /** A unit that is exactly itself: all but ranges one of whose ends is no integer, boolean, date or such range. */
  predicate Comparable(u: Unit) {
    match u
    case Range(f, t, _) => Comparable(f) && Comparable(t)
    case Missing => false
    case Other => false
    case _ => true
  }

  lemma {:induction false} ComparableIffSelfExact(ctx: Context, u: Unit)
    ensures Comparable(u) <==> Exact(ctx, u, u)
  {
    if u.Range? {
      ComparableIffSelfExact(ctx, u.from);
      ComparableIffSelfExact(ctx, u.to);
    }
  }

  lemma {:induction false} ExactMeansComparable(ctx: Context, u: Unit, v: Unit)
    requires Exact(ctx, u, v)
    ensures Comparable(u)
  {
    if u.Range? {
      ExactMeansComparable(ctx, u.from, v.from);
      ExactMeansComparable(ctx, u.to, v.to);
    }
  }

  lemma {:induction false} ExactIsSymmetric(ctx: Context, u: Unit, v: Unit)
    ensures Exact(ctx, u, v) == Exact(ctx, v, u)
  {
    if u.Range? && v.Range? {
      ExactIsSymmetric(ctx, u.from, v.from);
      ExactIsSymmetric(ctx, u.to, v.to);
    }
  }

  /** No two units of a list are exactly the same. */
  predicate NoDuplicates(ctx: Context, items: seq<Unit>) {
    forall i, j :: 0 <= i < j < |items| ==> !Exact(ctx, items[j], items[i])
  }

  /** Disabling only ever appends units of the list given, none of them a duplicate. */
  lemma {:induction false} DisableAllAppends(ctx: Context, items: seq<Unit>, us: seq<Unit>)
    ensures items <= DisableAll(ctx, items, us)
    ensures NoDuplicates(ctx, items) ==> NoDuplicates(ctx, DisableAll(ctx, items, us))
    ensures forall u :: u in DisableAll(ctx, items, us) ==> u in items || (u in us && IsUnit(u))
    decreases |us|
  {
    if us != [] {
      DisableAllAppends(ctx, items, us[..|us| - 1]);
    }
  }

  lemma KnownStays(ctx: Context, items: seq<Unit>, more: seq<Unit>, u: Unit)
    requires items <= more && Known(ctx, items, u)
    ensures Known(ctx, more, u)
  {
    var i :| 0 <= i < |items| && Exact(ctx, u, items[i]);
    assert more[i] == items[i];
  }

  lemma {:induction false} DisabledUnitsAreKnown(ctx: Context, items: seq<Unit>, us: seq<Unit>, u: Unit)
    requires u in us && IsUnit(u) && Comparable(u)
    ensures Known(ctx, DisableAll(ctx, items, us), u)
    decreases |us|
  {
    var front, last := us[..|us| - 1], us[|us| - 1];
    var before := DisableAll(ctx, items, front);
    if u == last {
      ComparableIffSelfExact(ctx, u);
      var after := Disable(ctx, before, u);
      assert after == before + [u] ==> after[|before|] == u;
    } else {
      assert u in front;
      DisabledUnitsAreKnown(ctx, items, front, u);
      KnownStays(ctx, before, Disable(ctx, before, last), u);
    }
  }

  /** When every unit of `us` is known, or no unit at all, disabling `us` changes nothing. */
  lemma {:induction false} DisablingKnownUnits(ctx: Context, items: seq<Unit>, us: seq<Unit>)
    requires forall u :: u in us && IsUnit(u) ==> Known(ctx, items, u)
    ensures DisableAll(ctx, items, us) == items
    decreases |us|
  {
    if us != [] {
      DisablingKnownUnits(ctx, items, us[..|us| - 1]);
    }
  }

  /** Disabling a unit that cannot be compared makes the list longer whenever it is done. */
  lemma {:induction false} DisablingGrows(ctx: Context, items: seq<Unit>, us: seq<Unit>, u: Unit)
    requires u in us && IsUnit(u) && !Comparable(u)
    ensures |DisableAll(ctx, items, us)| > |items|
    decreases |us|
  {
    var front, last := us[..|us| - 1], us[|us| - 1];
    var before := DisableAll(ctx, items, front);
    if u == last {
      DisableAllAppends(ctx, items, front);
      if Known(ctx, before, u) {
        var i :| 0 <= i < |before| && Exact(ctx, u, before[i]);
        ExactMeansComparable(ctx, u, before[i]);
      }
    } else {
      assert u in front;
      DisablingGrows(ctx, items, front, u);
    }
  }

  /** Disabling the same list again changes nothing exactly when all its accepted units can be compared. */
  lemma DisableAllIsIdempotent(ctx: Context, items: seq<Unit>, us: seq<Unit>)
    ensures var once := DisableAll(ctx, items, us);
      DisableAll(ctx, once, us) == once <==> forall u :: u in us && IsUnit(u) ==> Comparable(u)
  {
    var once := DisableAll(ctx, items, us);
    if forall u :: u in us && IsUnit(u) ==> Comparable(u) {
      forall u | u in us && IsUnit(u) ensures Known(ctx, once, u) {
        DisabledUnitsAreKnown(ctx, items, us, u);
      }
      DisablingKnownUnits(ctx, once, us);
    } else {
      var u :| u in us && IsUnit(u) && !Comparable(u);
      DisablingGrows(ctx, once, us, u);
    }
  }

  lemma {:induction false} ExactEndsAgree(ctx: Context, u: Unit, v: Unit)
    requires Exact(ctx, u, v)
    ensures DayOf(ctx, u) == DayOf(ctx, v)
    ensures u.Integer? == v.Integer? && u.Range? == v.Range?
    ensures u.Integer? ==> u.n == v.n
  {
  }

  lemma ExactUnitsMatchTheSame(ctx: Context, u: Unit, v: Unit, o: DateObject)
    requires Exact(ctx, u, v)
    ensures Matches(ctx, u, o) == Matches(ctx, v, o)
  {
    hide FromPick, Create;
    if u.Range? {
      ExactEndsAgree(ctx, u.from, v.from);
      ExactEndsAgree(ctx, u.to, v.to);
      assert RangeDays(ctx, u.from, u.to) == RangeDays(ctx, v.from, v.to);
    } else {
      ExactEndsAgree(ctx, u, v);
    }
  }

  // Which days a unit matches, and when two units are the same or overlap

  /** A weekday number matches its weekday, day 0 being a Thursday; a negative number only Sundays. */
  lemma WeekdayMatches(ctx: Context, n: int, p: int)
    ensures Matches(ctx, Integer(n), FromPick(p)) <==>
      var k := if ctx.firstDay then n else n - 1;
      if k >= 0 then (p + 4) % 7 == k % 7 else (p + 4) % 7 == 0 && (-k) % 7 == 0
  {
    WeekdayOfPick(p);
    hide FromPick;
  }

  /** The day `p` is the one that an end of a range stands for by itself. */
  predicate IsEnd(ctx: Context, u: Unit, p: int) {
    u == Native(p) || (u.Triple? && Create(u.year, u.month, u.date).pick == p) || (u == Flag(true) && ctx.today == p)
  }

  lemma EndIsItsDay(ctx: Context, u: Unit, p: int)
    ensures DayOf(ctx, u) == Some(p) <==> IsEnd(ctx, u, p)
  {
    hide Create;
  }

  /** A date matches the day it names and no other; so does a triple of a proper year, month and date. */
  lemma DateMatches(ctx: Context, u: Unit, p: int)
    requires IsDate(u)
    ensures Matches(ctx, u, FromPick(p)) <==> IsEnd(ctx, u, p)
    ensures u.Triple? && !(0 <= u.year <= 99) && 0 <= u.month < 12 && 1 <= u.date <= DaysInMonth(u.year, u.month) ==>
      (Matches(ctx, u, FromPick(p)) <==>
         FromPick(p).year == u.year && FromPick(p).month == u.month && FromPick(p).date == u.date)
  {
    hide FromPick, Create, DaysInMonth;
    PickOf(p);
    if u.Triple? && !(0 <= u.year <= 99) && 0 <= u.month < 12 && 1 <= u.date <= DaysInMonth(u.year, u.month) {
      ProperTriple(u.year, u.month, u.date, p);
    }
  }

  lemma ProperTriple(y: int, m: int, d: int, p: int)
    requires !(0 <= y <= 99) && 0 <= m < 12 && 1 <= d <= DaysInMonth(y, m)
    ensures Create(y, m, d).pick == p <==> FromPick(p).year == y && FromPick(p).month == m && FromPick(p).date == d
  {
    hide FromPick, DaysInMonth, MakeDay;
    CreateProper(y, m, d);
    CreateIsDay(y, m, d);
    if FromPick(p).year == y && FromPick(p).month == m && FromPick(p).date == d {
      ViewsMakeDay(p);
    }
  }

  /**
   The first and the last day of a range.  Dates and `true` stand for themselves; an integer counts from the other end
   when this has a day, is the clock's day when the other end is a range, and else has none.
   */
  lemma RangeEnds(ctx: Context, from: Unit, to: Unit, p: int)
    ensures var ends := RangeDays(ctx, from, to);
      && (!from.Integer? ==> (ends.0 == Some(p) <==> IsEnd(ctx, from, p)))
      && (!to.Integer? ==> (ends.1 == Some(p) <==> IsEnd(ctx, to, p)))
      && (from.Integer? && IsEnd(ctx, to, p) ==>
            ends.0 == Some(Create(FromPick(p).year, FromPick(p).month, FromPick(p).date + from.n).pick))
      && (to.Integer? && IsEnd(ctx, from, p) ==>
            ends.1 == Some(Create(FromPick(p).year, FromPick(p).month, FromPick(p).date + to.n).pick))
      && (from.Integer? && (forall q :: !IsEnd(ctx, to, q)) ==> ends.0 == if to.Range? then Some(ctx.today) else None)
      && (to.Integer? && (forall q :: !IsEnd(ctx, from, q)) ==> ends.1 == if from.Range? then Some(ctx.today) else None)
  {
    hide FromPick, Create, IsEnd;
    EndIsItsDay(ctx, from, p);
    EndIsItsDay(ctx, to, p);
    if DayOf(ctx, from).Some? {
      EndIsItsDay(ctx, from, DayOf(ctx, from).value);
    }
    if DayOf(ctx, to).Some? {
      EndIsItsDay(ctx, to, DayOf(ctx, to).value);
    }
  }

  /** A range with two dates matches the days from the first to the last. */
  lemma RangeOfDates(ctx: Context, from: Unit, to: Unit, inverted: bool, a: int, b: int, p: int)
    requires IsEnd(ctx, from, a) && IsEnd(ctx, to, b)
    ensures Matches(ctx, Range(from, to, inverted), FromPick(p)) <==> a <= p <= b
  {
    hide *;
    EndIsItsDay(ctx, from, a);
    EndIsItsDay(ctx, to, b);
    EndIsNoNumber(ctx, from, a);
    EndIsNoNumber(ctx, to, b);
    DaysOfRange(ctx, from, to);
    RangeMatches(ctx, from, to, inverted, p);
  }

  lemma EndIsNoNumber(ctx: Context, u: Unit, p: int)
    requires IsEnd(ctx, u, p)
    ensures !u.Integer? && !u.Range?
  {
  }

  /** A range with a number and a date matches the days so far from the date. */
  lemma RangeOfDays(ctx: Context, n: int, u: Unit, inverted: bool, q: int, p: int)
    requires IsEnd(ctx, u, q) && !(0 <= FromPick(q).year <= 99)
    ensures Matches(ctx, Range(Integer(n), u, inverted), FromPick(p)) <==> q + n <= p <= q
    ensures Matches(ctx, Range(u, Integer(n), inverted), FromPick(p)) <==> q <= p <= q + n
  {
    hide *;
    RelativeDay(ctx, q, n);
    NumbersHaveNoDay(ctx, n);
    EndIsItsDay(ctx, u, q);
    EndIsNoNumber(ctx, u, q);
    DaysOfRange(ctx, Integer(n), u);
    DaysOfRange(ctx, u, Integer(n));
    RangeMatches(ctx, Integer(n), u, inverted, p);
    RangeMatches(ctx, u, Integer(n), inverted, p);
  }

  lemma DaysOfRange(ctx: Context, from: Unit, to: Unit)
    ensures var f, t := DayOf(ctx, from), DayOf(ctx, to);
      && (!from.Integer? && !to.Integer? ==> RangeDays(ctx, from, to) == (f, t))
      && (from.Integer? && t.Some? ==> RangeDays(ctx, from, to) == (Some(Relative(ctx, t, from.n)), t))
      && (to.Integer? && !from.Integer? && f.Some? ==> RangeDays(ctx, from, to) == (f, Some(Relative(ctx, f, to.n))))
  {
    hide DayOf, Relative;
  }

  /** A range matches the days from its first to its last, if it has both. */
  lemma RangeMatches(ctx: Context, from: Unit, to: Unit, inverted: bool, p: int)
    ensures Matches(ctx, Range(from, to, inverted), FromPick(p)) <==>
      var ends := RangeDays(ctx, from, to);
      ends.0.Some? && ends.1.Some? && ends.0.value <= p <= ends.1.value
  {
    PickOf(p);
    hide FromPick, RangeDays;
  }

  lemma NumbersHaveNoDay(ctx: Context, n: int)
    ensures DayOf(ctx, Integer(n)) == None
  {
  }

  /** A range without a date matches nothing. */
  lemma RangeOfNoDate(ctx: Context, from: Unit, to: Unit, inverted: bool, p: int)
    requires forall q :: !IsEnd(ctx, from, q) && !IsEnd(ctx, to, q)
    ensures !Matches(ctx, Range(from, to, inverted), FromPick(p))
  {
    RangeMatches(ctx, from, to, inverted, p);
    hide FromPick, Create, IsEnd, DayOf, Relative, Matches;
    if DayOf(ctx, from).Some? {
      EndIsItsDay(ctx, from, DayOf(ctx, from).value);
    }
    if DayOf(ctx, to).Some? {
      EndIsItsDay(ctx, to, DayOf(ctx, to).value);
    }
  }

  lemma RelativeDay(ctx: Context, p: int, n: int)
    requires !(0 <= FromPick(p).year <= 99)
    ensures Relative(ctx, Some(p), n) == p + n
  {
    hide *;
    RelativeIs(ctx, p, n);
    CreateShifts(p, n);
    YearStays(FromPick(p).year);
    PickOf(p + n);
  }

  lemma RelativeIs(ctx: Context, p: int, n: int)
    ensures Relative(ctx, Some(p), n) == Create(FromPick(p).year, FromPick(p).month, FromPick(p).date + n).pick
  {
    hide FromPick, Create;
  }

  lemma YearStays(y: int)
    requires !(0 <= y <= 99)
    ensures FullYear(y) == y
  {
  }

  /** One of the ends of a range. */
  predicate EndOf(ctx: Context, u: Unit, p: int)
    requires u.Range?
  {
    RangeDays(ctx, u.from, u.to).0 == Some(p) || RangeDays(ctx, u.from, u.to).1 == Some(p)
  }

  /** Two ranges overlap exactly when an end of one lies in the other. */
  lemma RangesOverlapByEnds(ctx: Context, one: Unit, two: Unit)
    requires one.Range? && two.Range?
    ensures Overlap(ctx, one, two) <==>
      exists p :: (EndOf(ctx, one, p) && Matches(ctx, two, FromPick(p)))
                  || (EndOf(ctx, two, p) && Matches(ctx, one, FromPick(p)))
  {
    hide FromPick, RangeDays;
    forall p ensures FromPick(p).pick == p {
      PickOf(p);
    }
    var a, b := RangeDays(ctx, one.from, one.to), RangeDays(ctx, two.from, two.to);
    if Within(a, b.0) {
      assert EndOf(ctx, two, b.0.value) && Matches(ctx, one, FromPick(b.0.value));
    }
    if Within(a, b.1) {
      assert EndOf(ctx, two, b.1.value) && Matches(ctx, one, FromPick(b.1.value));
    }
    if Within(b, a.0) {
      assert EndOf(ctx, one, a.0.value) && Matches(ctx, two, FromPick(a.0.value));
    }
    if Within(b, a.1) {
      assert EndOf(ctx, one, a.1.value) && Matches(ctx, two, FromPick(a.1.value));
    }
  }

  /** So two ranges that match some day each overlap exactly when some day is matched by both. */
  lemma RangesOverlapExactly(ctx: Context, one: Unit, two: Unit, p: int, q: int)
    requires one.Range? && two.Range? && Matches(ctx, one, FromPick(p)) && Matches(ctx, two, FromPick(q))
    ensures Overlap(ctx, one, two) <==> exists d :: Matches(ctx, one, FromPick(d)) && Matches(ctx, two, FromPick(d))
  {
    hide FromPick, RangeDays;
    forall d ensures FromPick(d).pick == d {
      PickOf(d);
    }
    var a, b := RangeDays(ctx, one.from, one.to), RangeDays(ctx, two.from, two.to);
    assert Matches(ctx, one, FromPick(a.0.value)) && Matches(ctx, two, FromPick(b.0.value));
    if Overlap(ctx, one, two) {
      RangesOverlapByEnds(ctx, one, two);
      assert Matches(ctx, one, FromPick(a.1.value)) && Matches(ctx, two, FromPick(b.1.value));
    }
  }

  /** Nothing else overlaps than two ranges, or a weekday number and a date. */
  lemma WhatOverlaps(ctx: Context, one: Unit, two: Unit)
    requires Overlap(ctx, one, two)
    ensures (one.Range? && two.Range?) || (one.Integer? && IsDate(two)) || (two.Integer? && IsDate(one))
  {
    hide FromPick, Create;
  }

  /** A unit with every date in it replaced by its day, and without the mark of being inverted. */
  function Plainly(ctx: Context, u: Unit): Unit {
    match u
    case Native(p) => Native(p)
    case Triple(y, m, d, _) => Native(Create(y, m, d).pick)
    case Range(f, t, _) => Range(Plainly(ctx, f), Plainly(ctx, t), false)
    case _ => u
  }

  /** Two units are exactly the same when they can be compared and differ at most in how they write their dates. */
  lemma {:induction false} ExactlyTheSamePlainly(ctx: Context, u: Unit, v: Unit)
    ensures Exact(ctx, u, v) <==> Comparable(u) && Plainly(ctx, u) == Plainly(ctx, v)
  {
    hide Create;
    if u.Range? && v.Range? {
      ExactlyTheSamePlainly(ctx, u.from, v.from);
      ExactlyTheSamePlainly(ctx, u.to, v.to);
    }
  }

  /** Integers, dates and ranges are accepted; ranges not with an end that is 0, false or missing. */
  lemma AcceptedUnits(ctx: Context, u: Unit)
    ensures DisableAll(ctx, [], [u]) ==
      match u
      case Integer(_) => [u]
      case Native(_) => [u]
      case Triple(_, _, _, _) => [u]
      case Range(from, to, _) =>
        var refused := {Integer(0), Flag(false), Missing};
        if from in refused || to in refused then [] else [u]
      case _ => []
  {
    assert [u][..0] == [];
    hide Exact;
  }

  // Lists by their members

  ghost predicate SomeMatch(ctx: Context, units: seq<Unit>, o: DateObject) {
    exists u :: u in units && Matches(ctx, u, o)
  }

  ghost predicate NoneInverted(ctx: Context, units: seq<Unit>, o: DateObject) {
    forall u :: u in units && Matches(ctx, u, o) ==> !IsInverted(u)
  }

  /** Some unit of the list matches the date, and none that matches it is inverted. */
  ghost predicate Blocked(ctx: Context, units: seq<Unit>, o: DateObject) {
    SomeMatch(ctx, units, o) && NoneInverted(ctx, units, o)
  }

  lemma MatchesListByMembers(ctx: Context, units: seq<Unit>, o: DateObject)
    ensures MatchesList(ctx, units, o) <==> Blocked(ctx, units, o)
  {
    hide Matches, IsInverted;
    if SomeMatch(ctx, units, o) && NoneInverted(ctx, units, o) {
      var u :| u in units && Matches(ctx, u, o);
      var i :| 0 <= i < |units| && units[i] == u;
    }
    if MatchesList(ctx, units, o) {
      forall u | u in units && Matches(ctx, u, o) ensures !IsInverted(u) {
        var i :| 0 <= i < |units| && units[i] == u;
      }
    }
  }

  ghost predicate MatchedBy(ctx: Context, us: seq<Unit>, o: DateObject) {
    exists u :: u in us && IsUnit(u) && Matches(ctx, u, o)
  }

  ghost predicate Plain(us: seq<Unit>) {
    forall u :: u in us ==> IsUnit(u) ==> !IsInverted(u)
  }

  ghost predicate Upright(items: seq<Unit>) {
    forall u :: u in items ==> !IsInverted(u)
  }

  lemma UprightMatch(ctx: Context, items: seq<Unit>, o: DateObject)
    requires Upright(items)
    ensures MatchesList(ctx, items, o) <==> exists u :: u in items && Matches(ctx, u, o)
  {
    forall u | u in items && Matches(ctx, u, o) ensures MatchesList(ctx, items, o) {
      var i :| 0 <= i < |items| && items[i] == u;
    }
  }

  /** Without inverted units, disabling `us` disables the dates they match and no others. */
  lemma {:induction false} DisablesExactlyTheMatchedDates(ctx: Context, items: seq<Unit>, us: seq<Unit>, o: DateObject)
    requires Upright(items) && Plain(us)
    ensures Upright(DisableAll(ctx, items, us))
    ensures MatchesList(ctx, DisableAll(ctx, items, us), o) <==> MatchesList(ctx, items, o) || MatchedBy(ctx, us, o)
    decreases |us|
  {
    var all := DisableAll(ctx, items, us);
    DisableAllAppends(ctx, items, us);
    UprightMatch(ctx, items, o);
    UprightMatch(ctx, all, o);
    if us != [] {
      var front, last := us[..|us| - 1], us[|us| - 1];
      var before := DisableAll(ctx, items, front);
      DisablesExactlyTheMatchedDates(ctx, items, front, o);
      UprightMatch(ctx, before, o);
      assert forall u :: u in us <==> u in front || u == last;
      if Known(ctx, before, last) {
        var i :| 0 <= i < |before| && Exact(ctx, last, before[i]);
        ExactUnitsMatchTheSame(ctx, last, before[i], o);
        assert before[i] in before;
      }
    }
  }

  // Enabling undoes disabling

  ghost predicate Apart(ctx: Context, u: Unit, v: Unit) {
    !Exact(ctx, u, v) && !Exact(ctx, v, u) && !Overlap(ctx, u, v) && !Overlap(ctx, v, u)
  }

  /** Acceptable, comparable units that are apart from each other and from everything in the list. */
  ghost predicate Fresh(ctx: Context, items: seq<Unit>, us: seq<Unit>) {
    && (forall i :: 0 <= i < |us| ==> IsUnit(us[i]) && Comparable(us[i]))
    && (forall i, j :: 0 <= i < |items| && 0 <= j < |us| ==> Apart(ctx, items[i], us[j]))
    && (forall i, j :: 0 <= i < j < |us| ==> Apart(ctx, us[i], us[j]))
  }

  lemma FreshFront(ctx: Context, items: seq<Unit>, us: seq<Unit>)
    requires us != [] && Fresh(ctx, items, us)
    ensures Fresh(ctx, items, us[..|us| - 1])
  {
    var front := us[..|us| - 1];
    assert forall i :: 0 <= i < |front| ==> front[i] == us[i];
  }

  lemma FreshUnitIsUnknown(ctx: Context, items: seq<Unit>, us: seq<Unit>, k: nat)
    requires k < |us| && Fresh(ctx, items, us)
    ensures !Known(ctx, items + us[..k], us[k])
  {
    var before := items + us[..k];
    forall i | 0 <= i < |before| ensures !Exact(ctx, us[k], before[i]) {
      if i < |items| {
        assert Apart(ctx, items[i], us[k]);
      } else {
        assert Apart(ctx, us[i - |items|], us[k]);
      }
    }
  }

  lemma FreshUnitIsUnit(ctx: Context, items: seq<Unit>, us: seq<Unit>, k: nat)
    requires k < |us| && Fresh(ctx, items, us)
    ensures IsUnit(us[k])
  {
  }

  lemma {:induction false} DisablingFreshUnits(ctx: Context, items: seq<Unit>, us: seq<Unit>)
    requires Fresh(ctx, items, us)
    ensures DisableAll(ctx, items, us) == items + us
    decreases |us|
  {
    hide Fresh, Known, IsUnit;
    if us != [] {
      var k := |us| - 1;
      FreshFront(ctx, items, us);
      DisablingFreshUnits(ctx, items, us[..k]);
      FreshUnitIsUnknown(ctx, items, us, k);
      FreshUnitIsUnit(ctx, items, us, k);
      assert items + us == (items + us[..k]) + [us[k]];
    }
  }

  /** The slots of `items` and `us` once the first `k` of `us` are gone. */
  function Holes(items: seq<Unit>, us: seq<Unit>, k: nat): (r: seq<Slot>)
    requires k <= |us|
    ensures |r| == |items| + |us|
  {
    seq(|items| + |us|, j requires 0 <= j < |items| + |us| =>
      if j < |items| then Some(items[j]) else if j < |items| + k then None else Some(us[j - |items|]))
  }

  lemma HolesAt(items: seq<Unit>, us: seq<Unit>, k: nat, j: nat)
    requires k <= |us| && j < |items| + |us|
    ensures Holes(items, us, k)[j] ==
      if j < |items| then Some(items[j]) else if j < |items| + k then None else Some(us[j - |items|])
  {
  }

  /** A fresh unit meets its own slot and no other. */
  lemma OnlyOwnSlotHit(ctx: Context, items: seq<Unit>, us: seq<Unit>, k: nat, j: nat)
    requires k < |us| && j < |items| + |us| && Fresh(ctx, items, us)
    ensures ExactAt(ctx, Holes(items, us, k)[j], us[k]) == (j == |items| + k)
    ensures j != |items| + k ==> !OverlapAt(ctx, Holes(items, us, k)[j], us[k])
  {
    hide Exact, Overlap, Comparable, Holes, IsUnit, FromPick;
    HolesAt(items, us, k, j);
    if j < |items| {
      assert Apart(ctx, items[j], us[k]);
    } else if j == |items| + k {
      ComparableIffSelfExact(ctx, us[k]);
    } else if j > |items| + k {
      assert Apart(ctx, us[k], us[j - |items|]);
    }
  }

  lemma NextHole(items: seq<Unit>, us: seq<Unit>, k: nat)
    requires k < |us|
    ensures Holes(items, us, k)[|items| + k := None] == Holes(items, us, k + 1)
  {
    var emptied, next := Holes(items, us, k)[|items| + k := None], Holes(items, us, k + 1);
    forall j | 0 <= j < |items| + |us| ensures emptied[j] == next[j] {
      HolesAt(items, us, k, j);
      HolesAt(items, us, k + 1, j);
    }
  }

  lemma OwnSlotIsFirstHit(ctx: Context, items: seq<Unit>, us: seq<Unit>, k: nat)
    requires k < |us| && Fresh(ctx, items, us)
    ensures FirstHit(ctx, Holes(items, us, k), |items| + |us|, 0, us[k]) == |items| + k
    ensures ExactAt(ctx, Holes(items, us, k)[|items| + k], us[k])
  {
    hide Fresh, ExactAt, OverlapAt, Holes;
    OnlyOwnSlotHit(ctx, items, us, k, |items| + k);
    var r := FirstHit(ctx, Holes(items, us, k), |items| + |us|, 0, us[k]);
    FirstHitIsFirst(ctx, Holes(items, us, k), |items| + |us|, 0, us[k]);
    OnlyOwnSlotHit(ctx, items, us, k, r);
  }

  lemma NoOverlapAfter(ctx: Context, items: seq<Unit>, us: seq<Unit>, k: nat, j: nat)
    requires k < |us| && j < |items| + |us| && Fresh(ctx, items, us)
    ensures !OverlapAt(ctx, Holes(items, us, k + 1)[j], us[k])
  {
    HolesAt(items, us, k + 1, j);
    if j != |items| + k {
      HolesAt(items, us, k, j);
      OnlyOwnSlotHit(ctx, items, us, k, j);
    }
  }

  lemma {:induction false} NothingLeftToClear(ctx: Context, items: seq<Unit>, us: seq<Unit>, k: nat, i: nat)
    requires k < |us| && i <= |items| + |us| && Fresh(ctx, items, us)
    ensures ClearOverlap(ctx, Holes(items, us, k + 1), |items| + |us|, i, us[k]) == Holes(items, us, k + 1)
    decreases |items| + |us| - i
  {
    hide Fresh, OverlapAt, Holes;
    if i < |items| + |us| {
      NoOverlapAfter(ctx, items, us, k, i);
      NothingLeftToClear(ctx, items, us, k, i + 1);
    }
  }

  lemma EnableAtExactHit(ctx: Context, slots: seq<Slot>, n: nat, u: Unit, own: nat)
    requires own < n <= |slots| && FirstHit(ctx, slots, n, 0, u) == own && ExactAt(ctx, slots[own], u)
    ensures Enable(ctx, slots, n, u) == ClearOverlap(ctx, slots[own := None], n, 0, u)
  {
  }

  /** Enabling the next unit empties its own slot and no other. */
  lemma EnableEmptiesOneSlot(ctx: Context, items: seq<Unit>, us: seq<Unit>, k: nat)
    requires k < |us| && Fresh(ctx, items, us)
    ensures Enable(ctx, Holes(items, us, k), |items| + |us|, us[k]) == Holes(items, us, k + 1)
  {
    hide *;
    OwnSlotIsFirstHit(ctx, items, us, k);
    EnableAtExactHit(ctx, Holes(items, us, k), |items| + |us|, us[k], |items| + k);
    NextHole(items, us, k);
    NothingLeftToClear(ctx, items, us, k, 0);
  }

  lemma HolesStart(items: seq<Unit>, us: seq<Unit>)
    ensures Filled(items + us) == Holes(items, us, 0)
  {
    forall j | 0 <= j < |items| + |us| ensures Filled(items + us)[j] == Holes(items, us, 0)[j] {
      HolesAt(items, us, 0, j);
    }
  }

  lemma {:induction false} EnablingEmptiesSlots(ctx: Context, items: seq<Unit>, us: seq<Unit>, k: nat)
    requires k <= |us| && Fresh(ctx, items, us)
    ensures EnableAll(ctx, Filled(items + us), |items| + |us|, us[..k]) == Holes(items, us, k)
  {
    hide Fresh, Enable, Filled, Holes;
    if k == 0 {
      HolesStart(items, us);
    } else {
      EnablingEmptiesSlots(ctx, items, us, k - 1);
      assert us[..k][..k - 1] == us[..k - 1];
      EnableEmptiesOneSlot(ctx, items, us, k - 1);
    }
  }

  lemma {:induction false} CompactFilled(items: seq<Unit>)
    ensures Compact(Filled(items)) == items
    decreases |items|
  {
    if items != [] {
      CompactFilled(items[..|items| - 1]);
      assert Filled(items)[..|items| - 1] == Filled(items[..|items| - 1]);
    }
  }

  lemma {:induction false} CompactDropsHoles(slots: seq<Slot>, k: nat)
    ensures Compact(slots + seq(k, _ => None)) == Compact(slots)
  {
    if k == 0 {
      assert slots + seq(k, _ => None) == slots;
    } else {
      CompactDropsHoles(slots, k - 1);
      var all := slots + seq(k, _ => None);
      assert all[..|all| - 1] == slots + seq(k - 1, _ => None);
    }
  }

  lemma HolesEnd(items: seq<Unit>, us: seq<Unit>)
    ensures Compact(Holes(items, us, |us|)) == items
  {
    assert Holes(items, us, |us|) == Filled(items) + seq(|us|, _ => None);
    CompactDropsHoles(Filled(items), |us|);
    CompactFilled(items);
  }

  /** Enabling a list of fresh units after disabling it restores the list of disabled units. */
  lemma EnablingUndoesDisabling(ctx: Context, items: seq<Unit>, us: seq<Unit>)
    requires Fresh(ctx, items, us)
    ensures Enabled(ctx, DisableAll(ctx, items, us), us) == items
  {
    hide Fresh, EnableAll, DisableAll, Filled, Compact, Holes;
    DisablingFreshUnits(ctx, items, us);
    EnablingEmptiesSlots(ctx, items, us, |us|);
    assert us[..|us|] == us;
    HolesEnd(items, us);
  }
}
