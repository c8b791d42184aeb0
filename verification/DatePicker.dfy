/** The calendar component of the date picker. */
module DatePickers {
  import opened Wrappers
  import opened Calendar
  import opened DateUnits
  import opened DateSearch

  ghost predicate IsDay(o: DateObject) {
    o == FromPick(o.pick)
  }

  function MonthOf(p: int): int {
    FromPick(p).month
  }

  /** No day from the eve of `lo` to the morrow of `hi` is in a year from 0 to 99, which `new Date` reads otherwise. */
  ghost predicate FullYears(lo: int, hi: int) {
    forall p :: lo - 1 <= p <= hi + 1 ==> FullYear(FromPick(p).year) == FromPick(p).year
  }

  /** Limits from the year 101 on will do. */
  lemma LateLimits(lo: int, hi: int)
    requires FromPick(lo).year > 100
    ensures FullYears(lo, hi)
  {
    hide FromPick;
    forall p | lo - 1 <= p <= hi + 1 ensures FullYear(FromPick(p).year) == FromPick(p).year {
      YearsFromEve(lo, p);
    }
  }

  /** From the eve of a day of year 101 on, days are in year 100 or later. */
  lemma YearsFromEve(lo: int, p: int)
    requires FromPick(lo).year > 100 && p >= lo - 1
    ensures FromPick(p).year >= 100
  {
    hide *;
    var y, z := FromPick(lo).year, FromPick(p).year;
    ProperDateInYear(y, FromPick(lo).month, FromPick(lo).date);
    ProperDateInYear(z, FromPick(p).month, FromPick(p).date);
    if z < 100 {
      YearsAreOrdered(z + 1, y - 1);
      NextYear(y - 1);
      YearAtLeast365(y - 1);
    }
  }

  /** `create([o.year, o.month, o.date + k])`: the day `k` days away, exactly when the year is not one from 0 to 99. */
  method Shifted(o: DateObject, k: int) returns (r: DateObject)
    requires IsDay(o)
    ensures IsDay(r) && (r.pick == o.pick + k <==> FullYear(o.year) == o.year)
  {
    hide FromPick, DayFromYear, MakeDay, DaysBefore;
    r := Create(o.year, o.month, o.date + k);
    CreateShifts(o.pick, k);
    CreateIsDay(o.year, o.month, o.date + k);
    PickOf(o.pick + k);
  }

  lemma MonthIsMonthOf(p: int)
    ensures MonthOf(p) == FromPick(p).month
  {
    hide FromPick;
  }

  /** Strides are given up for single days where they leave the month of the day they began at, and nowhere else. */
  lemma StridesStayInMonth(off: iset<int>, lo: int, hi: int, s: int, k: int, n: nat, r: int)
    requires (k < -1 || k > 1) && s in off
    requires forall i :: 0 <= i < n ==>
      s + i * k in off && lo < s + i * k < hi && FromPick(s + i * k).month == FromPick(s).month
    ensures var p := s + n * k;
      && (p !in off ==> (Settles(off, lo, hi, MonthOf, s, k, r) <==> r == p))
      && (p in off && FromPick(p).month != FromPick(s).month ==>
            (Settles(off, lo, hi, MonthOf, s, k, r) <==>
               Settles(off, lo, hi, MonthOf, s, if k > 0 then 1 else -1, r)))
  {
    hide FromPick, Settles;
    forall i | 0 <= i < n
      ensures s + i * k in off && lo < s + i * k < hi && MonthOf(s + i * k) == MonthOf(s)
    {
      assert s + i * k in off && FromPick(s + i * k).month == FromPick(s).month;
    }
    hide MonthOf;
    MonthIsMonthOf(s);
    MonthIsMonthOf(s + n * k);
    if s + n * k !in off || MonthOf(s + n * k) != MonthOf(s) {
      StridesExactly(off, lo, hi, MonthOf, s, k, n, r);
    }
  }

  class DatePicker {
    const ctx: Context
    var min: DateObject
    var max: DateObject
    /** The units, with holes while a list of units is being enabled. */
    var disable: seq<Slot>
    var enable: int
    var view: Option<DateObject>

    constructor (ctx: Context, min: DateObject, max: DateObject, disable: seq<Unit>, enable: int)
      requires enable == 1 || enable == -1
      ensures this.ctx == ctx && this.min == min && this.max == max
      ensures Whole() && Items() == disable && this.enable == enable && view == None
    {
      this.ctx, this.min, this.max := ctx, min, max;
      this.disable, this.enable, view := Filled(disable), enable, None;
      CompactFilled(disable);
    }

    function Items(): seq<Unit>
      reads this
    {
      Compact(disable)
    }

    /** The list has no holes. */
    ghost predicate Whole()
      reads this
    {
      disable == Filled(Items())
    }

    predicate Disabled(o: DateObject)
      reads this
    {
      if enable == -1 then !MatchesList(ctx, Items(), o)
      else MatchesList(ctx, Items(), o) || o.pick < min.pick || o.pick > max.pick
    }

    ghost function DisabledDays(): iset<int>
      reads this
    {
      iset p | Disabled(FromPick(p))
    }

    /** A calendar that is not inverted, with finite limits in order that are clear of the years 0 to 99. */
    ghost predicate Searchable()
      reads this
    {
      enable != -1 && IsDay(min) && IsDay(max) && min.pick <= max.pick && FullYears(min.pick, max.pick)
    }

    /**
     The days disabled, by the units of the list: those that some unit matches and no inverted unit does, and those
     outside the limits.  An inverted calendar disables the days that are not so matched, and has no limits.
     */
    lemma DisabledExactly(o: DateObject)
      ensures Disabled(o) <==>
        if enable == -1 then !Blocked(ctx, Items(), o)
        else Blocked(ctx, Items(), o) || o.pick < min.pick || o.pick > max.pick
    {
      hide Compact, MatchesList, Blocked;
      MatchesListByMembers(ctx, Items(), o);
    }

    lemma DisabledDaysExactly()
      requires Searchable()
      ensures forall p :: p in DisabledDays() <==> Disabled(FromPick(p))
      ensures forall p :: Disabled(FromPick(p)) <==> Blocked(ctx, Items(), FromPick(p)) || p < min.pick || p > max.pick
    {
      hide FromPick, Compact, MatchesList, Blocked;
      forall p
        ensures Disabled(FromPick(p)) <==> Blocked(ctx, Items(), FromPick(p)) || p < min.pick || p > max.pick
      {
        PickOf(p);
        DisabledExactly(FromPick(p));
      }
    }

    lemma DisabledDaysAreLimited()
      requires Searchable()
      ensures Limited(DisabledDays(), min.pick, max.pick)
    {
      hide FromPick, MatchesList;
    }

    /** A day inside the limits that the units do not block; any day when they block every day inside the limits. */
    ghost predicate FreeIfAny(r: DateObject)
      reads this
    {
      (min.pick <= r.pick <= max.pick && !Blocked(ctx, Items(), r))
      || forall p :: min.pick <= p <= max.pick ==> Blocked(ctx, Items(), FromPick(p))
    }

    lemma SettledIsFree(r: DateObject)
      requires Searchable() && IsDay(r) && (Disabled(r) ==> NoneBetween(DisabledDays(), min.pick, max.pick))
      ensures FreeIfAny(r)
    {
      hide FromPick, Compact, MatchesList, Blocked;
      DisabledDaysExactly();
      PickOf(r.pick);
      assert Disabled(FromPick(r.pick)) == Disabled(r);
    }

    /**
     Shifts a disabled date to an enabled one.  `interval` is the step in days (0 when not given)
     and `nav` the month offset when navigating (0 when not).
     */
    method Validate(dateObject: DateObject, interval: int, nav: int) returns (r: DateObject)
      requires IsDay(dateObject) && Searchable()
      ensures nav != 0 ==> r == dateObject
      ensures IsDay(r)
      ensures nav == 0 && !Disabled(r) ==> Settles(DisabledDays(), min.pick, max.pick, MonthOf, dateObject.pick,
        if interval == 0 then 1 else interval, r.pick)
      ensures nav == 0 && Disabled(r) ==> NoneBetween(DisabledDays(), min.pick, max.pick)
      ensures nav == 0 ==> FreeIfAny(r)
    {
      hide FromPick, MatchesList, FreeIfAny, DayFromYear, MakeDay, DaysBefore, DaysInMonth, Searching, Settles, Ahead,
        Compact, Create, Filled;
      var date, step := dateObject, if interval == 0 then 1 else interval;
      var reachedMin, reachedMax := false, false;
      SettledAlready(DisabledDays(), min.pick, max.pick, MonthOf, date.pick, step);
      if nav != 0 || !(Disabled(date) || date.pick <= min.pick || date.pick >= max.pick) {
        if nav == 0 {
          SettledIsFree(date);
        }
        return date;
      }
      DisabledDaysAreLimited();
      ghost var off, lo, hi := DisabledDays(), min.pick, max.pick;
      ghost var s, k := date.pick, step;
      SearchStarts(off, lo, hi, MonthOf, s, k);
      while Disabled(date)
        invariant IsDay(date) && off == DisabledDays() && step != 0 && !(reachedMin && reachedMax)
        invariant Searching(off, lo, hi, MonthOf, s, k, date.pick, step, reachedMin, reachedMax)
        decreases (if reachedMin || reachedMax then 0 else 1), (if step == 1 || step == -1 then 0 else 1),
          Ahead(lo, hi, step, date.pick)
      {
        assert date.pick in off;
        if (step > 1 || step < -1) && date.month != dateObject.month {
          SearchGivesUpStrides(off, lo, hi, MonthOf, s, k, date.pick, step, reachedMin, reachedMax);
          date := dateObject;
          step := if step > 0 then 1 else -1;
        }
        ghost var p := date.pick;
        if date.pick <= min.pick {
          SearchMeetsLo(off, lo, hi, MonthOf, s, k, p, step, reachedMin, reachedMax);
          reachedMin := true;
          step := 1;
          date := Shifted(min, if date.pick == min.pick then 0 else -1);
        } else if date.pick >= max.pick {
          SearchMeetsHi(off, lo, hi, MonthOf, s, k, p, step, reachedMin, reachedMax);
          reachedMax := true;
          step := -1;
          date := Shifted(max, if date.pick == max.pick then 0 else 1);
        } else {
          SearchMoves(off, lo, hi, MonthOf, s, k, p, step, reachedMin, reachedMax);
        }
        if reachedMin && reachedMax {
          SettledIsFree(date);
          return date;
        }
        assert lo - 1 <= date.pick <= hi + 1 && date == FromPick(date.pick);
        date := Shifted(date, step);
      }
      SearchEnds(off, lo, hi, MonthOf, s, k, date.pick, step, reachedMin, reachedMax);
      SettledIsFree(date);
      return date;
    }

    /** Moves a date by `nav` months, to the month's last date when the month is too short. */
    method Navigate(year: int, month: int, date: int, nav: int) returns (y: int, m: int, d: int)
      ensures var elsewhere := nav != 0 && view.Some? && view.value.month != month;
        var fromYear := if elsewhere then view.value.year else year;
        var fromMonth := if elsewhere then view.value.month else month;
        y == (if 0 <= fromYear <= 99 then 1900 + fromYear else fromYear) + (fromMonth + nav) / 12
        && m == (fromMonth + nav) % 12
      ensures d <= date && Create(y, m, d).month == m
      ensures forall q :: d < q <= date ==> Create(y, m, q).month != m
      ensures 1 <= date <= 31 ==> d == (var days := DaysInMonth(FullYear(y), m); if date < days then date else days)
      ensures 1 <= date <= 31 ==> Create(y, m, d).year == FullYear(y) && Create(y, m, d).date == d
    {
      hide FromPick, MakeDay, DayFromYear, DaysBefore, DaysInMonth, Create;
      var targetYear, targetMonth, targetDate := year, month, date;
      if nav != 0 && view.Some? && view.value.month != targetMonth {
        targetYear := view.value.year;
        targetMonth := view.value.month;
      }
      CreateFirstOfMonth(targetYear, targetMonth + nav);
      var target := Create(targetYear, targetMonth + nav, 1);
      targetYear := target.year;
      targetMonth := target.month;
      ghost var reached := CreateReaches(targetYear, targetMonth, date);
      while Create(targetYear, targetMonth, targetDate).month != targetMonth
        invariant reached <= targetDate <= date
        invariant forall q :: targetDate < q <= date ==> Create(targetYear, targetMonth, q).month != targetMonth
        decreases targetDate - reached
      {
        targetDate := targetDate - 1;
      }
      if 1 <= date <= 31 {
        ClampedDate(targetYear, targetMonth, date, targetDate);
      }
      return targetYear, targetMonth, targetDate;
    }

    /** Disables a list of units, or flips, clears or fills the calendar. */
    method Deactivate(change: Change) returns (items: seq<Slot>)
      requires Whole()
      modifies this`enable
      ensures items == Filled(match change
        case Flip => Items()
        case All(_) => []
        case Units(us) => DisableAll(ctx, Items(), us))
      ensures enable == match change
        case Flip => if old(enable) == -1 then 1 else -1
        case All(b) => if b then -1 else 1
        case Units(_) => old(enable)
    {
      hide Exact;
      items := disable;
      match change {
        case Flip =>
          enable := if enable == -1 then 1 else -1;
        case All(b) =>
          enable := if b then -1 else 1;
          items := [];
        case Units(us) =>
          var k := 0;
          while k < |us|
            invariant 0 <= k <= |us|
            invariant items == Filled(DisableAll(ctx, Items(), us[..k]))
          {
            ghost var units := DisableAll(ctx, Items(), us[..k]);
            var matchFound, index := false, 0;
            while index < |items|
              invariant 0 <= index <= |items| && !matchFound
              invariant forall i :: 0 <= i < index ==> !Exact(ctx, us[k], units[i])
            {
              if items[index].Some? && Exact(ctx, us[k], items[index].value) {
                matchFound := true;
                break;
              }
              index := index + 1;
            }
            assert matchFound == Known(ctx, units, us[k]);
            if !matchFound {
              if us[k].Integer? || IsDate(us[k]) || (us[k].Range? && Truthy(us[k].from) && Truthy(us[k].to)) {
                items := items + [Some(us[k])];
                assert Filled(units + [us[k]]) == Filled(units) + [Some(us[k])];
              }
            }
            assert us[..k + 1][..k] == us[..k];
            k := k + 1;
          }
          assert us[..k] == us;
      }
    }

    /** Empties the first of the first `n` slots that holds exactly `u`. */
    method RemoveExact(items: seq<Slot>, n: nat, u: Unit) returns (r: seq<Slot>)
      requires n <= |items|
      ensures r == ClearExact(ctx, items, n, 0, u)
    {
      hide ExactAt;
      r := items;
      var index := 0;
      while index < n
        invariant 0 <= index <= n && r == items
        invariant ClearExact(ctx, items, n, 0, u) == ClearExact(ctx, items, n, index, u)
      {
        if ExactAt(ctx, r[index], u) {
          r := r[index := None];
          break;
        }
        index := index + 1;
      }
    }

    /** Empties the first of the first `n` slots that overlaps `u`. */
    method RemoveOverlap(items: seq<Slot>, n: nat, u: Unit) returns (r: seq<Slot>)
      requires n <= |items|
      ensures r == ClearOverlap(ctx, items, n, 0, u)
    {
      hide OverlapAt;
      r := items;
      var index := 0;
      while index < n
        invariant 0 <= index <= n && r == items
        invariant ClearOverlap(ctx, items, n, 0, u) == ClearOverlap(ctx, items, n, index, u)
      {
        if OverlapAt(ctx, r[index], u) {
          r := r[index := None];
          break;
        }
        index := index + 1;
      }
    }

    /**
     What enabling one unit makes of the list: its first `n` slots are searched, a re-enabling unit goes to the end.
     */
    method EnableUnit(items: seq<Slot>, n: nat, u: Unit) returns (r: seq<Slot>)
      requires n <= |items|
      ensures r == Enable(ctx, items, n, u)
    {
      hide ExactAt, OverlapAt, FromPick;
      r := items;
      var matchFound: Slot, isExactRange := None, false;
      var index := 0;
      while index < n
        invariant 0 <= index <= n && r == items && matchFound.None? && !isExactRange
        invariant FirstHit(ctx, items, n, 0, u) == FirstHit(ctx, items, n, index, u)
        invariant forall j :: 0 <= j < index ==> !Hit(ctx, items[j], u)
      {
        if ExactAt(ctx, r[index], u) {
          r := r[index := None];
          isExactRange := true;
          break;
        } else if OverlapAt(ctx, r[index], u) {
          if u.Range? {
            matchFound := Some(Range(u.from, u.to, true));
          } else if u.Triple? {
            matchFound := Some(Triple(u.year, u.month, u.date, true));
          } else if u.Native? {
            var o := FromPick(u.pick);
            matchFound := Some(Triple(o.year, o.month, o.date, true));
          }
          break;
        }
        index := index + 1;
      }
      assert index == FirstHit(ctx, items, n, 0, u);
      if matchFound.Some? {
        r := RemoveExact(r, n, u);
      }
      if isExactRange {
        r := RemoveOverlap(r, n, u);
      }
      if matchFound.Some? {
        r := r + [matchFound];
      }
    }

    /**
     Enables a list of units, or flips, fills or clears the calendar.  The calendar's own list is worked on: it is left
     with holes and additions, and what is returned is a copy without holes.
     */
    method Activate(change: Change) returns (items: seq<Slot>)
      requires Whole()
      modifies this`enable, this`disable
      ensures items == Filled(match change
        case Flip => old(Items())
        case All(_) => []
        case Units(us) => Enabled(ctx, old(Items()), us))
      ensures disable
        == if change.Units? then EnableAll(ctx, old(disable), |old(disable)|, change.us) else old(disable)
      ensures enable == match change
        case Flip => if old(enable) == -1 then 1 else -1
        case All(b) => if b then 1 else -1
        case Units(_) => old(enable)
    {
      hide Enable, FromPick;
      items := disable;
      match change {
        case Flip =>
          enable := if enable == -1 then 1 else -1;
        case All(b) =>
          enable := if b then 1 else -1;
          items := [];
        case Units(us) =>
          var count := |disable|;
          var k := 0;
          while k < |us|
            invariant 0 <= k <= |us| && count == |old(disable)| <= |disable| && enable == old(enable)
            invariant disable == EnableAll(ctx, old(disable), count, us[..k])
          {
            disable := EnableUnit(disable, count, us[k]);
            assert us[..k + 1][..k] == us[..k];
            k := k + 1;
          }
          assert us[..k] == us;
          items := Filled(Compact(disable));
      }
    }

    /**
     `set('disable', change)` and `set('enable', change)`: the edited list becomes the calendar's.  A day inside the
     limits is disabled afterwards when it was before or a unit given matches it, if nothing is inverted.
     */
    method SetDisable(change: Change)
      requires Whole()
      modifies this`enable, this`disable
      ensures Whole() && Items() == match change
        case Flip => old(Items())
        case All(_) => []
        case Units(us) => DisableAll(ctx, old(Items()), us)
      ensures enable == match change
        case Flip => if old(enable) == -1 then 1 else -1
        case All(b) => if b then -1 else 1
        case Units(_) => old(enable)
      ensures change == All(true) ==> forall o :: Disabled(o)
      ensures change == All(false) ==> forall o: DateObject :: min.pick <= o.pick <= max.pick ==> !Disabled(o)
      ensures change == Flip ==>
        forall o: DateObject :: min.pick <= o.pick <= max.pick ==> (Disabled(o) <==> !old(Disabled(o)))
      ensures change.Units? && enable != -1 && Upright(old(Items())) && Plain(change.us) ==>
        forall o: DateObject :: min.pick <= o.pick <= max.pick ==>
          (Disabled(o) <==> old(Disabled(o)) || MatchedBy(ctx, change.us, o))
    {
      hide Exact, Compact, MatchesList, MatchedBy, DisableAll, Plain, Upright;
      disable := Deactivate(change);
      CompactFilled(if change.Units? then DisableAll(ctx, old(Items()), change.us) else []);
      NothingMatches(ctx);
      if change.Units? && Upright(old(Items())) && Plain(change.us) {
        forall o
          ensures MatchesList(ctx, Items(), o) <==> MatchesList(ctx, old(Items()), o) || MatchedBy(ctx, change.us, o)
        {
          DisablesExactlyTheMatchedDates(ctx, old(Items()), change.us, o);
        }
      }
    }

    method SetEnable(change: Change)
      requires Whole()
      modifies this`enable, this`disable
      ensures Whole() && Items() == match change
        case Flip => old(Items())
        case All(_) => []
        case Units(us) => Enabled(ctx, old(Items()), us)
      ensures enable == match change
        case Flip => if old(enable) == -1 then 1 else -1
        case All(b) => if b then 1 else -1
        case Units(_) => old(enable)
      ensures change == All(false) ==> forall o :: Disabled(o)
      ensures change == All(true) ==> forall o: DateObject :: min.pick <= o.pick <= max.pick ==> !Disabled(o)
      ensures change == Flip ==>
        forall o: DateObject :: min.pick <= o.pick <= max.pick ==> (Disabled(o) <==> !old(Disabled(o)))
    {
      hide Enabled, Compact, MatchesList;
      disable := Activate(change);
      CompactFilled(if change.Units? then Enabled(ctx, old(Items()), change.us) else []);
      NothingMatches(ctx);
    }

    /** Disabling fresh units and enabling them again leaves the calendar as it was. */
    method DisableThenEnable(us: seq<Unit>)
      requires Whole() && Fresh(ctx, Items(), us)
      modifies this`enable, this`disable
      ensures disable == old(disable) && enable == old(enable)
    {
      hide Fresh, DisableAll, Enabled, Compact;
      SetDisable(Units(us));
      SetEnable(Units(us));
      EnablingUndoesDisabling(ctx, old(Items()), us);
    }
  }

  lemma NothingMatches(ctx: Context)
    ensures forall o :: !MatchesList(ctx, [], o)
  {
  }

  /** Among the dates up to `date`, the last one seen in its own month is the month's last or `date` itself. */
  lemma ClampedDate(y: int, m: int, date: int, d: int)
    requires 0 <= m < 12 && 1 <= date <= 31
    requires d <= date && Create(y, m, d).month == m
    requires forall q :: d < q <= date ==> Create(y, m, q).month != m
    ensures d == (var days := DaysInMonth(FullYear(y), m); if date < days then date else days)
    ensures Create(y, m, d).year == FullYear(y) && Create(y, m, d).date == d
  {
    hide Create, DaysInMonth;
    var days := DaysInMonth(FullYear(y), m);
    ShortMonths(FullYear(y), m);
    var last := if date < days then date else days;
    CreateProper(y, m, last);
    if d > days {
      CreateOverflows(y, m, d);
    }
  }
}
