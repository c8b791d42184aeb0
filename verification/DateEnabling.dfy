/** Which dates enabling a unit enables. */
module DateEnabling {
  import opened Wrappers
  import opened Calendar
  import opened DateUnits
  import opened Remainders

  /**
   A weekday overlaps a date exactly when it matches it, except that without `firstDay` the multiples of seven, Saturday
   among them, and the negative numbers overlap nothing.
   */
  lemma WeekdayOverlapsExactly(ctx: Context, n: int, u: Unit)
    requires IsDate(u)
    ensures var o := FromPick(DayOf(ctx, u).value);
      Overlap(ctx, Integer(n), u) == Overlap(ctx, u, Integer(n))
      && (Overlap(ctx, Integer(n), u) <==> Matches(ctx, Integer(n), o) && (ctx.firstDay || (n > 0 && n % 7 != 0)))
  {
    hide FromPick, Create, Remainder;
    var day := FromPick(DayOf(ctx, u).value).day;
    WeekdayInRange(DayOf(ctx, u).value);
    WeekdayNumbers(n, day, ctx.firstDay);
  }

  lemma WeekdayInRange(p: int)
    ensures 0 <= FromPick(p).day < 7
  {
    hide FromPick;
  }

  lemma WeekdayNumbers(n: int, day: int, firstDay: bool)
    requires 0 <= day < 7
    ensures Remainder(n, 7) + (if firstDay then 1 else 0) == day + 1
      <==> day == Remainder(if firstDay then n else n - 1, 7) && (firstDay || (n > 0 && n % 7 != 0))
  {
    if !firstDay {
      if n > 0 && n % 7 != 0 {
        assert (n - 1) % 7 == n % 7 - 1;
      } else if n > 0 {
        assert Remainder(n, 7) == 0;
      } else {
        assert Remainder(n, 7) <= 0;
      }
    }
  }

  // Lists without holes

  lemma {:induction false} CompactJoin(a: seq<Slot>, b: seq<Slot>)
    ensures Compact(a + b) == Compact(a) + Compact(b)
    decreases |b|
  {
    if b == [] {
      assert a + b == a;
    } else {
      var front := b[..|b| - 1];
      CompactJoin(a, front);
      assert (a + b)[..|a + b| - 1] == a + front;
    }
  }

  lemma CompactCons(slots: seq<Slot>, i: nat)
    requires i < |slots|
    ensures Compact(slots[i..]) == (if slots[i].Some? then [slots[i].value] else []) + Compact(slots[i + 1..])
  {
    var one := [slots[i]];
    assert slots[i..] == one + slots[i + 1..];
    CompactJoin(one, slots[i + 1..]);
    assert one[..0] == [];
  }

  lemma CompactAround(slots: seq<Slot>, i: nat, slot: Slot)
    requires i < |slots|
    ensures Compact(slots[i := slot])
      == Compact(slots[..i]) + ((if slot.Some? then [slot.value] else []) + Compact(slots[i + 1..]))
  {
    var after := slots[i := slot];
    assert after == slots[..i] + after[i..] && after[i + 1..] == slots[i + 1..];
    CompactJoin(slots[..i], after[i..]);
    CompactCons(after, i);
  }

  // What enabling one unit leaves

  /** Going through the list, a unit that is exactly `u` comes before any that only overlaps it. */
  predicate ExactFirst(ctx: Context, items: seq<Unit>, u: Unit) {
    items != [] && (Exact(ctx, items[0], u) || (!Overlap(ctx, items[0], u) && ExactFirst(ctx, items[1..], u)))
  }

  /** Going through the list, a unit that only overlaps `u` comes before any that is exactly `u`. */
  predicate OverlapsFirst(ctx: Context, items: seq<Unit>, u: Unit) {
    items != [] && !Exact(ctx, items[0], u) && (Overlap(ctx, items[0], u) || OverlapsFirst(ctx, items[1..], u))
  }

  /** The list without the first unit that is exactly `u`. */
  function WithoutExact(ctx: Context, items: seq<Unit>, u: Unit): seq<Unit> {
    if items == [] then [] else if Exact(ctx, items[0], u) then items[1..]
    else [items[0]] + WithoutExact(ctx, items[1..], u)
  }

  /** The list without the first unit that overlaps `u`. */
  function WithoutOverlap(ctx: Context, items: seq<Unit>, u: Unit): seq<Unit> {
    if items == [] then [] else if Overlap(ctx, items[0], u) then items[1..]
    else [items[0]] + WithoutOverlap(ctx, items[1..], u)
  }

  /** What is left of the list when nothing is added to it. */
  function Rest(ctx: Context, items: seq<Unit>, u: Unit): seq<Unit> {
    if ExactFirst(ctx, items, u) then WithoutOverlap(ctx, WithoutExact(ctx, items, u), u) else items
  }

  lemma {:induction false} ClearExactCompacted(ctx: Context, slots: seq<Slot>, i: nat, u: Unit)
    requires i <= |slots|
    ensures Compact(ClearExact(ctx, slots, |slots|, i, u))
      == Compact(slots[..i]) + WithoutExact(ctx, Compact(slots[i..]), u)
    decreases |slots| - i
  {
    hide Exact, Compact;
    if i == |slots| {
      NothingAfter(slots);
    } else if ExactAt(ctx, slots[i], u) {
      ClearedSlot(slots, i);
    } else {
      ClearExactCompacted(ctx, slots, i + 1, u);
      PassedSlot(slots, i, WithoutExact(ctx, Compact(slots[i + 1..]), u));
    }
  }

  lemma CompactNothing()
    ensures Compact([]) == []
  {
  }

  lemma NothingAfter(slots: seq<Slot>)
    ensures Compact(slots[|slots|..]) == [] && Compact(slots[..|slots|]) + [] == Compact(slots)
  {
    assert slots[..|slots|] == slots;
  }

  lemma ClearedSlot(slots: seq<Slot>, i: nat)
    requires i < |slots| && slots[i].Some?
    ensures var later := Compact(slots[i..]);
      later != [] && later[0] == slots[i].value
      && Compact(slots[i := None]) == Compact(slots[..i]) + later[1..]
  {
    hide Compact;
    CompactCons(slots, i);
    CompactAround(slots, i, None);
    assert [] + Compact(slots[i + 1..]) == Compact(slots[i + 1..]);
  }

  lemma PassedSlot(slots: seq<Slot>, i: nat, rest: seq<Unit>)
    requires i < |slots|
    ensures var later := Compact(slots[i..]);
      if slots[i].Some? then
        later != [] && later[0] == slots[i].value && later[1..] == Compact(slots[i + 1..])
        && Compact(slots[..i + 1]) + rest == Compact(slots[..i]) + ([slots[i].value] + rest)
      else
        later == Compact(slots[i + 1..]) && Compact(slots[..i + 1]) + rest == Compact(slots[..i]) + rest
  {
    CompactCons(slots, i);
    assert slots[..i + 1][..i] == slots[..i];
    assert Compact(slots[..i + 1]) == Compact(slots[..i]) + if slots[i].Some? then [slots[i].value] else [];
    hide Compact;
    assert [] + Compact(slots[i + 1..]) == Compact(slots[i + 1..]);
  }

  lemma {:induction false} ClearOverlapCompacted(ctx: Context, slots: seq<Slot>, i: nat, u: Unit)
    requires i <= |slots|
    ensures Compact(ClearOverlap(ctx, slots, |slots|, i, u))
      == Compact(slots[..i]) + WithoutOverlap(ctx, Compact(slots[i..]), u)
    decreases |slots| - i
  {
    hide Overlap, Compact;
    if i == |slots| {
      NothingAfter(slots);
    } else if OverlapAt(ctx, slots[i], u) {
      ClearedSlot(slots, i);
    } else {
      ClearOverlapCompacted(ctx, slots, i + 1, u);
      PassedSlot(slots, i, WithoutOverlap(ctx, Compact(slots[i + 1..]), u));
    }
  }

  lemma {:induction false} FirstHitByItems(ctx: Context, items: seq<Unit>, u: Unit, k: nat)
    requires k <= |items|
    ensures var i := FirstHit(ctx, Filled(items), |items|, k, u);
      (i < |items| && Exact(ctx, items[i], u) <==> ExactFirst(ctx, items[k..], u))
      && (i < |items| && !Exact(ctx, items[i], u) <==> OverlapsFirst(ctx, items[k..], u))
    decreases |items| - k
  {
    hide Exact, Overlap;
    if k < |items| {
      assert Filled(items)[k] == Some(items[k]);
      assert items[k..][0] == items[k] && items[k..][1..] == items[k + 1..];
      if !Hit(ctx, Filled(items)[k], u) {
        FirstHitByItems(ctx, items, u, k + 1);
      }
    }
  }

  lemma {:induction false} ClearExactAtFirstHit(ctx: Context, slots: seq<Slot>, i: nat, u: Unit)
    requires i <= |slots|
    requires var r := FirstHit(ctx, slots, |slots|, i, u); r < |slots| && ExactAt(ctx, slots[r], u)
    ensures ClearExact(ctx, slots, |slots|, i, u) == slots[FirstHit(ctx, slots, |slots|, i, u) := None]
    decreases |slots| - i
  {
    hide ExactAt, OverlapAt;
    if !Hit(ctx, slots[i], u) {
      ClearExactAtFirstHit(ctx, slots, i + 1, u);
    }
  }

  /**
   What enabling one unit makes of any list.  When nothing is exactly `u` or overlaps it, the list stays.  When an
   overlap comes first, the first unit that is exactly `u` goes and the inverted form of `u` is added, if it has one.
   When an exact unit comes first, it goes, and with it the first unit that overlaps `u`.
   */
  lemma EnabledIs(ctx: Context, items: seq<Unit>, u: Unit)
    ensures Enabled(ctx, items, [u]) ==
      if OverlapsFirst(ctx, items, u) && Reenabling(u).Some? then WithoutExact(ctx, items, u) + [Reenabling(u).value]
      else Rest(ctx, items, u)
    ensures !(ExactFirst(ctx, items, u) && OverlapsFirst(ctx, items, u))
  {
    hide Exact, Overlap, FirstHit, ClearExact, ClearOverlap, Compact, Reenabling, WithoutExact, WithoutOverlap,
      ExactFirst, OverlapsFirst;
    var slots, n := Filled(items), |items|;
    var i := FirstHit(ctx, slots, n, 0, u);
    assert slots[0..] == slots && slots[..0] == [] && items[0..] == items && [u][..0] == [];
    CompactFilled(items);
    CompactNothing();
    FirstHitByItems(ctx, items, u, 0);
    assert EnableAll(ctx, slots, n, [u]) == Enable(ctx, slots, n, u);
    if i < n {
      assert slots[i] == Some(items[i]);
      ClearExactCompacted(ctx, slots, 0, u);
      var cleared := ClearExact(ctx, slots, n, 0, u);
      assert Compact(cleared) == WithoutExact(ctx, items, u);
      if Exact(ctx, items[i], u) {
        ClearExactAtFirstHit(ctx, slots, 0, u);
        assert cleared[0..] == cleared && cleared[..0] == [];
        ClearOverlapCompacted(ctx, cleared, 0, u);
      } else if Reenabling(u).Some? {
        CompactLast(cleared, Reenabling(u).value);
      }
    }
  }

  lemma CompactLast(slots: seq<Slot>, v: Unit)
    ensures Compact(slots + [Some(v)]) == Compact(slots) + [v]
  {
    assert (slots + [Some(v)])[..|slots|] == slots;
  }

  // Members of what is left

  lemma {:induction false} WithoutExactMembers(ctx: Context, items: seq<Unit>, u: Unit, w: Unit)
    ensures w in WithoutExact(ctx, items, u) ==> w in items
    ensures w in items ==> w in WithoutExact(ctx, items, u) || Exact(ctx, w, u)
  {
    hide Exact;
    if items != [] {
      assert w in items <==> w == items[0] || w in items[1..];
      WithoutExactMembers(ctx, items[1..], u, w);
    }
  }

  lemma {:induction false} WithoutOverlapMembers(ctx: Context, items: seq<Unit>, u: Unit, w: Unit)
    ensures w in WithoutOverlap(ctx, items, u) ==> w in items
    ensures w in items ==> w in WithoutOverlap(ctx, items, u) || Overlap(ctx, w, u)
  {
    hide Overlap;
    if items != [] {
      assert w in items <==> w == items[0] || w in items[1..];
      WithoutOverlapMembers(ctx, items[1..], u, w);
    }
  }

  lemma RestMembers(ctx: Context, items: seq<Unit>, u: Unit, w: Unit)
    ensures w in Rest(ctx, items, u) ==> w in items
    ensures w in items ==> w in Rest(ctx, items, u) || Exact(ctx, w, u) || Overlap(ctx, w, u)
  {
    hide Exact, Overlap, WithoutExact, WithoutOverlap, ExactFirst;
    WithoutExactMembers(ctx, items, u, w);
    WithoutOverlapMembers(ctx, WithoutExact(ctx, items, u), u, w);
  }

  /** Only a date's own day matches it, and only weekday numbers overlap it. */
  lemma DatesMatchOneDay(ctx: Context, u: Unit, w: Unit, p: int)
    requires IsDate(u)
    ensures Matches(ctx, u, FromPick(p)) <==> DayOf(ctx, u) == Some(p)
    ensures Overlap(ctx, w, u) ==> w.Integer?
    ensures Exact(ctx, w, u) ==> IsDate(w)
  {
    PickOf(p);
    hide FromPick, Create;
  }

  /** The year of a native date is none that the script reads as one of the twentieth century. */
  predicate FullYeared(u: Unit) {
    u.Native? ==> FullYear(FromPick(u.pick).year) == FromPick(u.pick).year
  }

  lemma ReenablingMatches(ctx: Context, u: Unit, o: DateObject)
    requires Reenabling(u).Some?
    ensures IsInverted(Reenabling(u).value)
    ensures FullYeared(u) ==> Matches(ctx, Reenabling(u).value, o) == Matches(ctx, u, o)
  {
    hide FromPick, Create, FullYear, RangeDays;
    if u.Native? {
      MarkedDayOfNative(ctx, u);
    }
  }

  lemma MarkedDayOfNative(ctx: Context, u: Unit)
    requires u.Native?
    ensures DayOf(ctx, Reenabling(u).value) == Some(u.pick) <==> FullYeared(u)
  {
    hide FromPick, Create, FullYear;
    ViewsMakeDay(u.pick);
  }

  /** Taking exact copies of `u` out of a list only matters to the dates that `u` matches. */
  lemma ExactCopiesMatterToTheirDates(ctx: Context, items: seq<Unit>, u: Unit, o: DateObject)
    requires !Matches(ctx, u, o)
    ensures MatchesList(ctx, WithoutExact(ctx, items, u), o) == MatchesList(ctx, items, o)
  {
    hide Exact, Matches, IsInverted, WithoutExact;
    var after := WithoutExact(ctx, items, u);
    MatchesListByMembers(ctx, items, o);
    MatchesListByMembers(ctx, after, o);
    forall w ensures Matches(ctx, w, o) ==> (w in items <==> w in after) {
      WithoutExactMembers(ctx, items, u, w);
      if Exact(ctx, w, u) {
        ExactUnitsMatchTheSame(ctx, w, u, o);
      }
    }
  }

  /** An inverted unit at the end re-enables the dates it matches and no others. */
  lemma InvertedLast(ctx: Context, items: seq<Unit>, v: Unit, o: DateObject)
    requires IsInverted(v)
    ensures MatchesList(ctx, items + [v], o) <==> MatchesList(ctx, items, o) && !Matches(ctx, v, o)
  {
    hide Matches, IsInverted;
    MatchesListByMembers(ctx, items, o);
    MatchesListByMembers(ctx, items + [v], o);
    assert forall w :: w in items + [v] <==> w in items || w == v;
  }

  /**
   Enabling a date or a range that first overlaps something disabled enables the dates that its inverted form matches
   and no others, whatever else is in the list. These are the dates it matches itself, unless it is a native date of
   the years 0 to 99.
   */
  lemma EnablingAnOverlapEnablesItsDates(ctx: Context, items: seq<Unit>, u: Unit, o: DateObject)
    requires OverlapsFirst(ctx, items, u) && Reenabling(u).Some?
    ensures MatchesList(ctx, Enabled(ctx, items, [u]), o)
      <==> MatchesList(ctx, WithoutExact(ctx, items, u), o) && !Matches(ctx, Reenabling(u).value, o)
    ensures FullYeared(u) ==>
      (MatchesList(ctx, Enabled(ctx, items, [u]), o) <==> MatchesList(ctx, items, o) && !Matches(ctx, u, o))
  {
    hide Exact, Matches, Enabled, OverlapsFirst, Reenabling, IsInverted, FullYeared, FromPick, WithoutExact,
      MatchesList;
    EnabledIs(ctx, items, u);
    ReenablingMatches(ctx, u, o);
    InvertedLast(ctx, WithoutExact(ctx, items, u), Reenabling(u).value, o);
    if !Matches(ctx, u, o) {
      ExactCopiesMatterToTheirDates(ctx, items, u, o);
    }
  }

  // Enabling a date

  function Day(ctx: Context, u: Unit): int
    requires IsDate(u)
  {
    DayOf(ctx, u).value
  }

  /**
   The day that the inverted form of a date matches: that of the date, unless it is a native one of the years 0 to 99.
   */
  function MarkedDay(ctx: Context, u: Unit): int
    requires IsDate(u)
  {
    DayOf(ctx, Reenabling(u).value).value
  }

  lemma MarkedDayIs(ctx: Context, u: Unit, p: int)
    requires IsDate(u)
    ensures Reenabling(u).Some? && (Matches(ctx, Reenabling(u).value, FromPick(p)) <==> p == MarkedDay(ctx, u))
    ensures MarkedDay(ctx, u) == Day(ctx, u) <==> FullYeared(u)
  {
    hide FromPick, Create, FullYear;
    PickOf(p);
    if u.Native? {
      MarkedDayOfNative(ctx, u);
    }
  }

  /**
   What enabling a date does to any list and any day: nothing when nothing is exactly the date or overlaps it; the day
   of its inverted form is enabled when a weekday that overlaps it comes first; otherwise the first exact unit and the
   first overlapping weekday are gone.
   */
  lemma DateEnabled(ctx: Context, items: seq<Unit>, u: Unit, p: int)
    requires IsDate(u)
    ensures MatchesList(ctx, Enabled(ctx, items, [u]), FromPick(p)) <==>
      if OverlapsFirst(ctx, items, u)
      then MatchesList(ctx, WithoutExact(ctx, items, u), FromPick(p)) && p != MarkedDay(ctx, u)
      else MatchesList(ctx, Rest(ctx, items, u), FromPick(p))
  {
    hide Exact, Enabled, OverlapsFirst, Rest, MatchesList, FromPick, FullYeared, Create, Matches, Reenabling,
      MarkedDay, WithoutExact;
    MarkedDayIs(ctx, u, p);
    if OverlapsFirst(ctx, items, u) {
      EnablingAnOverlapEnablesItsDates(ctx, items, u, FromPick(p));
    } else {
      EnabledIs(ctx, items, u);
    }
  }

  // The date itself

  /** The copies of a date in a list, and the weekday numbers that overlap it. */
  function Copies(ctx: Context, items: seq<Unit>, u: Unit): seq<Unit> {
    if items == [] then []
    else (if Exact(ctx, items[0], u) then [items[0]] else []) + Copies(ctx, items[1..], u)
  }

  function Overlapping(ctx: Context, items: seq<Unit>, u: Unit): seq<Unit> {
    if items == [] then []
    else (if Overlap(ctx, items[0], u) then [items[0]] else []) + Overlapping(ctx, items[1..], u)
  }

  function Tail<T>(xs: seq<T>): seq<T> {
    if xs == [] then [] else xs[1..]
  }

  lemma NotBoth(ctx: Context, w: Unit, u: Unit)
    requires IsDate(u)
    ensures !(Exact(ctx, w, u) && Overlap(ctx, w, u))
  {
    hide FromPick, Create;
  }

  lemma {:induction false} CopiesWithoutOne(ctx: Context, items: seq<Unit>, u: Unit)
    requires IsDate(u)
    ensures Copies(ctx, WithoutExact(ctx, items, u), u) == Tail(Copies(ctx, items, u))
    ensures Overlapping(ctx, WithoutExact(ctx, items, u), u) == Overlapping(ctx, items, u)
    ensures Copies(ctx, WithoutOverlap(ctx, items, u), u) == Copies(ctx, items, u)
    ensures Overlapping(ctx, WithoutOverlap(ctx, items, u), u) == Tail(Overlapping(ctx, items, u))
  {
    hide Exact, Overlap;
    if items != [] {
      CopiesWithoutOne(ctx, items[1..], u);
      NotBoth(ctx, items[0], u);
      var one, two := WithoutExact(ctx, items[1..], u), WithoutOverlap(ctx, items[1..], u);
      assert ([items[0]] + one)[1..] == one && ([items[0]] + two)[1..] == two;
      assert [] + Copies(ctx, items[1..], u) == Copies(ctx, items[1..], u);
      assert [] + Overlapping(ctx, items[1..], u) == Overlapping(ctx, items[1..], u);
    }
  }

  lemma {:induction false} CopiesMembers(ctx: Context, items: seq<Unit>, u: Unit, w: Unit)
    ensures w in Copies(ctx, items, u) <==> w in items && Exact(ctx, w, u)
    ensures w in Overlapping(ctx, items, u) <==> w in items && Overlap(ctx, w, u)
  {
    hide Exact, Overlap;
    if items != [] {
      CopiesMembers(ctx, items[1..], u, w);
      assert w in items <==> w == items[0] || w in items[1..];
    }
  }

  lemma RestCopies(ctx: Context, items: seq<Unit>, u: Unit)
    requires IsDate(u) && ExactFirst(ctx, items, u)
    ensures Copies(ctx, Rest(ctx, items, u), u) == Tail(Copies(ctx, items, u))
    ensures Overlapping(ctx, Rest(ctx, items, u), u) == Tail(Overlapping(ctx, items, u))
  {
    hide Exact, Overlap, Copies, Overlapping, WithoutExact, WithoutOverlap, ExactFirst, Tail;
    CopiesWithoutOne(ctx, items, u);
    CopiesWithoutOne(ctx, WithoutExact(ctx, items, u), u);
  }

  /** Something matches the day of the date besides its copies and the weekday numbers that overlap it. */
  ghost predicate OtherwiseMatched(ctx: Context, items: seq<Unit>, u: Unit)
    requires IsDate(u)
  {
    exists w :: w in items && Matches(ctx, w, FromPick(Day(ctx, u))) && !Exact(ctx, w, u) && !Overlap(ctx, w, u)
  }

  /** An inverted range over the day of the date, or an inverted copy of it after its first copy. */
  ghost predicate KeptEnabled(ctx: Context, items: seq<Unit>, u: Unit)
    requires IsDate(u)
  {
    (exists w :: w in items && w.Range? && IsInverted(w) && Matches(ctx, w, FromPick(Day(ctx, u))))
    || (exists w :: w in Tail(Copies(ctx, items, u)) && IsInverted(w))
  }

  /** What matches the day of a date: its copies, the weekday numbers that overlap it, and perhaps others. */
  lemma MatchesOwnDay(ctx: Context, u: Unit, w: Unit)
    requires IsDate(u)
    ensures Exact(ctx, w, u) || Overlap(ctx, w, u) ==> Matches(ctx, w, FromPick(Day(ctx, u)))
    ensures Matches(ctx, w, FromPick(Day(ctx, u))) && IsInverted(w) ==> w.Range? || Exact(ctx, w, u)
  {
    DatesMatchOneDay(ctx, u, u, Day(ctx, u));
    if w.Triple? || w.Native? {
      DatesMatchOneDay(ctx, w, u, Day(ctx, u));
    }
    if Overlap(ctx, w, u) {
      OverlappingWeekday(ctx, w, u);
    }
    hide FromPick, Create, Overlap;
    if Exact(ctx, w, u) {
      ExactUnitsMatchTheSame(ctx, w, u, FromPick(Day(ctx, u)));
    }
  }

  /** When a copy comes first, what is left matches the day of the date exactly in these cases. */
  lemma RestMatchesDay(ctx: Context, items: seq<Unit>, u: Unit)
    requires IsDate(u) && ExactFirst(ctx, items, u)
    ensures MatchesList(ctx, Rest(ctx, items, u), FromPick(Day(ctx, u))) <==>
      (OtherwiseMatched(ctx, items, u) || |Copies(ctx, items, u)| > 1 || |Overlapping(ctx, items, u)| > 1)
      && !KeptEnabled(ctx, items, u)
  {
    hide Exact, Overlap, Matches, MatchesList, FromPick, IsInverted, Rest, Copies, Overlapping, ExactFirst, DayOf;
    var o, rest := FromPick(Day(ctx, u)), Rest(ctx, items, u);
    MatchesListByMembers(ctx, rest, o);
    RestCopies(ctx, items, u);
    forall w ensures w in rest ==> w in items
      ensures w in items ==> w in rest || Exact(ctx, w, u) || Overlap(ctx, w, u)
      ensures w in Copies(ctx, rest, u) <==> w in rest && Exact(ctx, w, u)
      ensures w in Overlapping(ctx, rest, u) <==> w in rest && Overlap(ctx, w, u)
      ensures Exact(ctx, w, u) || Overlap(ctx, w, u) ==> Matches(ctx, w, o)
      ensures Matches(ctx, w, o) && IsInverted(w) ==> w.Range? || Exact(ctx, w, u)
      ensures w.Range? ==> !Exact(ctx, w, u) && !Overlap(ctx, w, u)
    {
      RestMembers(ctx, items, u, w);
      CopiesMembers(ctx, rest, u, w);
      MatchesOwnDay(ctx, u, w);
      DatesMatchOneDay(ctx, u, w, 0);
    }
    if |Copies(ctx, items, u)| > 1 {
      assert Copies(ctx, rest, u)[0] in rest;
    }
    if |Overlapping(ctx, items, u)| > 1 {
      assert Overlapping(ctx, rest, u)[0] in rest;
    }
  }

  /**
   When a date is enabled afterwards. If a weekday that overlaps it comes first: always, except that a native date of
   the years 0 to 99 is enabled only if the list without its copy does not disable it. If a copy comes first: unless
   something else matches it - a range, a number that does not overlap it, a second copy or a second overlapping
   number - and nothing inverted that stays keeps it enabled. Otherwise if it was enabled before.
   */
  lemma DateIsEnabledExactly(ctx: Context, items: seq<Unit>, u: Unit)
    requires IsDate(u)
    ensures var d := FromPick(Day(ctx, u));
      !MatchesList(ctx, Enabled(ctx, items, [u]), d) <==>
        if OverlapsFirst(ctx, items, u) then FullYeared(u) || !MatchesList(ctx, WithoutExact(ctx, items, u), d)
        else if ExactFirst(ctx, items, u) then
          KeptEnabled(ctx, items, u)
          || !(OtherwiseMatched(ctx, items, u) || |Copies(ctx, items, u)| > 1 || |Overlapping(ctx, items, u)| > 1)
        else !MatchesList(ctx, items, d)
  {
    hide Enabled, OverlapsFirst, MatchesList, FromPick, FullYeared, Create, MarkedDay, KeptEnabled, DayOf, Matches,
      OtherwiseMatched, Copies, Overlapping, WithoutExact, WithoutOverlap, ExactFirst, Reenabling;
    DateEnabled(ctx, items, u, Day(ctx, u));
    MarkedDayIs(ctx, u, Day(ctx, u));
    if ExactFirst(ctx, items, u) {
      RestMatchesDay(ctx, items, u);
    }
  }

  // The other days

  /** A weekday number of the list matches the day. */
  ghost predicate WeekdayOf(ctx: Context, items: seq<Unit>, p: int) {
    exists n :: Integer(n) in items && Matches(ctx, Integer(n), FromPick(p))
  }

  predicate SomeOverlaps(ctx: Context, items: seq<Unit>, u: Unit) {
    exists w :: w in items && Overlap(ctx, w, u)
  }

  /** The weekday that overlaps the date goes together with the date, and no other number stands for it. */
  ghost predicate LosesWeekday(ctx: Context, items: seq<Unit>, u: Unit)
    requires IsDate(u)
  {
    ExactFirst(ctx, items, u) && SomeOverlaps(ctx, items, u) && !WeekdayOf(ctx, Rest(ctx, items, u), Day(ctx, u))
  }

  /** From this day on only weekday numbers match. */
  function Horizon(ctx: Context, items: seq<Unit>): int {
    if items == [] then 0
    else
      var w, later := items[0], Horizon(ctx, items[1..]);
      var end := match w
        case Native(_) => DayOf(ctx, w)
        case Triple(_, _, _, _) => DayOf(ctx, w)
        case Range(from, to, _) => RangeDays(ctx, from, to).1
        case _ => None;
      if end.Some? && end.value >= later then end.value + 1 else later
  }

  lemma {:induction false} BeyondHorizon(ctx: Context, items: seq<Unit>, w: Unit, p: int)
    requires w in items && p >= Horizon(ctx, items) && !w.Integer?
    ensures !Matches(ctx, w, FromPick(p))
  {
    PickOf(p);
    hide FromPick, Create, RangeDays;
    if w != items[0] {
      BeyondHorizon(ctx, items[1..], w, p);
    }
  }

  /** Weekday numbers match the days of their weekday, every seven days. */
  lemma WeekdaysRepeat(ctx: Context, n: int, p: int, k: int)
    ensures Matches(ctx, Integer(n), FromPick(p)) == Matches(ctx, Integer(n), FromPick(p + 7 * k))
  {
    hide FromPick, Matches;
    WeekdayOfPick(p);
    WeekdayOfPick(p + 7 * k);
    SevenDaysOn(p, k);
    MatchesByWeekday(ctx, n, FromPick(p), FromPick(p + 7 * k));
  }

  lemma SevenDaysOn(p: int, k: int)
    ensures (p + 7 * k + 4) % 7 == (p + 4) % 7
  {
  }

  lemma MatchesByWeekday(ctx: Context, n: int, o: DateObject, o': DateObject)
    requires o.day == o'.day
    ensures Matches(ctx, Integer(n), o) == Matches(ctx, Integer(n), o')
  {
  }

  /** A day after the horizon is matched by a list exactly when a weekday number of the list matches it. */
  lemma FarDays(ctx: Context, items: seq<Unit>, p: int)
    requires p >= Horizon(ctx, items)
    ensures MatchesList(ctx, items, FromPick(p)) <==> WeekdayOf(ctx, items, p)
  {
    hide Matches, Horizon, FromPick;
    MatchesListByMembers(ctx, items, FromPick(p));
    forall w | w in items && Matches(ctx, w, FromPick(p)) ensures w.Integer? {
      if !w.Integer? {
        BeyondHorizon(ctx, items, w, p);
      }
    }
  }

  /** When the weekday goes too, some other day of it was disabled and is no more. */
  lemma WeekdayGoesToo(ctx: Context, items: seq<Unit>, u: Unit) returns (p: int)
    requires IsDate(u) && LosesWeekday(ctx, items, u)
    ensures p != Day(ctx, u) && MatchesList(ctx, items, FromPick(p))
    ensures !MatchesList(ctx, Enabled(ctx, items, [u]), FromPick(p))
  {
    hide Exact, Enabled, MatchesList, FromPick, FullYeared, Matches, Overlap, Rest, Horizon, ExactFirst,
      OverlapsFirst, DayOf;
    var d, rest := Day(ctx, u), Rest(ctx, items, u);
    var far := if Horizon(ctx, items) >= Horizon(ctx, rest) then Horizon(ctx, items) else Horizon(ctx, rest);
    var k := 1 + if far > d then far - d else 0;
    p := d + 7 * k;
    var w :| w in items && Overlap(ctx, w, u);
    OverlappingWeekday(ctx, w, u);
    WeekdaysRepeat(ctx, w.n, d, k);
    FarDays(ctx, items, p);
    FarDays(ctx, rest, p);
    forall n | Integer(n) in rest ensures !Matches(ctx, Integer(n), FromPick(p)) {
      WeekdaysRepeat(ctx, n, d, k);
    }
    EnabledIs(ctx, items, u);
  }

  lemma OverlappingWeekday(ctx: Context, w: Unit, u: Unit)
    requires IsDate(u) && Overlap(ctx, w, u)
    ensures w.Integer? && Matches(ctx, w, FromPick(Day(ctx, u)))
  {
    DatesMatchOneDay(ctx, u, w, 0);
    WeekdayOverlapsExactly(ctx, w.n, u);
  }

  /**
   The inverted form of a native date of the years 0 to 99 enables a day of the twentieth century that was disabled.
   */
  ghost predicate EnablesAnother(ctx: Context, items: seq<Unit>, u: Unit)
    requires IsDate(u)
  {
    OverlapsFirst(ctx, items, u) && !FullYeared(u) && MatchesList(ctx, items, FromPick(MarkedDay(ctx, u)))
  }

  /** Unless the weekday goes too, or another day is enabled in its place, no other day changes. */
  lemma OtherDaysStay(ctx: Context, items: seq<Unit>, u: Unit, p: int)
    requires IsDate(u) && !LosesWeekday(ctx, items, u) && !EnablesAnother(ctx, items, u) && p != Day(ctx, u)
    ensures MatchesList(ctx, Enabled(ctx, items, [u]), FromPick(p)) == MatchesList(ctx, items, FromPick(p))
  {
    hide Exact, Enabled, MatchesList, FromPick, FullYeared, Matches, Overlap, WithoutExact, WithoutOverlap, ExactFirst,
      OverlapsFirst, DayOf, MarkedDay, Reenabling;
    DateEnabled(ctx, items, u, p);
    MarkedDayIs(ctx, u, p);
    OwnDayOnly(ctx, u, p);
    ExactCopiesMatterToTheirDates(ctx, items, u, FromPick(p));
    if !OverlapsFirst(ctx, items, u) && ExactFirst(ctx, items, u) {
      OverlapMattersToItsWeekday(ctx, WithoutExact(ctx, items, u), u, p);
      if !SomeOverlaps(ctx, items, u) {
        forall w | w in WithoutExact(ctx, items, u) ensures !Overlap(ctx, w, u) {
          WithoutExactMembers(ctx, items, u, w);
        }
      }
    }
  }

  /** And that other day does change. */
  lemma AnotherIsEnabled(ctx: Context, items: seq<Unit>, u: Unit)
    requires IsDate(u) && EnablesAnother(ctx, items, u)
    ensures MarkedDay(ctx, u) != Day(ctx, u)
    ensures MatchesList(ctx, items, FromPick(MarkedDay(ctx, u)))
    ensures !MatchesList(ctx, Enabled(ctx, items, [u]), FromPick(MarkedDay(ctx, u)))
  {
    hide Enabled, MatchesList, FromPick, FullYeared, Matches, WithoutExact, OverlapsFirst, DayOf, MarkedDay, Reenabling;
    DateEnabled(ctx, items, u, MarkedDay(ctx, u));
    MarkedDayIs(ctx, u, MarkedDay(ctx, u));
  }

  lemma OwnDayOnly(ctx: Context, u: Unit, p: int)
    requires IsDate(u) && p != Day(ctx, u)
    ensures !Matches(ctx, u, FromPick(p))
  {
    DatesMatchOneDay(ctx, u, u, p);
  }

  /** Taking out the first overlapping weekday matters only when no other number stands for it. */
  lemma OverlapMattersToItsWeekday(ctx: Context, items: seq<Unit>, u: Unit, p: int)
    requires IsDate(u)
    ensures var rest := WithoutOverlap(ctx, items, u);
      !SomeOverlaps(ctx, items, u) || WeekdayOf(ctx, rest, Day(ctx, u)) ==>
        MatchesList(ctx, rest, FromPick(p)) == MatchesList(ctx, items, FromPick(p))
  {
    hide MatchesList, FromPick, Matches, Overlap, WithoutOverlap, DayOf;
    var rest, o := WithoutOverlap(ctx, items, u), FromPick(p);
    MatchesListByMembers(ctx, items, o);
    MatchesListByMembers(ctx, rest, o);
    forall w ensures w in rest ==> w in items
      ensures w in items && !Overlap(ctx, w, u) ==> w in rest
      ensures w in items && Overlap(ctx, w, u) && Matches(ctx, w, o) && WeekdayOf(ctx, rest, Day(ctx, u)) ==>
        !IsInverted(w) && SomeMatch(ctx, rest, o)
    {
      WithoutOverlapMembers(ctx, items, u, w);
      if Overlap(ctx, w, u) && Matches(ctx, w, o) && WeekdayOf(ctx, rest, Day(ctx, u)) {
        OverlappingWeekday(ctx, w, u);
        var n :| Integer(n) in rest && Matches(ctx, Integer(n), FromPick(Day(ctx, u)));
        SameWeekday(ctx, w.n, n, Day(ctx, u), p);
      }
    }
  }

  lemma SameWeekday(ctx: Context, n: int, m: int, d: int, p: int)
    requires Matches(ctx, Integer(n), FromPick(d)) && Matches(ctx, Integer(m), FromPick(d))
    requires Matches(ctx, Integer(n), FromPick(p))
    ensures Matches(ctx, Integer(m), FromPick(p))
  {
    hide FromPick, Remainder;
  }

  /**
   No other day changes exactly unless the weekday goes together with the date or another day is enabled in its place.
   */
  lemma OtherDaysStayExactly(ctx: Context, items: seq<Unit>, u: Unit)
    requires IsDate(u)
    ensures (forall p :: p != Day(ctx, u) ==>
               (MatchesList(ctx, Enabled(ctx, items, [u]), FromPick(p)) <==> MatchesList(ctx, items, FromPick(p))))
      <==> !LosesWeekday(ctx, items, u) && !EnablesAnother(ctx, items, u)
  {
    hide Enabled, MatchesList, FromPick, FullYeared, LosesWeekday, DayOf, EnablesAnother, MarkedDay;
    if LosesWeekday(ctx, items, u) {
      var p := WeekdayGoesToo(ctx, items, u);
    } else if EnablesAnother(ctx, items, u) {
      AnotherIsEnabled(ctx, items, u);
    } else {
      forall p | p != Day(ctx, u)
        ensures MatchesList(ctx, Enabled(ctx, items, [u]), FromPick(p)) <==> MatchesList(ctx, items, FromPick(p))
      {
        OtherDaysStay(ctx, items, u, p);
      }
    }
  }

  // Where enabling a date goes wrong

  /**
   A date that is disabled stays so when something that matches it is neither exactly the date nor overlaps it, unless a
   weekday that does overlap it comes first.
   */
  lemma BlockedDateStaysDisabled(ctx: Context, items: seq<Unit>, u: Unit, w: Unit)
    requires IsDate(u) && !OverlapsFirst(ctx, items, u)
    requires w in items && Matches(ctx, w, FromPick(Day(ctx, u))) && !Exact(ctx, w, u) && !Overlap(ctx, w, u)
    requires MatchesList(ctx, items, FromPick(Day(ctx, u)))
    ensures MatchesList(ctx, Enabled(ctx, items, [u]), FromPick(Day(ctx, u)))
  {
    hide Exact, Enabled, MatchesList, FromPick, FullYeared, Matches, Overlap, Rest, OverlapsFirst, DayOf, IsInverted;
    var o, rest := FromPick(Day(ctx, u)), Rest(ctx, items, u);
    DateEnabled(ctx, items, u, Day(ctx, u));
    MatchesListByMembers(ctx, items, o);
    MatchesListByMembers(ctx, rest, o);
    forall v ensures v in rest ==> v in items {
      RestMembers(ctx, items, u, v);
    }
    RestMembers(ctx, items, u, w);
  }

  /** So a date inside a disabled range stays disabled: a range is never compared with a date. */
  lemma DateInRangeStaysDisabled(ctx: Context, items: seq<Unit>, u: Unit, r: Unit)
    requires IsDate(u) && !OverlapsFirst(ctx, items, u)
    requires r in items && r.Range? && Matches(ctx, r, FromPick(Day(ctx, u)))
    requires MatchesList(ctx, items, FromPick(Day(ctx, u)))
    ensures MatchesList(ctx, Enabled(ctx, items, [u]), FromPick(Day(ctx, u)))
  {
    hide Exact, Enabled, MatchesList, FromPick, FullYeared, Matches, Overlap, OverlapsFirst, DayOf;
    DatesMatchOneDay(ctx, u, r, 0);
    BlockedDateStaysDisabled(ctx, items, u, r);
  }

  /** Without `firstDay` nothing overlaps a Saturday. */
  lemma {:induction false} NothingOverlapsSaturdays(ctx: Context, items: seq<Unit>, u: Unit)
    requires IsDate(u) && !ctx.firstDay && FromPick(Day(ctx, u)).day == 6
    ensures !OverlapsFirst(ctx, items, u) && forall w :: w in items ==> !Overlap(ctx, w, u)
    decreases |items|
  {
    hide Exact, Overlap, FromPick, DayOf;
    if items != [] {
      NothingOverlapsSaturdays(ctx, items[1..], u);
      if Overlap(ctx, items[0], u) {
        OverlappingSaturday(ctx, items[0], u);
      }
    }
  }

  lemma OverlappingSaturday(ctx: Context, w: Unit, u: Unit)
    requires IsDate(u) && !ctx.firstDay && FromPick(Day(ctx, u)).day == 6
    ensures !Overlap(ctx, w, u)
  {
    DatesMatchOneDay(ctx, u, w, 0);
    if w.Integer? {
      hide FromPick, Create, Overlap;
      WeekdayOverlapsExactly(ctx, w.n, u);
      if w.n > 0 {
        assert (w.n - 1) % 7 == 6 ==> w.n % 7 == 0;
      }
    }
  }

  /** So without `firstDay` a Saturday disabled by a weekday number, in any list, stays disabled. */
  lemma SaturdayStaysDisabled(ctx: Context, items: seq<Unit>, u: Unit, n: int)
    requires IsDate(u) && !ctx.firstDay && FromPick(Day(ctx, u)).day == 6
    requires Integer(n) in items && Matches(ctx, Integer(n), FromPick(Day(ctx, u)))
    requires MatchesList(ctx, items, FromPick(Day(ctx, u)))
    ensures MatchesList(ctx, Enabled(ctx, items, [u]), FromPick(Day(ctx, u)))
  {
    hide Exact, Enabled, MatchesList, FromPick, FullYeared, Matches, Overlap, OverlapsFirst, DayOf;
    DatesMatchOneDay(ctx, u, Integer(n), 0);
    NothingOverlapsSaturdays(ctx, items, u);
    BlockedDateStaysDisabled(ctx, items, u, Integer(n));
  }

  /**
   Enabling a date that an inverted copy of it keeps enabled inside a range: the copy goes, and the date is disabled.
   */
  lemma EnablingAnEnabledDateDisablesIt(ctx: Context, y: int, m: int, d: int)
    ensures var p, u := Create(y, m, d).pick, Triple(y, m, d, false);
      var items := [Range(Native(p), Native(p), false), Triple(y, m, d, true)];
      !MatchesList(ctx, items, FromPick(p)) && MatchesList(ctx, Enabled(ctx, items, [u]), FromPick(p))
  {
    hide FromPick, Create, Exact, Overlap, Matches, Enabled, MatchesList;
    var p, u := Create(y, m, d).pick, Triple(y, m, d, false);
    var r, copy := Range(Native(p), Native(p), false), Triple(y, m, d, true);
    var items, o := [r, copy], FromPick(p);
    RangeAndCopy(ctx, y, m, d);
    LeftOfTwo(ctx, r, copy, u);
    EnabledIs(ctx, items, u);
    MatchesListByMembers(ctx, items, o);
    MatchesListByMembers(ctx, [r], o);
    assert copy in items && r in [r];
  }

  lemma RangeAndCopy(ctx: Context, y: int, m: int, d: int)
    ensures var p, u := Create(y, m, d).pick, Triple(y, m, d, false);
      var r, copy := Range(Native(p), Native(p), false), Triple(y, m, d, true);
      Exact(ctx, copy, u) && !Exact(ctx, r, u) && !Overlap(ctx, r, u) && !Overlap(ctx, copy, u)
      && Matches(ctx, r, FromPick(p)) && Matches(ctx, copy, FromPick(p))
  {
    PickOf(Create(y, m, d).pick);
    hide FromPick, Create;
  }

  lemma LeftOfTwo(ctx: Context, r: Unit, copy: Unit, u: Unit)
    requires Exact(ctx, copy, u) && !Exact(ctx, r, u) && !Overlap(ctx, r, u)
    ensures Rest(ctx, [r, copy], u) == [r] && ExactFirst(ctx, [r, copy], u)
  {
    hide Exact, Overlap;
    assert [r, copy][1..] == [copy] && [copy][1..] == [] && [r][1..] == [];
    assert ExactFirst(ctx, [copy], u) && WithoutExact(ctx, [copy], u) == [];
    assert [r] + WithoutExact(ctx, [copy], u) == [r];
    assert WithoutExact(ctx, [r, copy], u) == [r];
    assert [r] + WithoutOverlap(ctx, [], u) == [r];
  }
}
