/** Weekly UTC windows: strictly ordered ranges that never overlap on a weekday. */
module ClauseWindows {
  import opened Ordering

  datatype Range = Range(weekdays: seq<string>, start: string, end: string)

  /** Position in the calendar week; 7 for any other text. */
  function DayIndex(day: string): (i: nat)
    ensures i <= 7
  {
    if day == "mon" then 0 else if day == "tue" then 1 else if day == "wed" then 2 else if day == "thu" then 3
    else if day == "fri" then 4 else if day == "sat" then 5 else if day == "sun" then 6 else 7
  }

  predicate Weekday(day: string) { DayIndex(day) < 7 }

  predicate Digit(c: char) { '0' <= c <= '9' }

  function Value(c: char): int { c as int - '0' as int }

  /** `(?:[01][0-9]|2[0-3]):[0-5][0-9]` */
  predicate Clock(t: string) {
    && |t| == 5 && t[2] == ':' && Digit(t[0]) && Digit(t[1]) && Digit(t[3]) && Digit(t[4])
    && (t[0] == '0' || t[0] == '1' || (t[0] == '2' && t[1] <= '3'))
    && t[3] <= '5'
  }

  function Minutes(t: string): (m: int)
    requires Clock(t)
    ensures 0 <= m < 1440
  {
    (Value(t[0]) * 10 + Value(t[1])) * 60 + Value(t[3]) * 10 + Value(t[4])
  }

  /** Unfolded comparison of two five-character texts. */
  lemma FiveLess(a: string, b: string)
    requires |a| == 5 && |b| == 5
    ensures StringLess(a, b) <==>
            || a[0] < b[0]
            || (a[0] == b[0] && (a[1] < b[1] || (a[1] == b[1] && (a[2] < b[2] || (a[2] == b[2] &&
                 (a[3] < b[3] || (a[3] == b[3] && a[4] < b[4])))))))
  {
    Unfold(a, b);
    Unfold(a[1..], b[1..]);
    Unfold(a[1..][1..], b[1..][1..]);
    Unfold(a[1..][1..][1..], b[1..][1..][1..]);
    Unfold(a[1..][1..][1..][1..], b[1..][1..][1..][1..]);
  }

  lemma Unfold(a: string, b: string)
    requires a != "" && b != ""
    ensures StringLess(a, b) <==> a[0] < b[0] || (a[0] == b[0] && StringLess(a[1..], b[1..]))
    ensures |a| == 1 ==> !StringLess(a[1..], b[1..]) || |b| > 1
  {
  }

  /** The text order of HH:MM is the order of minutes. */
  lemma ClockOrder(a: string, b: string)
    requires Clock(a) && Clock(b)
    ensures StringLess(a, b) <==> Minutes(a) < Minutes(b)
    ensures a == b <==> Minutes(a) == Minutes(b)
  {
    FiveLess(a, b);
    if Minutes(a) == Minutes(b) {
      assert a[0] == b[0] && a[1] == b[1] && a[3] == b[3] && a[4] == b[4];
    }
  }

  /** The checks on one range alone; its weekdays are in calendar order without repeats. */
  ghost predicate WellFormed(r: Range) {
    && r.weekdays != [] && (forall d | d in r.weekdays :: Weekday(d))
    && (forall i, j | 0 <= i < j < |r.weekdays| :: DayIndex(r.weekdays[i]) < DayIndex(r.weekdays[j]))
    && Clock(r.start) && Clock(r.end) && Minutes(r.start) < Minutes(r.end)
  }

  /** The range holds at minute m of the weekday. */
  ghost predicate Holds(r: Range, day: string, m: int)
    requires WellFormed(r)
  {
    day in r.weekdays && Minutes(r.start) <= m < Minutes(r.end)
  }

  ghost predicate Disjoint(a: Range, b: Range)
    requires WellFormed(a) && WellFormed(b)
  {
    forall day, m :: !(Holds(a, day, m) && Holds(b, day, m))
  }

  /** (first weekday, start) of a precedes that of b. */
  ghost predicate Precedes(a: Range, b: Range)
    requires WellFormed(a) && WellFormed(b)
  {
    var i, j := DayIndex(a.weekdays[0]), DayIndex(b.weekdays[0]);
    i < j || (i == j && Minutes(a.start) < Minutes(b.start))
  }

  predicate CalendarOrder(days: seq<string>) {
    forall i, j | 0 <= i < j < |days| :: DayIndex(days[i]) < DayIndex(days[j])
  }

  type Span = (string, string)
  type Occupied = map<string, seq<Span>>

  predicate Overlaps(start: string, end: string, p: Span) {
    StringLess(start, p.1) && StringLess(p.0, end)
  }

  predicate Free(spans: seq<Span>, start: string, end: string) {
    forall p | p in spans :: !Overlaps(start, end, p)
  }

  ghost predicate Listed(ranges: seq<Range>, day: string, p: Span) {
    exists k :: 0 <= k < |ranges| && day in ranges[k].weekdays && p == (ranges[k].start, ranges[k].end)
  }

  /** The lists hold, for every weekday, the spans of the ranges on that day. */
  ghost predicate Represents(occupied: Occupied, ranges: seq<Range>) {
    && (forall d :: d in occupied <==> Weekday(d))
    && forall d, p | d in occupied :: p in occupied[d] <==> Listed(ranges, d, p)
  }

  lemma SpansExact(a: Range, b: Range, day: string)
    requires WellFormed(a) && WellFormed(b) && day in a.weekdays && day in b.weekdays
    ensures Overlaps(b.start, b.end, (a.start, a.end)) <==> exists m :: Holds(a, day, m) && Holds(b, day, m)
  {
    hide StringLess, Minutes, Clock;
    ClockOrder(b.start, a.end);
    ClockOrder(a.start, b.end);
    var m := if Minutes(a.start) < Minutes(b.start) then Minutes(b.start) else Minutes(a.start);
    if Overlaps(b.start, b.end, (a.start, a.end)) {
      assert Holds(a, day, m) && Holds(b, day, m);
    }
  }

  ghost predicate AllFree(occupied: Occupied, r: Range) {
    forall d | d in r.weekdays :: d in occupied && Free(occupied[d], r.start, r.end)
  }

  lemma DaysKnown(occupied: Occupied, ranges: seq<Range>, r: Range)
    requires Represents(occupied, ranges) && WellFormed(r)
    ensures r.weekdays != [] && CalendarOrder(r.weekdays) && forall d | d in r.weekdays :: d in occupied
  {
  }

  lemma FreeDisjoint(occupied: Occupied, ranges: seq<Range>, r: Range, k: nat)
    requires Represents(occupied, ranges) && AllFree(occupied, r) && k < |ranges| && WellFormed(r) &&
             WellFormed(ranges[k])
    ensures Disjoint(ranges[k], r)
  {
    hide StringLess, WellFormed, Overlaps, Holds;
    var a := ranges[k];
    forall day, m ensures !(Holds(a, day, m) && Holds(r, day, m)) {
      if Holds(a, day, m) && Holds(r, day, m) {
        HoldsOn(a, day, m);
        HoldsOn(r, day, m);
        SpansExact(a, r, day);
      }
    }
  }

  lemma DisjointFree(occupied: Occupied, ranges: seq<Range>, r: Range)
    requires Represents(occupied, ranges) && WellFormed(r) && forall a | a in ranges :: WellFormed(a)
    requires forall k | 0 <= k < |ranges| :: Disjoint(ranges[k], r)
    ensures AllFree(occupied, r)
  {
    DaysKnown(occupied, ranges, r);
    hide StringLess, WellFormed, Overlaps, Holds;
    forall d, p | d in r.weekdays && p in occupied[d] ensures !Overlaps(r.start, r.end, p) {
      assert Listed(ranges, d, p);
      var k :| 0 <= k < |ranges| && d in ranges[k].weekdays && p == (ranges[k].start, ranges[k].end);
      SpansExact(ranges[k], r, d);
    }
  }

  /** The scan of the day lists decides disjointness from every earlier range. */
  lemma FreeExact(occupied: Occupied, ranges: seq<Range>, r: Range)
    requires Represents(occupied, ranges) && WellFormed(r) && forall a | a in ranges :: WellFormed(a)
    ensures AllFree(occupied, r) <==> forall k | 0 <= k < |ranges| :: Disjoint(ranges[k], r)
  {
    hide WellFormed, Disjoint, AllFree, Represents;
    if AllFree(occupied, r) {
      forall k | 0 <= k < |ranges| ensures Disjoint(ranges[k], r) {
        FreeDisjoint(occupied, ranges, r, k);
      }
    }
    if forall k | 0 <= k < |ranges| :: Disjoint(ranges[k], r) {
      DisjointFree(occupied, ranges, r);
    }
  }

  lemma HoldsOn(r: Range, day: string, m: int)
    requires WellFormed(r) && Holds(r, day, m)
    ensures day in r.weekdays
  {
  }

  /** The day loop: every list is scanned before the span is appended to it. */
  method Occupy(occupied: Occupied, r: Range) returns (ok: bool, after: Occupied)
    requires CalendarOrder(r.weekdays) && forall d | d in r.weekdays :: d in occupied
    ensures ok <==> AllFree(occupied, r)
    ensures ok ==> after.Keys == occupied.Keys && forall d | d in occupied ::
              after[d] == occupied[d] + if d in r.weekdays then [(r.start, r.end)] else []
  {
    hide Overlaps;
    after := occupied;
    for k := 0 to |r.weekdays|
      invariant after.Keys == occupied.Keys
      invariant forall d | d in occupied ::
                  after[d] == occupied[d] + if d in r.weekdays[..k] then [(r.start, r.end)] else []
      invariant forall j | 0 <= j < k :: Free(occupied[r.weekdays[j]], r.start, r.end)
    {
      var day := r.weekdays[k];
      assert day !in r.weekdays[..k];
      assert day in r.weekdays;
      if !Free(after[day], r.start, r.end) {
        return false, after;
      }
      after := after[day := after[day] + [(r.start, r.end)]];
      assert r.weekdays[..k + 1] == r.weekdays[..k] + [day];
    }
    assert r.weekdays[..|r.weekdays|] == r.weekdays;
    return true, after;
  }

  lemma Extended(occupied: Occupied, after: Occupied, ranges: seq<Range>, r: Range)
    requires Represents(occupied, ranges) && after.Keys == occupied.Keys
    requires forall d | d in occupied ::
               after[d] == occupied[d] + if d in r.weekdays then [(r.start, r.end)] else []
    ensures Represents(after, ranges + [r])
  {
    hide Weekday;
    var more := ranges + [r];
    assert more[|ranges|] == r;
    forall d, p | d in after ensures p in after[d] <==> Listed(more, d, p) {
      if Listed(ranges, d, p) {
        var k :| 0 <= k < |ranges| && d in ranges[k].weekdays && p == (ranges[k].start, ranges[k].end);
        assert more[k] == ranges[k];
      }
    }
  }

  /** `order <= previous_order`, negated. */
  predicate OrderLess(i: nat, s: string, j: nat, t: string) {
    i < j || (i == j && StringLess(s, t))
  }

  lemma OrderExact(a: Range, b: Range)
    requires WellFormed(a) && WellFormed(b)
    ensures OrderLess(DayIndex(a.weekdays[0]), a.start, DayIndex(b.weekdays[0]), b.start) <==> Precedes(a, b)
  {
    hide StringLess, Minutes, Clock;
    ClockOrder(a.start, b.start);
  }

  /** Well-formed ranges, strictly ordered, with every minute of the week in at most one. */
  ghost predicate Accepted(ranges: seq<Range>) {
    && (forall r | r in ranges :: WellFormed(r))
    && (forall i, j | 0 <= i < j < |ranges| :: Precedes(ranges[i], ranges[j]))
    && forall i, j | 0 <= i < j < |ranges| :: Disjoint(ranges[i], ranges[j])
  }

  lemma PrecedesAll(ranges: seq<Range>, r: Range)
    requires Accepted(ranges) && WellFormed(r) && ranges != [] && Precedes(ranges[|ranges| - 1], r)
    ensures forall k | 0 <= k < |ranges| :: Precedes(ranges[k], r)
  {
    hide WellFormed, Disjoint;
    forall k | 0 <= k < |ranges| ensures Precedes(ranges[k], r) {
      assert k < |ranges| - 1 ==> Precedes(ranges[k], ranges[|ranges| - 1]);
    }
  }

  lemma OneMore(ranges: seq<Range>, r: Range)
    requires Accepted(ranges) && WellFormed(r)
    requires ranges != [] ==> Precedes(ranges[|ranges| - 1], r)
    requires forall k | 0 <= k < |ranges| :: Disjoint(ranges[k], r)
    ensures Accepted(ranges + [r])
  {
    hide WellFormed, Disjoint, Precedes;
    if ranges != [] {
      PrecedesAll(ranges, r);
    }
  }

  method CheckShape(r: Range) returns (ok: bool)
    ensures ok <==> WellFormed(r)
  {
    hide StringLess, Minutes, Clock, DayIndex;
    if r.weekdays == [] || (exists d | d in r.weekdays :: !Weekday(d)) || !CalendarOrder(r.weekdays) {
      return false;
    }
    if !Clock(r.start) || !Clock(r.end) {
      return false;
    }
    ClockOrder(r.start, r.end);
    return StringLess(r.start, r.end);
  }

  function EmptyWeek(): Occupied {
    map["mon" := [], "tue" := [], "wed" := [], "thu" := [], "fri" := [], "sat" := [], "sun" := []]
  }

  lemma EmptyRepresents()
    ensures Represents(EmptyWeek(), [])
  {
  }

  /** `_window` accepts exactly the lists whose ranges are well-formed, strictly ordered, and
      place every minute of the week in at most one range. */
  method Window(ranges: seq<Range>) returns (ok: bool)
    ensures ok <==> ranges != [] && Accepted(ranges)
  {
    hide StringLess, WellFormed, Precedes, Disjoint, Represents, Free, Weekday, EmptyWeek;
    if ranges == [] {
      return false;
    }
    var occupied := EmptyWeek();
    EmptyRepresents();
    assert ranges[..0] == [];
    for i := 0 to |ranges|
      invariant Accepted(ranges[..i]) && Represents(occupied, ranges[..i])
    {
      var r := ranges[i];
      assert ranges[..i + 1] == ranges[..i] + [r];
      var shaped := CheckShape(r);
      if !shaped {
        assert r in ranges;
        return false;
      }
      if i > 0 {
        assert ranges[..i][i - 1] == ranges[i - 1];
        DaysKnown(occupied, ranges[..i], ranges[i - 1]);
        DaysKnown(occupied, ranges[..i], r);
        OrderExact(ranges[i - 1], r);
        if !OrderLess(DayIndex(ranges[i - 1].weekdays[0]), ranges[i - 1].start, DayIndex(r.weekdays[0]), r.start) {
          return false;
        }
      }
      DaysKnown(occupied, ranges[..i], r);
      FreeExact(occupied, ranges[..i], r);
      var free, after := Occupy(occupied, r);
      if !free {
        return false;
      }
      Extended(occupied, after, ranges[..i], r);
      OneMore(ranges[..i], r);
      occupied := after;
    }
    assert ranges[..|ranges|] == ranges;
    return true;
  }

  // ----- the calendar and the clock -----

  const WEEK: seq<string> := ["mon", "tue", "wed", "thu", "fri", "sat", "sun"]

  /** The index of a weekday is its place in the calendar week. */
  lemma DayExact(day: string)
    ensures Weekday(day) <==> day in WEEK
    ensures Weekday(day) ==> WEEK[DayIndex(day)] == day
  {
    if day in WEEK {
      var i :| 0 <= i < |WEEK| && WEEK[i] == day;
      assert i == 0 || i == 1 || i == 2 || i == 3 || i == 4 || i == 5 || i == 6;
    }
  }

  function Numeral(n: int): char
    requires 0 <= n < 10
  {
    ('0' as int + n) as char
  }

  /** The clock text of a minute of the day. */
  function ClockText(m: int): string
    requires 0 <= m < 1440
  {
    [Numeral(m / 600), Numeral(m / 60 % 10), ':', Numeral(m % 60 / 10), Numeral(m % 10)]
  }

  lemma TextClock(m: int)
    requires 0 <= m < 1440
    ensures Clock(ClockText(m)) && Minutes(ClockText(m)) == m
  {
  }

  /** The accepted texts are exactly the clock texts of the 1440 minutes, each read as its own. */
  lemma ClockExact(t: string)
    ensures Clock(t) <==> exists m :: 0 <= m < 1440 && ClockText(m) == t
    ensures forall m | 0 <= m < 1440 :: Clock(ClockText(m)) && Minutes(ClockText(m)) == m
  {
    forall m | 0 <= m < 1440 ensures Clock(ClockText(m)) && Minutes(ClockText(m)) == m {
      TextClock(m);
    }
    hide ClockText, Minutes, Clock;
    if Clock(t) {
      ClockOrder(t, ClockText(Minutes(t)));
    }
  }
}
