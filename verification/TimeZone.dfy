/** Broken-down time, and time zones given by a table of transitions. */
module TimeZones {
  import opened Dates

  const SECONDS_PER_DAY: int := 86400
  const JULIAN_DAY_OF_1970: int := 2440588

  datatype DateTime = DateTime(year: int, month: int, day: int, hour: int, minute: int, second: int)

  predicate ProperTime(dt: DateTime) {
    && Proper(YearMonthDay(dt.year, dt.month, dt.day)) && InRange(YearMonthDay(dt.year, dt.month, dt.day))
    && 0 <= dt.hour < 24 && 0 <= dt.minute < 60 && 0 <= dt.second < 60
  }

  function FromUtcTime(dt: DateTime): int {
    (JulianDayNumber(dt.year, dt.month,
        dt.day) - JULIAN_DAY_OF_1970) * SECONDS_PER_DAY + dt.hour * 3600 + dt.minute * 60 + dt.second
  }

  /** The first second of 1 March of the year -4800. */
  const FIRST_SECOND: int := (-32044 - JULIAN_DAY_OF_1970) * SECONDS_PER_DAY

  lemma EpochNumber()
    ensures JulianDayNumber(1970, 1, 1) == JULIAN_DAY_OF_1970
  {
  }

  /** The same time of the next day. */
  predicate DayAfter(dt: DateTime, next: DateTime) {
    && next.hour == dt.hour && next.minute == dt.minute && next.second == dt.second
    && JulianDayNumber(next.year, next.month, next.day) == JulianDayNumber(dt.year, dt.month, dt.day) + 1
  }

  /** Time is counted in seconds from the beginning of 1970: each part of it has its weight, and days
      follow each other. */
  lemma Clockwork(dt: DateTime, second: int, minute: int, hour: int, next: DateTime)
    ensures FromUtcTime(DateTime(1970, 1, 1, 0, 0, 0)) == 0
    ensures FromUtcTime(dt.(second := second)) - FromUtcTime(dt) == second - dt.second
    ensures FromUtcTime(dt.(minute := minute)) - FromUtcTime(dt) == 60 * (minute - dt.minute)
    ensures FromUtcTime(dt.(hour := hour)) - FromUtcTime(dt) == 60 * 60 * (hour - dt.hour)
    ensures DayAfter(dt, next) ==> FromUtcTime(next) - FromUtcTime(dt) == 24 * 60 * 60
  {
    EpochNumber();
    hide JulianDayNumber;
  }

  /** Breaking a time down, negative times included, is the only inverse of putting it together. */
  method BreakTime(t: int) returns (dt: DateTime)
    ensures ProperTime(dt) <==> t >= FIRST_SECOND
    ensures t >= FIRST_SECOND ==> FromUtcTime(dt) == t
    ensures forall other :: ProperTime(other) && FromUtcTime(other) == t ==> other == dt
  {
    hide JulianDayNumber, GetYearMonthDay, Proper, InRange;
    var days := Quotient(t, SECONDS_PER_DAY);
    var seconds := t - days * SECONDS_PER_DAY;
    if seconds < 0 {
      seconds := seconds + SECONDS_PER_DAY;
      days := days - 1;
    }
    var minutes := seconds / 60;
    var ymd := GetYearMonthDay(days + JULIAN_DAY_OF_1970);
    dt := DateTime(ymd.year, ymd.month, ymd.day, minutes / 60, minutes % 60, seconds % 60);
    ProperFrom(days + JULIAN_DAY_OF_1970);
    if t >= FIRST_SECOND {
      NumberRoundTrip(days + JULIAN_DAY_OF_1970);
    }
    forall other | ProperTime(other) && FromUtcTime(other) == t
      ensures other == dt
    {
      SameTime(other, days, seconds);
    }
  }

  /** A proper time with a second of a day and a day is the time broken down from them. */
  lemma SameTime(dt: DateTime, days: int, seconds: int)
    requires ProperTime(dt) && 0 <= seconds < SECONDS_PER_DAY && FromUtcTime(dt) == days * SECONDS_PER_DAY + seconds
    ensures GetYearMonthDay(days + JULIAN_DAY_OF_1970) == YearMonthDay(dt.year, dt.month, dt.day)
    ensures dt.hour == seconds / 60 / 60 && dt.minute == seconds / 60 % 60 && dt.second == seconds % 60
  {
    hide JulianDayNumber, GetYearMonthDay, Proper, InRange;
    assert 0 <= dt.hour * 3600 + dt.minute * 60 + dt.second < SECONDS_PER_DAY;
    DateRoundTrip(YearMonthDay(dt.year, dt.month, dt.day));
  }

  // Transition tables.

  datatype LocalTime = LocalTime(utcOffset: int, isDst: bool, desigIdx: int)

  datatype Transition = Transition(utctime: int, localtime: int, localtimeIdx: nat)

  /** What reading a file builds: indices in range, local times shifted by the new offset. */
  predicate Built(ts: seq<Transition>, ls: seq<LocalTime>) {
    && ls != []
    && (forall i :: 0 <= i < |ts| ==>
      ts[i].localtimeIdx < |ls| && ts[i].localtime == ts[i].utctime + ls[ts[i].localtimeIdx].utcOffset)
  }

  /** Transitions ascend, as section 3.2 of RFC 8536 demands, wider apart than any change of offset. */
  predicate Spaced(ts: seq<Transition>, ls: seq<LocalTime>) {
    forall i, j :: 0 <= i < j < |ts| ==> Wider(ts, ls, i, j)
  }

  predicate Wider(ts: seq<Transition>, ls: seq<LocalTime>, i: nat, j: nat)
    requires i < |ts| && j < |ts|
  {
    forall x, y :: 0 <= x < |ls| && 0 <= y < |ls| ==> ts[j].utctime - ts[i].utctime > ls[x].utcOffset - ls[y].utcOffset
  }

  /** The offset from a transition on; before the first it is the first local time's. */
  function Off(ts: seq<Transition>, ls: seq<LocalTime>, i: int): int
    requires Built(ts, ls) && -1 <= i < |ts|
  {
    if i == -1 then ls[0].utcOffset else ls[ts[i].localtimeIdx].utcOffset
  }

  function UtcBound(ts: seq<Transition>, t: int): (k: nat)
    ensures k <= |ts| && (forall i :: 0 <= i < k ==> ts[i].utctime <= t) && (k < |ts| ==> t < ts[k].utctime)
  {
    if ts == [] || t < ts[0].utctime then 0 else 1 + UtcBound(ts[1..], t)
  }

  function LocalBound(ts: seq<Transition>, l: int): (k: nat)
    ensures k <= |ts| && (forall i :: 0 <= i < k ==> ts[i].localtime <= l) && (k < |ts| ==> l < ts[k].localtime)
  {
    if ts == [] || l < ts[0].localtime then 0 else 1 + LocalBound(ts[1..], l)
  }

  /** The local time of a moment. */
  function LocalOf(ts: seq<Transition>, ls: seq<LocalTime>, t: int): int
    requires Built(ts, ls)
  {
    t + Off(ts, ls, UtcBound(ts, t) - 1)
  }

  /** The transition whose offset the source uses for a local time. */
  function Pick(ts: seq<Transition>, ls: seq<LocalTime>, l: int, post: bool): (p: int)
    requires Built(ts, ls)
    ensures -1 <= p < |ts|
  {
    var k := LocalBound(ts, l);
    if k == 0 || k == |ts| then k - 1
    else if ts[k].utctime - 1 + Off(ts, ls, k - 1) < l then (if post then k else k - 1)
    else if k >= 2 && l <= ts[k - 1].utctime - 1 + Off(ts, ls, k - 2) then (if post then k - 1 else k - 2)
    else k - 1
  }

  function Back(ts: seq<Transition>, ls: seq<LocalTime>, l: int, post: bool): int
    requires Built(ts, ls)
  {
    l - Off(ts, ls, Pick(ts, ls, l, post))
  }

  predicate Rising(ts: seq<Transition>) {
    forall i, j :: 0 <= i < j < |ts| ==> ts[i].utctime < ts[j].utctime && ts[i].localtime < ts[j].localtime
  }

  lemma Ascending(ts: seq<Transition>, ls: seq<LocalTime>)
    requires Built(ts, ls) && Spaced(ts, ls)
    ensures Rising(ts)
  {
    forall i, j | 0 <= i < j < |ts|
      ensures ts[i].utctime < ts[j].utctime && ts[i].localtime < ts[j].localtime
    {
      Room(ts, ls, i, j, i, j);
      Room(ts, ls, i, j, 0, 0);
    }
  }

  /** Two transitions leave room for any two offsets. */
  lemma Room(ts: seq<Transition>, ls: seq<LocalTime>, i: nat, j: nat, p: int, q: int)
    requires Built(ts, ls) && Spaced(ts, ls) && i < j < |ts| && -1 <= p < |ts| && -1 <= q < |ts|
    ensures ts[j].utctime - ts[i].utctime > Off(ts, ls, p) - Off(ts, ls, q)
  {
    var x := if p == -1 then 0 else ts[p].localtimeIdx;
    var y := if q == -1 then 0 else ts[q].localtimeIdx;
    assert Wider(ts, ls, i, j);
    assert ts[j].utctime - ts[i].utctime > ls[x].utcOffset - ls[y].utcOffset;
  }

  /** The moment is between a transition and the next. */
  predicate InForce(ts: seq<Transition>, t: int, i: int) {
    -1 <= i < |ts| && (i >= 0 ==> ts[i].utctime <= t) && (i + 1 < |ts| ==> t < ts[i + 1].utctime)
  }

  lemma {:induction false} ForceUnique(ts: seq<Transition>, t: int, i: int)
    requires Rising(ts) && InForce(ts, t, i)
    ensures i == UtcBound(ts, t) - 1
  {
    hide UtcBound;
  }

  /** The local time is past the transition before, in the new offset, and not yet past the next in the old one. */
  predicate Later(ts: seq<Transition>, ls: seq<LocalTime>, l: int, k: nat)
    requires Built(ts, ls) && k <= |ts|
  {
    k == |ts| || l < ts[k].utctime + Off(ts, ls, k - 1)
  }

  /** The local time also occurs before that transition. */
  predicate Repeated(ts: seq<Transition>, ls: seq<LocalTime>, l: int, k: nat)
    requires Built(ts, ls) && k <= |ts|
  {
    k >= 1 && l < ts[k - 1].utctime + Off(ts, ls, k - 2)
  }

  /** The moments of a local time: at most two, on either side of a transition. */
  lemma {:induction false} Moments(ts: seq<Transition>, ls: seq<LocalTime>, l: int, t: int)
    requires Built(ts, ls) && Spaced(ts, ls)
    ensures var k := LocalBound(ts, l);
      LocalOf(ts, ls, t) == l <==>
        || (Later(ts, ls, l, k) && t == l - Off(ts, ls, k - 1))
        || (Repeated(ts, ls, l, k) && t == l - Off(ts, ls, k - 2))
  {
    hide Rising, UtcBound, LocalBound, Wider;
    var k: int := LocalBound(ts, l);
    Ascending(ts, ls);
    if LocalOf(ts, ls, t) == l {
      OnEitherSide(ts, ls, l, t, UtcBound(ts, t) - 1);
    }
    if Later(ts, ls, l, k) {
      LaterMoment(ts, ls, l, k);
    }
    if Repeated(ts, ls, l, k) {
      EarlierMoment(ts, ls, l, k);
    }
  }

  lemma {:induction false} LaterMoment(ts: seq<Transition>, ls: seq<LocalTime>, l: int, k: int)
    requires Built(ts, ls) && Rising(ts) && k == LocalBound(ts, l) && Later(ts, ls, l, k)
    ensures LocalOf(ts, ls, l - Off(ts, ls, k - 1)) == l
  {
    hide UtcBound, LocalBound;
    ForceUnique(ts, l - Off(ts, ls, k - 1), k - 1);
  }

  lemma {:induction false} EarlierMoment(ts: seq<Transition>, ls: seq<LocalTime>, l: int, k: int)
    requires Built(ts, ls) && Spaced(ts, ls) && k == LocalBound(ts, l) && Repeated(ts, ls, l, k)
    ensures LocalOf(ts, ls, l - Off(ts, ls, k - 2)) == l
  {
    hide UtcBound, LocalBound, Wider;
    if k >= 2 {
      Room(ts, ls, k - 2, k - 1, k - 2, k - 1);
    }
    Ascending(ts, ls);
    ForceUnique(ts, l - Off(ts, ls, k - 2), k - 2);
  }

  lemma {:induction false} OnEitherSide(ts: seq<Transition>, ls: seq<LocalTime>, l: int, t: int, i: int)
    requires Built(ts, ls) && Spaced(ts, ls) && InForce(ts, t, i) && t + Off(ts, ls, i) == l
    ensures i + 1 <= LocalBound(ts, l) <= i + 2
  {
    hide LocalBound;
    Ascending(ts, ls);
    if i + 2 < |ts| {
      Room(ts, ls, i + 1, i + 2, i, i + 2);
    }
  }

  /** The first or the last transition lies between the two moments. */
  predicate Edge(ts: seq<Transition>, t: int, u: int) {
    ts != [] && (t < ts[0].utctime <= u || t < ts[|ts| - 1].utctime <= u)
  }

  /** Of two moments with the same local time, the one the choice stands for: the later one, or the
      earlier one except across the first and the last transition. */
  predicate Preferred(ts: seq<Transition>, t: int, u: int, post: bool) {
    if post then u < t else (u < t && Edge(ts, u, t)) || (t < u && !Edge(ts, t, u))
  }

  lemma {:induction false} RepeatedIsLater(ts: seq<Transition>, ls: seq<LocalTime>, l: int, k: int)
    requires Built(ts, ls) && Spaced(ts, ls) && k == LocalBound(ts, l) && Repeated(ts, ls, l, k)
    ensures Later(ts, ls, l, k) && l - Off(ts, ls, k - 2) < ts[k - 1].utctime <= l - Off(ts, ls, k - 1)
  {
    hide LocalBound;
    if k < |ts| {
      Room(ts, ls, k - 1, k, k - 2, k - 1);
    }
  }

  /** A moment of a local time: going back finds it, or the one the choice prefers. */
  lemma {:induction false} BackFinds(ts: seq<Transition>, ls: seq<LocalTime>, l: int, post: bool, t: int)
    requires Built(ts, ls) && Spaced(ts, ls) && LocalOf(ts, ls, t) == l
    ensures var r := Back(ts, ls, l, post);
      LocalOf(ts, ls, r) == l && (t == r || Preferred(ts, r, t, post))
  {
    hide LocalOf, LocalBound, Rising;
    var k: int := LocalBound(ts, l);
    Moments(ts, ls, l, t);
    Moments(ts, ls, l, Back(ts, ls, l, post));
    if Repeated(ts, ls, l, k) {
      RepeatedIsLater(ts, ls, l, k);
      if 2 <= k < |ts| {
        NoEdge(ts, ls, l, k);
      }
    }
  }

  lemma {:induction false} NoEdge(ts: seq<Transition>, ls: seq<LocalTime>, l: int, k: int)
    requires Built(ts, ls) && Spaced(ts, ls) && k == LocalBound(ts, l) && 2 <= k < |ts| && Repeated(ts, ls, l, k)
    ensures !Edge(ts, l - Off(ts, ls, k - 2), l - Off(ts, ls, k - 1))
  {
    hide LocalBound, Wider;
    Ascending(ts, ls);
    RepeatedIsLater(ts, ls, l, k);
    Room(ts, ls, k - 2, k - 1, k - 2, k - 1);
  }

  /** Going back from a local time gives that local time again exactly when some moment has it. */
  lemma BackExists(ts: seq<Transition>, ls: seq<LocalTime>, l: int, post: bool)
    requires Built(ts, ls) && Spaced(ts, ls)
    ensures LocalOf(ts, ls, Back(ts, ls, l, post)) == l <==> exists t :: LocalOf(ts, ls, t) == l
  {
    hide LocalOf, Back;
    forall t | LocalOf(ts, ls, t) == l
      ensures LocalOf(ts, ls, Back(ts, ls, l, post)) == l
    {
      BackFinds(ts, ls, l, post, t);
    }
  }

  /** The clock is put forward over l at transition i. */
  predicate SkippedAt(ts: seq<Transition>, ls: seq<LocalTime>, l: int, i: nat)
    requires Built(ts, ls)
  {
    i < |ts| && ts[i].utctime + Off(ts, ls, i - 1) <= l < ts[i].localtime
  }

  /** No moment has a local time if and only if some transition skips it. */
  lemma NoMoment(ts: seq<Transition>, ls: seq<LocalTime>, l: int)
    requires Built(ts, ls) && Spaced(ts, ls)
    ensures (forall t :: LocalOf(ts, ls, t) != l) <==> exists i: nat :: SkippedAt(ts, ls, l, i)
  {
    hide LocalOf, LocalBound, Spaced;
    var k: int := LocalBound(ts, l);
    if Later(ts, ls, l, k) {
      Moments(ts, ls, l, l - Off(ts, ls, k - 1));
      forall i: nat
        ensures !SkippedAt(ts, ls, l, i)
      {
        if SkippedAt(ts, ls, l, i) {
          OnlySkip(ts, ls, l, i);
        }
      }
    } else {
      assert SkippedAt(ts, ls, l, k);
      forall t
        ensures LocalOf(ts, ls, t) != l
      {
        Moments(ts, ls, l, t);
        if Repeated(ts, ls, l, k) {
          RepeatedIsLater(ts, ls, l, k);
        }
      }
    }
  }

  lemma OnlySkip(ts: seq<Transition>, ls: seq<LocalTime>, l: int, i: nat)
    requires Built(ts, ls) && Spaced(ts, ls) && SkippedAt(ts, ls, l, i)
    ensures i == LocalBound(ts, l)
  {
    hide LocalBound, Wider;
    var k := LocalBound(ts, l);
    Ascending(ts, ls);
    forall j | k < j < |ts|
      ensures l < ts[j].utctime + Off(ts, ls, j - 1)
    {
      Room(ts, ls, k, j, k, j - 1);
    }
  }

  /** For a skipped local time the choice is between the offsets after and before the transition, which
      give a moment before and one after it; at the first transition both choices give the latter. */
  lemma {:induction false} SkippedBack(ts: seq<Transition>, ls: seq<LocalTime>, l: int, post: bool, i: nat)
    requires Built(ts, ls) && Spaced(ts, ls) && SkippedAt(ts, ls, l, i)
    ensures var r := Back(ts, ls, l, post);
      if post && i > 0 then r == l - Off(ts, ls, i) < ts[i].utctime && LocalOf(ts, ls, r) < l
      else r == l - Off(ts, ls, i - 1) >= ts[i].utctime && l < LocalOf(ts, ls, r)
  {
    hide LocalBound, UtcBound, Wider;
    OnlySkip(ts, ls, l, i);
    Ascending(ts, ls);
    if post && i > 0 {
      Room(ts, ls, i - 1, i, i, i - 1);
      ForceUnique(ts, l - Off(ts, ls, i), i - 1);
    } else {
      if i + 1 < |ts| {
        Room(ts, ls, i, i + 1, i, i - 1);
      }
      ForceUnique(ts, l - Off(ts, ls, i - 1), i);
    }
  }

  /** The clock is put forward from two to three: half past two is taken for the moment shown as half past
      one, or for the one shown as half past three. */
  lemma SkippedExample()
    ensures var ls := [LocalTime(28800, false, 0), LocalTime(32400, true, 4)];
      var ts := [Transition(653418000, 653446800, 0), Transition(671565600, 671598000, 1),
        Transition(684867600, 684896400, 0)];
      && Built(ts, ls) && Spaced(ts, ls)
      && Back(ts, ls, 671596200, true) == 671563800 && Back(ts, ls, 671596200, false) == 671567400
  {
    var ls := [LocalTime(28800, false, 0), LocalTime(32400, true, 4)];
    var ts := [Transition(653418000, 653446800, 0), Transition(671565600, 671598000, 1),
      Transition(684867600, 684896400, 0)];
    assert SkippedAt(ts, ls, 671596200, 1);
    SkippedBack(ts, ls, 671596200, true, 1);
    SkippedBack(ts, ls, 671596200, false, 1);
  }

  /** To local time and back recovers a moment exactly when the choice prefers it to every other
      moment with its local time. */
  lemma Recovers(ts: seq<Transition>, ls: seq<LocalTime>, t: int, post: bool)
    requires Built(ts, ls) && Spaced(ts, ls)
    ensures Back(ts, ls, LocalOf(ts, ls, t), post) == t
      <==> forall u :: LocalOf(ts, ls, u) == LocalOf(ts, ls, t) && u != t ==> Preferred(ts, t, u, post)
  {
    hide LocalOf, Back;
    var l := LocalOf(ts, ls, t);
    BackFinds(ts, ls, l, post, t);
    forall u | LocalOf(ts, ls, u) == l
      ensures u == Back(ts, ls, l, post) || Preferred(ts, Back(ts, ls, l, post), u, post)
    {
      BackFinds(ts, ls, l, post, u);
    }
  }

  /** One of the two choices recovers a moment, unless it is repeated after the first or the last transition. */
  lemma EitherRecovers(ts: seq<Transition>, ls: seq<LocalTime>, t: int)
    requires Built(ts, ls) && Spaced(ts, ls)
    ensures var l := LocalOf(ts, ls, t);
      (Back(ts, ls, l, true) == t || Back(ts, ls, l, false) == t)
        <==> !exists u :: LocalOf(ts, ls, u) == l && t < u && Edge(ts, t, u)
  {
    hide LocalOf, Back, Edge;
    Recovers(ts, ls, t, true);
    Recovers(ts, ls, t, false);
    forall u, v | LocalOf(ts, ls, u) == LocalOf(ts, ls, t) && LocalOf(ts, ls, v) == LocalOf(ts, ls, t)
      ensures u == t || v == t || u == v
    {
      Moments(ts, ls, LocalOf(ts, ls, t), t);
      Moments(ts, ls, LocalOf(ts, ls, t), u);
      Moments(ts, ls, LocalOf(ts, ls, t), v);
    }
  }

  /** With one transition an hour back, a moment half an hour before it is recovered by neither choice. */
  lemma LostExample(post: bool)
    ensures var ls := [LocalTime(3600, true, 0), LocalTime(0, false, 4)];
      var ts := [Transition(100000, 100000, 1)];
      Built(ts, ls) && Spaced(ts, ls) && LocalOf(ts, ls, 98200) == 101800 && Back(ts, ls, 101800, post) == 101800
  {
    var ts := [Transition(100000, 100000, 1)];
    assert UtcBound(ts, 98200) == 0;
    assert LocalBound(ts, 101800) == 1;
  }

  /** The table of a zone. */
  class Data {
    var transitions: seq<Transition>
    var localtimes: seq<LocalTime>

    constructor ()
      ensures transitions == [] && localtimes == []
    {
      transitions, localtimes := [], [];
    }

    method AddLocalTime(utcOffset: int, isDst: bool, desigIdx: int)
      modifies `localtimes
      ensures localtimes == old(localtimes) + [LocalTime(utcOffset, isDst, desigIdx)]
    {
      localtimes := localtimes + [LocalTime(utcOffset, isDst, desigIdx)];
    }

    /** Refused when the local time does not exist. */
    method AddTransition(utcTime: int, localtimeIdx: nat) returns (ok: bool)
      modifies `transitions
      ensures ok <==> localtimeIdx < |localtimes|
      ensures !ok ==> transitions == old(transitions)
      ensures ok ==> transitions == old(transitions) + [Transition(utcTime,
          utcTime + localtimes[localtimeIdx].utcOffset, localtimeIdx)]
    {
      if localtimeIdx >= |localtimes| {
        return false;
      }
      var lt := localtimes[localtimeIdx];
      transitions := transitions + [Transition(utcTime, utcTime + lt.utcOffset, localtimeIdx)];
      return true;
    }

    /** Fills the table from the lists of a file: it is built, in order, or some index is bad. */
    method ReadDataBlock(trans: seq<int>, indices: seq<nat>, types: seq<LocalTime>) returns (ok: bool)
      requires |trans| == |indices| && transitions == [] && localtimes == []
      modifies this
      ensures localtimes == types
      ensures ok <==> forall i :: 0 <= i < |indices| ==> indices[i] < |types|
      ensures ok ==> |transitions| == |trans|
      ensures ok ==>
        forall i :: 0 <= i < |trans| ==> transitions[i].utctime == trans[i] && transitions[i].localtimeIdx == indices[i]
      ensures types != [] ==> Built(transitions, localtimes)
    {
      for i := 0 to |types|
        invariant localtimes == types[..i] && transitions == []
      {
        AddLocalTime(types[i].utcOffset, types[i].isDst, types[i].desigIdx);
      }
      assert types[..|types|] == types;
      for i := 0 to |trans|
        invariant localtimes == types && |transitions| == i
        invariant forall j :: 0 <= j < i ==> indices[j] < |types|
        invariant forall j :: 0 <= j < i ==>
          transitions[j] == Transition(trans[j], trans[j] + types[indices[j]].utcOffset, indices[j])
      {
        var added := AddTransition(trans[i], indices[i]);
        if !added {
          return false;
        }
      }
      return true;
    }

    /** The local time in force at a moment. */
    method FindLocalTimeAt(utcTime: int) returns (local: LocalTime)
      requires Built(transitions, localtimes) && Rising(transitions)
      ensures local.utcOffset == LocalOf(transitions, localtimes, utcTime) - utcTime
      ensures transitions == [] || utcTime < transitions[0].utctime ==> local == localtimes[0]
      ensures forall i :: 0 <= i && InForce(transitions, utcTime, i) ==>
        local == localtimes[transitions[i].localtimeIdx]
    {
      if transitions == [] || utcTime < transitions[0].utctime {
        return localtimes[0];
      }
      var transI := UtcBound(transitions, utcTime);
      if transI != |transitions| {
        transI := transI - 1;
        local := localtimes[transitions[transI].localtimeIdx];
      } else {
        local := localtimes[transitions[|transitions| - 1].localtimeIdx];
      }
    }

    /** The local time meant by a broken-down time. */
    method FindLocalTime(lt: DateTime, postTransition: bool) returns (local: LocalTime)
      requires Built(transitions, localtimes) && Rising(transitions)
      ensures local.utcOffset == FromUtcTime(lt) - Back(transitions, localtimes, FromUtcTime(lt), postTransition)
    {
      hide FromUtcTime, LocalBound;
      var localtime := FromUtcTime(lt);
      if transitions == [] || localtime < transitions[0].localtime {
        BoundZero(transitions, localtime);
        return localtimes[0];
      }
      var transI := LocalBound(transitions, localtime);
      BoundZero(transitions, localtime);
      if transI == |transitions| {
        return localtimes[transitions[|transitions| - 1].localtimeIdx];
      }
      var prior := transitions[transI - 1];
      var priorSecond := transitions[transI].utctime - 1 + localtimes[prior.localtimeIdx].utcOffset;
      if priorSecond < localtime {
        return localtimes[if postTransition then transitions[transI].localtimeIdx else prior.localtimeIdx];
      }
      transI := transI - 1;
      if transI != 0 {
        prior := transitions[transI - 1];
        priorSecond := transitions[transI].utctime - 1 + localtimes[prior.localtimeIdx].utcOffset;
      }
      if localtime <= priorSecond {
        return localtimes[if postTransition then transitions[transI].localtimeIdx else prior.localtimeIdx];
      }
      return localtimes[transitions[transI].localtimeIdx];
    }

    /** The local time of a moment, broken down, and its offset. */
    method ToLocalTime(seconds: int) returns (localTime: DateTime, utcOffset: int)
      requires Built(transitions, localtimes) && Rising(transitions)
      ensures utcOffset == LocalOf(transitions, localtimes, seconds) - seconds
      ensures ProperTime(localTime) <==> LocalOf(transitions, localtimes, seconds) >= FIRST_SECOND
      ensures ProperTime(localTime) ==> FromUtcTime(localTime) == LocalOf(transitions, localtimes, seconds)
    {
      hide ProperTime, FromUtcTime;
      var local := FindLocalTimeAt(seconds);
      localTime := BreakTime(seconds + local.utcOffset);
      utcOffset := local.utcOffset;
    }

    /** The moment of a broken-down local time. */
    method FromLocalTime(localTime: DateTime, postTransition: bool) returns (t: int)
      requires Built(transitions, localtimes) && Rising(transitions)
      ensures t == Back(transitions, localtimes, FromUtcTime(localTime), postTransition)
      ensures Spaced(transitions, localtimes) ==>
        FromLocalOk(transitions, localtimes, FromUtcTime(localTime), postTransition, t)
    {
      hide FromUtcTime, Back, FromLocalOk, Spaced;
      var local := FindLocalTime(localTime, postTransition);
      t := FromUtcTime(localTime) - local.utcOffset;
      if Spaced(transitions, localtimes) {
        BackOk(transitions, localtimes, FromUtcTime(localTime), postTransition);
      }
    }
  }

  /** A moment of the local time, the one the choice prefers; or, if a transition skips it, the moment by
      the offset after it, or before it if the choice is that or the transition is the first. */
  ghost predicate FromLocalOk(ts: seq<Transition>, ls: seq<LocalTime>, l: int, post: bool, r: int)
    requires Built(ts, ls)
  {
    && (LocalOf(ts, ls, r) != l <==> exists i: nat :: SkippedAt(ts, ls, l, i))
    && (forall t :: LocalOf(ts, ls, t) == l && t != r ==> Preferred(ts, r, t, post))
    && (forall i: nat :: SkippedAt(ts, ls, l, i) ==>
      if post && i > 0 then r == l - Off(ts, ls, i) && LocalOf(ts, ls, r) < l
      else r == l - Off(ts, ls, i - 1) && l < LocalOf(ts, ls, r))
  }

  lemma BackOk(ts: seq<Transition>, ls: seq<LocalTime>, l: int, post: bool)
    requires Built(ts, ls) && Spaced(ts, ls)
    ensures FromLocalOk(ts, ls, l, post, Back(ts, ls, l, post))
  {
    hide LocalOf, Back, Preferred;
    var r := Back(ts, ls, l, post);
    BackExists(ts, ls, l, post);
    NoMoment(ts, ls, l);
    forall t | LocalOf(ts, ls, t) == l
      ensures t == r || Preferred(ts, r, t, post)
    {
      BackFinds(ts, ls, l, post, t);
    }
    forall i: nat | SkippedAt(ts, ls, l, i)
      ensures if post && i > 0 then r == l - Off(ts, ls, i) && LocalOf(ts, ls, r) < l
        else r == l - Off(ts, ls, i - 1) && l < LocalOf(ts, ls, r)
    {
      SkippedBack(ts, ls, l, post, i);
    }
  }

  lemma BoundZero(ts: seq<Transition>, l: int)
    ensures LocalBound(ts, l) == 0 <==> ts == [] || l < ts[0].localtime
  {
  }

  /** To broken-down local time and back. */
  method ThereAndBack(zone: Data, t: int, post: bool) returns (r: int)
    requires Built(zone.transitions, zone.localtimes) && Spaced(zone.transitions, zone.localtimes)
    requires LocalOf(zone.transitions, zone.localtimes, t) >= FIRST_SECOND
    ensures var ts, ls := zone.transitions, zone.localtimes;
      r == t <==> forall u :: LocalOf(ts, ls, u) == LocalOf(ts, ls, t) && u != t ==> Preferred(ts, t, u, post)
  {
    hide ProperTime, FromUtcTime, LocalOf, Back, Preferred;
    Ascending(zone.transitions, zone.localtimes);
    var localTime, _ := zone.ToLocalTime(t);
    r := zone.FromLocalTime(localTime, post);
    Recovers(zone.transitions, zone.localtimes, t, post);
  }
}
