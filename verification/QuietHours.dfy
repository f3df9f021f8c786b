/** The instant a delivery notification becomes available: the CASE over the account's quiet hours
    in the organization's time zone. Instants are counted in microseconds, the resolution of the
    database clock. */
module QuietHours {
  import opened Options

  const DAY: int := 86_400_000_000

  type TimeOfDay = t: int | 0 <= t < DAY

  /** Local time of day of an instant; `offset` is the zone's offset from UTC. */
  function LocalTime(instant: int, offset: int): (t: int)
    ensures 0 <= t < DAY
  {
    (instant + offset) % DAY
  }

  /** The CASE expression on the local clock: the local reading at which the quiet hours end, or
      nothing if it is not quiet. A comparison with an absent value is not true, so a window with no
      end falls through to the last branch. */
  function Resumes(local: int, start: Option<TimeOfDay>, end: Option<TimeOfDay>): Option<int>
  {
    var date, time := local / DAY, local % DAY;
    if start.None? then None
    else if end.Some? && start.value < end.value && time >= start.value && time < end.value then
      Some(date * DAY + end.value)
    else if end.Some? && start.value > end.value && time >= start.value then
      Some((date + 1) * DAY + end.value)
    else if end.Some? && start.value > end.value && time < end.value then
      Some(date * DAY + end.value)
    else None
  }

  /** ... in a zone with one fixed offset, */
  function AvailableAt(now: int, offset: int, start: Option<TimeOfDay>, end: Option<TimeOfDay>): int
  {
    match Resumes(now + offset, start, end)
    case None => now
    case Some(local) => local - offset
  }

  /** ... and in any zone: its offset at each instant, and the instant `AT TIME ZONE` takes each local
      reading for. */
  function AvailableIn(now: int, zone: int -> int, resolve: int -> int, start: Option<TimeOfDay>,
                       end: Option<TimeOfDay>): int
  {
    match Resumes(now + zone(now), start, end)
    case None => now
    case Some(local) => resolve(local)
  }

  /** The quiet window as a half-open arc of the day, wrapping past midnight when it must. */
  predicate Quiet(time: int, start: Option<TimeOfDay>, end: Option<TimeOfDay>)
  {
    start.Some? && end.Some? && start.value != end.value
    && (time - start.value) % DAY < (end.value - start.value) % DAY
  }

  predicate QuietAt(instant: int, offset: int, start: Option<TimeOfDay>, end: Option<TimeOfDay>)
  {
    Quiet(LocalTime(instant, offset), start, end)
  }

  /** How far into the quiet arc an instant may still wait. */
  function Remaining(instant: int, offset: int, start: Option<TimeOfDay>, end: Option<TimeOfDay>): (r: int)
    requires start.Some? && end.Some?
    ensures 0 <= r < DAY
  {
    (end.value - LocalTime(instant, offset)) % DAY
  }

  /** Trying one clock tick after another until one is not quiet. */
  function Search(instant: int, offset: int, start: Option<TimeOfDay>, end: Option<TimeOfDay>): (r: int)
    ensures instant <= r
    ensures !QuietAt(r, offset, start, end)
    ensures forall t :: instant <= t < r ==> QuietAt(t, offset, start, end)
    decreases if QuietAt(instant, offset, start, end) then Remaining(instant, offset, start, end) + 1 else 0
  {
    if !QuietAt(instant, offset, start, end) then instant
    else
      TickStaysQuietOrEnds(instant, offset, start, end);
      Search(instant + 1, offset, start, end)
  }

  /** Modulus of a difference of two times of day. */
  lemma ArcOf(a: int, b: int)
    requires 0 <= a < DAY && 0 <= b < DAY
    ensures (a - b) % DAY == if a >= b then a - b else a - b + DAY
  {
  }

  lemma NextLocalTime(instant: int, offset: int)
    ensures LocalTime(instant + 1, offset)
         == if LocalTime(instant, offset) + 1 == DAY then 0 else LocalTime(instant, offset) + 1
  {
  }

  lemma TickStaysQuietOrEnds(instant: int, offset: int, start: Option<TimeOfDay>, end: Option<TimeOfDay>)
    requires QuietAt(instant, offset, start, end)
    ensures QuietAt(instant + 1, offset, start, end)
        ==> Remaining(instant + 1, offset, start, end) < Remaining(instant, offset, start, end)
  {
    var t, u := LocalTime(instant, offset), LocalTime(instant + 1, offset);
    NextLocalTime(instant, offset);
    ArcOf(end.value, t);
    ArcOf(end.value, u);
    ArcOf(t, start.value);
    ArcOf(u, start.value);
    ArcOf(end.value, start.value);
  }

  /** The window of the CASE branches is the arc. */
  lemma QuietByCases(time: int, start: TimeOfDay, end: TimeOfDay)
    requires 0 <= time < DAY
    ensures Quiet(time, Some(start), Some(end))
       <==> if start <= end then start <= time < end else time >= start || time < end
  {
    ArcOf(time, start);
    ArcOf(end, start);
  }

  lemma LocalTimeWithin(now: int, offset: int, d: int)
    requires 0 <= LocalTime(now, offset) + d < 2 * DAY
    ensures LocalTime(now + d, offset)
         == if LocalTime(now, offset) + d < DAY then LocalTime(now, offset) + d else LocalTime(now, offset) + d - DAY
  {
    var x := now + offset;
    assert x == DAY * (x / DAY) + x % DAY;
    assert now + d + offset == DAY * (x / DAY) + (x % DAY + d);
  }

  /** The notification becomes available at the earliest instant, now or later, whose local
      time is outside the quiet hours. */
  lemma AvailableAtIsEarliest(now: int, offset: int, start: Option<TimeOfDay>, end: Option<TimeOfDay>)
    ensures var at := AvailableAt(now, offset, start, end);
      && now <= at
      && !QuietAt(at, offset, start, end)
      && (forall t :: now <= t < at ==> QuietAt(t, offset, start, end))
  {
    var at := AvailableAt(now, offset, start, end);
    var time := LocalTime(now, offset);
    assert now + offset == (now + offset) / DAY * DAY + time;
    if start.Some? && end.Some? {
      QuietByCases(time, start.value, end.value);
      LocalTimeWithin(now, offset, at - now);
      QuietByCases(LocalTime(at, offset), start.value, end.value);
      forall t | now <= t < at ensures QuietAt(t, offset, start, end) {
        LocalTimeWithin(now, offset, t - now);
        QuietByCases(LocalTime(t, offset), start.value, end.value);
      }
    }
  }

  /** The closed form and the tick-by-tick search agree. */
  lemma AvailableAtIsSearch(now: int, offset: int, start: Option<TimeOfDay>, end: Option<TimeOfDay>)
    ensures AvailableAt(now, offset, start, end) == Search(now, offset, start, end)
  {
    AvailableAtIsEarliest(now, offset, start, end);
  }

  /** A queued notification waits less than one day. */
  lemma WaitIsBounded(now: int, offset: int, start: Option<TimeOfDay>, end: Option<TimeOfDay>)
    ensures AvailableAt(now, offset, start, end) < now + DAY
  {
    assert now + offset == (now + offset) / DAY * DAY + LocalTime(now, offset);
  }

  // ---- zones whose clock jumps -------------------------------------------------------------------------

  predicate QuietIn(instant: int, zone: int -> int, start: Option<TimeOfDay>, end: Option<TimeOfDay>)
  {
    QuietAt(instant, zone(instant), start, end)
  }

  ghost predicate IsEarliest(now: int, at: int, zone: int -> int, start: Option<TimeOfDay>, end: Option<TimeOfDay>)
  {
    && now <= at
    && !QuietIn(at, zone, start, end)
    && forall t :: now <= t < at ==> QuietIn(t, zone, start, end)
  }

  /** A clock that jumps once: at instant `jump` its offset changes. */
  datatype Jump = Jump(jump: int, before: int, after: int) {
    function Offset(instant: int): int
    {
      if instant < jump then before else after
    }

    /** The instant the database takes a reading for: of two, the later; for one that is skipped, by
        the offset before the jump. */
    function Resolve(reading: int): int
    {
      if reading - after >= jump then reading - after else reading - before
    }

    /** How long a wait that begins at an instant may last. */
    function Longest(): int
    {
      DAY + if before > after then before - after else 0
    }

    /** A zone that jumps like this, if at all, from now until the longest wait is over. What it does
        at other times does not matter. */
    ghost predicate Agrees(now: int, zone: int -> int, resolve: int -> int)
    {
      && (forall t :: now <= t < now + Longest() ==> zone(t) == Offset(t))
      && (forall r :: now + zone(now) <= r < now + zone(now) + DAY ==> resolve(r) == Resolve(r))
    }

    /** What decides whether a notification queued now is sent at the earliest instant: it is not
        quiet, or the jump is over, or the reading at which the quiet hours end
        - is shown before the jump and not again after it,
        - is the one the jump leaves from, to one that is not quiet,
        - is skipped by a jump of whole days, or
        - is shown first after the jump, which leads to a reading in the same quiet hours. */
    predicate OnTime(now: int, start: Option<TimeOfDay>, end: Option<TimeOfDay>)
    {
      var resumes := Resumes(now + Offset(now), start, end);
      resumes.None? || now >= jump
      || var r := resumes.value;
         if r < jump + after then
           || r < jump + before
           || (r == jump + before && !QuietAt(jump, after, start, end))
           || (r > jump + before && (after - before) % DAY == 0)
         else
           jump + before <= r && r - (end.value - start.value) % DAY <= jump + after
    }
  }

  lemma ModIs(v: int, k: int, m: int)
    requires v == DAY * k + m && 0 <= m < DAY
    ensures v % DAY == m
  {
  }

  /** The readings of the quiet hours that end at `r`, and the one just before them. */
  lemma WindowEndsAt(r: int, d: int, start: TimeOfDay, end: TimeOfDay)
    requires r % DAY == end && 0 < (end - start) % DAY
    ensures 0 < d <= (end - start) % DAY ==> QuietAt(r - d, 0, Some(start), Some(end))
    ensures d == (end - start) % DAY + 1 ==> !QuietAt(r - d, 0, Some(start), Some(end))
  {
    var len := (end - start) % DAY;
    var x := r - d;
    var k := r / DAY - x / DAY + (end - start) / DAY;
    assert r == DAY * (r / DAY) + end && x == DAY * (x / DAY) + x % DAY;
    assert x % DAY - start == DAY * k + (len - d);
    if 0 < d <= len {
      ModIs(x % DAY - start, k, len - d);
    } else if d == len + 1 {
      ModIs(x % DAY - start, k - 1, DAY - 1);
    }
  }

  /** Where quiet readings stop, the quiet hours end. */
  lemma QuietStopsAtEnd(y: int, start: TimeOfDay, end: TimeOfDay)
    requires QuietAt(y - 1, 0, Some(start), Some(end)) && !QuietAt(y, 0, Some(start), Some(end))
    ensures y % DAY == end
  {
    NextLocalTime(y - 1, 0);
    QuietByCases(LocalTime(y - 1, 0), start, end);
    QuietByCases(LocalTime(y, 0), start, end);
  }

  lemma SameTimeOfDay(x: int, y: int)
    ensures x % DAY == y % DAY <==> (y - x) % DAY == 0
  {
    assert x == DAY * (x / DAY) + x % DAY && y == DAY * (y / DAY) + y % DAY;
    if x % DAY == y % DAY {
      ModIs(y - x, y / DAY - x / DAY, 0);
    } else if (y - x) % DAY == 0 {
      ModIs(y, x / DAY + (y - x) / DAY, x % DAY);
    }
  }

  /** From a quiet reading on, every reading before `r` is quiet and `r`, less than a day away, is not. */
  lemma ResumesAtEnd(local: int, start: Option<TimeOfDay>, end: Option<TimeOfDay>)
    requires Resumes(local, start, end).Some?
    ensures var r := Resumes(local, start, end).value;
      && local < r < local + DAY && r % DAY == end.value && 0 < (end.value - start.value) % DAY
      && !QuietAt(r, 0, start, end)
      && (forall x :: local <= x < r ==> QuietAt(x, 0, start, end))
  {
    AvailableAtIsEarliest(local, 0, start, end);
    WaitIsBounded(local, 0, start, end);
    QuietByCases(local % DAY, start.value, end.value);
    ModIs(local / DAY * DAY + end.value, local / DAY, end.value);
    ModIs((local / DAY + 1) * DAY + end.value, local / DAY + 1, end.value);
  }

  lemma QuietInByOffset(t: int, zone: int -> int, o: int, start: Option<TimeOfDay>, end: Option<TimeOfDay>)
    requires zone(t) == o
    ensures QuietIn(t, zone, start, end) <==> QuietAt(t + o, 0, start, end)
  {
  }

  /** A notification queued in quiet hours before the jump: they end at the reading `r`. */
  ghost predicate Waits(now: int, zone: int -> int, j: Jump, r: int, start: TimeOfDay, end: TimeOfDay)
  {
    && (forall t :: now <= t < now + j.Longest() ==> zone(t) == j.Offset(t))
    && now < j.jump && now + j.before < r < now + j.before + DAY
    && r % DAY == end && 0 < (end - start) % DAY
    && !QuietAt(r, 0, Some(start), Some(end))
    && (forall x :: now + j.before <= x < r ==> QuietAt(x, 0, Some(start), Some(end)))
  }

  lemma QuietBeforeJump(now: int, zone: int -> int, j: Jump, r: int, start: TimeOfDay, end: TimeOfDay, t: int)
    requires Waits(now, zone, j, r, start, end) && now <= t < j.jump && t + j.before < r
    ensures QuietIn(t, zone, Some(start), Some(end))
  {
    QuietInByOffset(t, zone, j.before, Some(start), Some(end));
  }

  lemma ShownBeforeJump(now: int, zone: int -> int, j: Jump, r: int, start: TimeOfDay, end: TimeOfDay)
    requires Waits(now, zone, j, r, start, end) && r <= j.jump + j.before
    ensures IsEarliest(now, r - j.before, zone, Some(start), Some(end))
       <==> r < j.jump + j.before || !QuietAt(j.jump, j.after, Some(start), Some(end))
  {
    var at := r - j.before;
    forall t | now <= t < at ensures QuietIn(t, zone, Some(start), Some(end)) {
      QuietBeforeJump(now, zone, j, r, start, end, t);
    }
    QuietInByOffset(at, zone, j.Offset(at), Some(start), Some(end));
  }

  lemma ShiftedByDays(x: int, size: int, start: TimeOfDay, end: TimeOfDay)
    requires size % DAY == 0
    ensures QuietAt(x, 0, Some(start), Some(end)) <==> QuietAt(x + size, 0, Some(start), Some(end))
  {
    SameTimeOfDay(x, x + size);
  }

  lemma Skipped(now: int, zone: int -> int, j: Jump, r: int, start: TimeOfDay, end: TimeOfDay)
    requires Waits(now, zone, j, r, start, end) && j.jump + j.before < r < j.jump + j.after
    ensures IsEarliest(now, r - j.before, zone, Some(start), Some(end)) <==> (j.after - j.before) % DAY == 0
  {
    var at, size := r - j.before, j.after - j.before;
    var s, e := Some(start), Some(end);
    QuietInByOffset(at, zone, j.after, s, e);
    SameTimeOfDay(r, r + size);
    if size % DAY == 0 {
      forall t | now <= t < at ensures QuietIn(t, zone, s, e) {
        if t < j.jump {
          QuietBeforeJump(now, zone, j, r, start, end, t);
        } else {
          ShiftedByDays(t + j.before, size, start, end);
          QuietInByOffset(t, zone, j.after, s, e);
        }
      }
    } else if IsEarliest(now, at, zone, s, e) {
      QuietInByOffset(at - 1, zone, j.after, s, e);
      assert QuietIn(at - 1, zone, s, e);
      QuietStopsAtEnd(r + size, start, end);
    }
  }

  lemma ShownAfterJump(now: int, zone: int -> int, j: Jump, r: int, start: TimeOfDay, end: TimeOfDay)
    requires Waits(now, zone, j, r, start, end) && j.jump + j.after <= r && j.jump + j.before <= r
    ensures IsEarliest(now, r - j.after, zone, Some(start), Some(end))
       <==> r - (end - start) % DAY <= j.jump + j.after
  {
    var at, first := r - j.after, r - (end - start) % DAY - 1;
    var s, e := Some(start), Some(end);
    QuietInByOffset(at, zone, j.after, s, e);
    if first < j.jump + j.after {
      forall t | now <= t < at ensures QuietIn(t, zone, s, e) {
        if t < j.jump {
          QuietBeforeJump(now, zone, j, r, start, end, t);
        } else {
          QuietInByOffset(t, zone, j.after, s, e);
          WindowEndsAt(r, r - (t + j.after), start, end);
        }
      }
    } else {
      WindowEndsAt(r, r - first, start, end);
      QuietInByOffset(first - j.after, zone, j.after, s, e);
    }
  }

  lemma ShownTwice(now: int, zone: int -> int, j: Jump, r: int, start: TimeOfDay, end: TimeOfDay)
    requires Waits(now, zone, j, r, start, end) && j.jump + j.after <= r < j.jump + j.before
    ensures !IsEarliest(now, r - j.after, zone, Some(start), Some(end))
  {
    QuietInByOffset(r - j.before, zone, j.before, Some(start), Some(end));
  }

  /** A notification queued before the jump in quiet hours. */
  lemma WaitOverJump(now: int, zone: int -> int, j: Jump, r: int, start: TimeOfDay, end: TimeOfDay)
    requires Waits(now, zone, j, r, start, end) && Resumes(now + j.before, Some(start), Some(end)) == Some(r)
    ensures IsEarliest(now, j.Resolve(r), zone, Some(start), Some(end)) <==> j.OnTime(now, Some(start), Some(end))
  {
    if r < j.jump + j.after {
      if r <= j.jump + j.before {
        ShownBeforeJump(now, zone, j, r, start, end);
      } else {
        Skipped(now, zone, j, r, start, end);
      }
    } else if j.jump + j.before <= r {
      ShownAfterJump(now, zone, j, r, start, end);
    } else {
      ShownTwice(now, zone, j, r, start, end);
    }
  }

  /** ... and one queued when there is nothing to wait for, or no jump left. */
  lemma NoWait(now: int, zone: int -> int, start: Option<TimeOfDay>, end: Option<TimeOfDay>)
    requires Resumes(now + zone(now), start, end).None?
    ensures IsEarliest(now, now, zone, start, end)
  {
    AvailableAtIsEarliest(now + zone(now), 0, start, end);
    QuietInByOffset(now, zone, zone(now), start, end);
  }

  lemma WaitAfterJump(now: int, zone: int -> int, o: int, r: int, start: Option<TimeOfDay>, end: Option<TimeOfDay>)
    requires now + o < r && !QuietAt(r, 0, start, end) && forall t :: now <= t <= r - o ==> zone(t) == o
    requires forall x :: now + o <= x < r ==> QuietAt(x, 0, start, end)
    ensures IsEarliest(now, r - o, zone, start, end)
  {
    QuietInByOffset(r - o, zone, o, start, end);
    forall t | now <= t < r - o ensures QuietIn(t, zone, start, end) {
      QuietInByOffset(t, zone, o, start, end);
    }
  }

  /** In a zone that jumps at most once while the notification waits, it becomes available at the
      earliest instant outside the quiet hours exactly when `OnTime` says so. Wherever the jump is, the
      wait is bounded. */
  lemma AvailableInIsEarliestIff(now: int, zone: int -> int, resolve: int -> int, j: Jump,
                                 start: Option<TimeOfDay>, end: Option<TimeOfDay>)
    requires j.Agrees(now, zone, resolve)
    ensures var at := AvailableIn(now, zone, resolve, start, end);
      && (IsEarliest(now, at, zone, start, end) <==> j.OnTime(now, start, end))
      && now <= at < now + j.Longest()
  {
    var local := now + zone(now);
    assert zone(now) == j.Offset(now);
    match Resumes(local, start, end)
    case None =>
      NoWait(now, zone, start, end);
    case Some(r) =>
      ResumesAtEnd(local, start, end);
      assert resolve(r) == j.Resolve(r);
      if now < j.jump {
        WaitOverJump(now, zone, j, r, start.value, end.value);
      } else {
        WaitAfterJump(now, zone, j.after, r, start, end);
      }
  }

  const HOUR: int := 3_600_000_000

  /** Nights whose clock jumps one hour, forward or back, when it shows two. */
  const SPRING := Jump(2 * HOUR, 0, HOUR)
  const AUTUMN := Jump(2 * HOUR, 0, -HOUR)

  /** Quiet hours that end in a skipped hour are overslept: from one until half past two, the
      customer is reached half an hour later than need be. */
  lemma GapIsOverslept()
    ensures var start, end := Some(HOUR as TimeOfDay), Some((5 * HOUR / 2) as TimeOfDay);
      var at := AvailableIn(HOUR, t => SPRING.Offset(t), r => SPRING.Resolve(r), start, end);
      at == 5 * HOUR / 2 && 2 * HOUR < at && !QuietIn(2 * HOUR, t => SPRING.Offset(t), start, end)
  {
  }

  /** So are quiet hours whose end, half past one, is shown twice, ... */
  lemma RepeatedEndIsOverslept()
    ensures var start, end := Some((22 * HOUR) as TimeOfDay), Some((3 * HOUR / 2) as TimeOfDay);
      var at := AvailableIn(HOUR, t => AUTUMN.Offset(t), r => AUTUMN.Resolve(r), start, end);
      at == 5 * HOUR / 2 && 3 * HOUR / 2 < at && !QuietIn(3 * HOUR / 2, t => AUTUMN.Offset(t), start, end)
  {
  }

  /** ... and those that the clock leaves again when it goes back to one, a quarter before they begin. */
  lemma RepeatedStartIsOverslept()
    ensures var start, end := Some((5 * HOUR / 4) as TimeOfDay), Some((3 * HOUR) as TimeOfDay);
      var at := AvailableIn(3 * HOUR / 2, t => AUTUMN.Offset(t), r => AUTUMN.Resolve(r), start, end);
      at == 4 * HOUR && 2 * HOUR < at && !QuietIn(2 * HOUR, t => AUTUMN.Offset(t), start, end)
  {
  }
}
