/**
 * server/src/classroom/AttendanceService.js: the join and leave ledger of a room, merged over short
 * reconnections and summarised when the session ends. Instants are milliseconds.
 */
module Attendance {
  import opened Basics

  type UserId = string
  type RoomId = string

  const RECONNECT_GRACE_MS := 120_000

  /** An open interval has not ended yet. */
  datatype Interval = Interval(joinedAt: int, leftAt: Option<int>)

  datatype Record = Record(intervals: seq<Interval>, reconnects: nat, firstJoinedAt: int)

  // ---------------------------------------------------------------- joining and leaving

  /** What one join makes of a user's record. */
  function Joined(existing: Option<Record>, now: int): Record {
    if existing.None? then Record([Interval(now, None)], 0, now)
    else
      var r := existing.value;
      var n := |r.intervals|;
      if n > 0 && r.intervals[n - 1].leftAt.None? then r
      else if n > 0 && now - r.intervals[n - 1].leftAt.value <= RECONNECT_GRACE_MS then
        r.(intervals := r.intervals[n - 1 := r.intervals[n - 1].(leftAt := None)], reconnects := r.reconnects + 1)
      else r.(intervals := r.intervals + [Interval(now, None)])
  }

  /** A leave, or the end of the session, closes the open interval. */
  function Left(r: Record, now: int): Record {
    var n := |r.intervals|;
    if n > 0 && r.intervals[n - 1].leftAt.None?
    then r.(intervals := r.intervals[n - 1 := r.intervals[n - 1].(leftAt := Some(now))]) else r
  }

  // ---------------------------------------------------------------- the ledgers

  datatype Summary = Summary(firstJoinedAt: int, lastLeftAt: int, durationSec: int, reconnects: nat)

  class AttendanceService {
    var ledgers: map<RoomId, map<UserId, Record>>

    /** A user in a ledger has joined at least once. */
    ghost predicate Valid()
      reads this
    {
      forall room, user :: room in ledgers && user in ledgers[room] ==> ledgers[room][user].intervals != []
    }

    constructor ()
      ensures Valid() && ledgers == map[]
    {
      ledgers := map[];
    }

    function RecordOf(room: RoomId, user: UserId): Option<Record>
      reads this
    {
      if room in ledgers && user in ledgers[room] then Some(ledgers[room][user]) else None
    }

    method RecordJoin(room: RoomId, user: UserId, now: int) returns (r: Record)
      requires Valid()
      modifies this
      ensures Valid()
      ensures r == Joined(old(RecordOf(room, user)), now) && RecordOf(room, user) == Some(r)
      ensures forall q, u :: (q != room || u != user) ==> RecordOf(q, u) == old(RecordOf(q, u))
    {
      if room !in ledgers {
        ledgers := ledgers[room := map[]];
      }
      var ledger := ledgers[room];
      if user !in ledger {
        r := Record([Interval(now, None)], 0, now);
      } else {
        r := ledger[user];
        var n := |r.intervals|;
        if n > 0 && r.intervals[n - 1].leftAt.None? {
          return;
        }
        if n > 0 && now - r.intervals[n - 1].leftAt.value <= RECONNECT_GRACE_MS {
          var last := r.intervals[n - 1];
          r := r.(intervals := r.intervals[n - 1 := last.(leftAt := None)], reconnects := r.reconnects + 1);
        } else {
          r := r.(intervals := r.intervals + [Interval(now, None)]);
        }
      }
      ledgers := ledgers[room := ledger[user := r]];
    }

    method RecordLeave(room: RoomId, user: UserId, now: int) returns (r: Option<Record>)
      requires Valid()
      modifies this
      ensures Valid()
      ensures r == RecordOf(room, user)
      ensures r == if old(RecordOf(room, user)).Some? then Some(Left(old(RecordOf(room, user)).value, now)) else None
      ensures forall q, u :: (q != room || u != user) ==> RecordOf(q, u) == old(RecordOf(q, u))
    {
      if room !in ledgers || user !in ledgers[room] {
        return None;
      }
      var record := ledgers[room][user];
      var n := |record.intervals|;
      if n == 0 || record.intervals[n - 1].leftAt.Some? {
        return Some(record);
      }
      record := record.(intervals := record.intervals[n - 1 := Interval(record.intervals[n - 1].joinedAt, Some(now))]);
      ledgers := ledgers[room := ledgers[room][user := record]];
      return Some(record);
    }

    /** Closes the room's ledger: whoever is still connected leaves now, and every record is summarised. */
    method Finalise(room: RoomId, endedAt: int) returns (attendees: map<UserId, Summary>)
      requires Valid()
      modifies this
      ensures Valid()
      ensures attendees.Keys == if room in old(ledgers) then old(ledgers)[room].Keys else {}
      ensures forall u :: u in attendees ==> attendees[u] == Summarise(Left(old(ledgers)[room][u], endedAt), endedAt)
      ensures ledgers == old(ledgers) - {room}
    {
      if room !in ledgers {
        return map[];
      }
      var ledger := ledgers[room];
      ledgers := ledgers - {room};
      attendees := map u | u in ledger :: Summarise(Left(ledger[u], endedAt), endedAt);
    }
  }

  // ---------------------------------------------------------------- summaries

  /** Math.round of a number of milliseconds in seconds: halves go up. */
  function RoundSec(ms: int): int {
    (ms + 500) / 1000
  }

  function End(i: Interval, sessionEndedAt: int): int {
    if i.leftAt.Some? then i.leftAt.value else sessionEndedAt
  }

  /** The sum of the intervals' lengths, each rounded on its own. */
  function DurationSec(intervals: seq<Interval>, sessionEndedAt: int): int {
    if intervals == [] then 0
    else
      var last := intervals[|intervals| - 1];
      DurationSec(intervals[..|intervals| - 1], sessionEndedAt)
      + Max(0, RoundSec(End(last, sessionEndedAt) - last.joinedAt))
  }

  function Summarise(r: Record, sessionEndedAt: int): Summary
    requires r.intervals != []
  {
    Summary(r.firstJoinedAt, End(r.intervals[|r.intervals| - 1], sessionEndedAt),
            DurationSec(r.intervals, sessionEndedAt), r.reconnects)
  }

  // ---------------------------------------------------------------- what the ledger keeps

  /** Ordered, closed but for the last, and more than the grace period apart. */
  ghost predicate WellKept(r: Record, now: int) {
    && r.intervals != [] && r.intervals[0].joinedAt == r.firstJoinedAt
    && (forall i :: 0 <= i < |r.intervals| ==> r.intervals[i].joinedAt <= End(r.intervals[i], now) <= now)
    && (forall i :: 0 <= i < |r.intervals| - 1 ==> r.intervals[i].leftAt.Some?)
    && (forall i :: 0 < i < |r.intervals| ==>
          r.intervals[i].joinedAt - End(r.intervals[i - 1], now) > 120_000)
  }

  datatype Event = Join(at: int) | Leave(at: int)

  /** One user's record after a list of events; None before the first join. */
  function Recorded(events: seq<Event>): Option<Record> {
    if events == [] then None
    else
      var before := Recorded(events[..|events| - 1]);
      match events[|events| - 1]
      case Join(at) => Some(Joined(before, at))
      case Leave(at) => if before.Some? then Some(Left(before.value, at)) else None
  }

  ghost predicate ClockRuns(events: seq<Event>, now: int) {
    && (forall i :: 0 < i < |events| ==> events[i - 1].at <= events[i].at)
    && (events != [] ==> events[|events| - 1].at <= now)
  }

  lemma TimePasses(r: Record, at: int, now: int)
    requires WellKept(r, at) && at <= now
    ensures WellKept(r, now)
  {
  }

  lemma JoinKeeps(r: Record, now: int)
    requires WellKept(r, now)
    ensures WellKept(Joined(Some(r), now), now)
  {
    var r', n := Joined(Some(r), now), |r.intervals|;
    forall i | 0 < i < |r'.intervals|
      ensures r'.intervals[i].joinedAt - End(r'.intervals[i - 1], now) > RECONNECT_GRACE_MS
    {
      assert r'.intervals[i - 1] == r.intervals[i - 1];
      if i < n {
        assert r'.intervals[i].joinedAt == r.intervals[i].joinedAt;
      }
    }
  }

  lemma LeaveKeeps(r: Record, now: int)
    requires WellKept(r, now)
    ensures WellKept(Left(r, now), now)
  {
    var r' := Left(r, now);
    forall i | 0 < i < |r'.intervals|
      ensures r'.intervals[i].joinedAt - End(r'.intervals[i - 1], now) > RECONNECT_GRACE_MS
    {
      assert r'.intervals[i].joinedAt == r.intervals[i].joinedAt;
      assert End(r'.intervals[i - 1], now) == End(r.intervals[i - 1], now);
    }
  }

  /** Under a clock that never runs back, any sequence of joins and leaves keeps the ledger in order. */
  lemma {:induction false} LedgerIsWellKept(events: seq<Event>, now: int)
    requires ClockRuns(events, now)
    ensures Recorded(events).Some? ==> WellKept(Recorded(events).value, now)
  {
    if events != [] {
      var n := |events| - 1;
      var at := events[n].at;
      LedgerIsWellKept(events[..n], at);
      var before := Recorded(events[..n]);
      if before.Some? {
        JoinKeeps(before.value, at);
        LeaveKeeps(before.value, at);
      }
      if Recorded(events).Some? {
        TimePasses(Recorded(events).value, at, now);
      }
    }
  }

  // ---------------------------------------------------------------- reported durations

  /** The exact connected time in milliseconds. */
  function PresentMs(intervals: seq<Interval>, sessionEndedAt: int): int {
    if intervals == [] then 0
    else
      var last := intervals[|intervals| - 1];
      PresentMs(intervals[..|intervals| - 1], sessionEndedAt) + End(last, sessionEndedAt) - last.joinedAt
  }

  lemma {:induction false} DurationWithinSpan(r: Record, now: int)
    requires WellKept(r, now)
    ensures 0 <= DurationSec(r.intervals, now)
            <= RoundSec(End(r.intervals[|r.intervals| - 1], now) - r.intervals[0].joinedAt)
    decreases |r.intervals|
  {
    var n := |r.intervals| - 1;
    if n > 0 {
      var front := r.(intervals := r.intervals[..n]);
      assert forall i :: 0 <= i < n ==> front.intervals[i] == r.intervals[i];
      assert WellKept(front, now);
      DurationWithinSpan(front, now);
      assert r.intervals[n].joinedAt - End(r.intervals[n - 1], now) > RECONNECT_GRACE_MS;
    } else {
      assert r.intervals[..0] == [];
    }
  }

  lemma {:induction false} DurationNearPresence(r: Record, now: int)
    requires WellKept(r, now)
    ensures -500 * |r.intervals| < PresentMs(r.intervals, now) - 1000 * DurationSec(r.intervals, now) + 1
    ensures PresentMs(r.intervals, now) - 1000 * DurationSec(r.intervals, now) < 500 * |r.intervals|
    decreases |r.intervals|
  {
    var n := |r.intervals| - 1;
    if n > 0 {
      var front := r.(intervals := r.intervals[..n]);
      assert forall i :: 0 <= i < n ==> front.intervals[i] == r.intervals[i];
      assert WellKept(front, now);
      DurationNearPresence(front, now);
    } else {
      assert r.intervals[..0] == [];
    }
  }

  /**
   * Although every interval is rounded on its own, the reported duration never exceeds the rounded
   * span from first join to last leave, and it is within half a second per interval of the truth.
   */
  lemma ReportedDurationIsSound(events: seq<Event>, endedAt: int)
    requires ClockRuns(events, endedAt) && Recorded(events).Some?
    ensures var r := Left(Recorded(events).value, endedAt);
            && r.intervals != []
            && (var s := Summarise(r, endedAt);
                && 0 <= s.durationSec <= RoundSec(s.lastLeftAt - s.firstJoinedAt)
                && -500 * |r.intervals| <= PresentMs(r.intervals, endedAt) - 1000 * s.durationSec < 500 * |r.intervals|)
  {
    LedgerIsWellKept(events, endedAt);
    var before := Recorded(events).value;
    LeaveKeeps(before, endedAt);
    DurationWithinSpan(Left(before, endedAt), endedAt);
    DurationNearPresence(Left(before, endedAt), endedAt);
  }

  // ---------------------------------------------------------------- merging, said independently

  /** One connection of one device: from join to leave. */
  datatype Connection = Connection(from: int, to: int)

  /** Connections one after the other. */
  ghost predicate InOrder(cs: seq<Connection>) {
    && (forall i :: 0 <= i < |cs| ==> cs[i].from <= cs[i].to)
    && (forall i :: 0 < i < |cs| ==> cs[i - 1].to <= cs[i].from)
  }

  function EventsOf(cs: seq<Connection>): seq<Event> {
    if cs == [] then []
    else EventsOf(cs[..|cs| - 1]) + [Join(cs[|cs| - 1].from), Leave(cs[|cs| - 1].to)]
  }

  /** Connected time, with the interruptions short enough to be forgiven counted as connected. */
  function MergedMs(cs: seq<Connection>): int {
    if cs == [] then 0
    else
      var n := |cs| - 1;
      var gap := if n > 0 then cs[n].from - cs[n - 1].to else 0;
      MergedMs(cs[..n]) + cs[n].to - cs[n].from + (if gap <= RECONNECT_GRACE_MS then gap else 0)
  }

  /** How many interruptions were too long to be forgiven. */
  function LongBreaks(cs: seq<Connection>): nat {
    if |cs| <= 1 then 0
    else
      var n := |cs| - 1;
      LongBreaks(cs[..n]) + (if cs[n].from - cs[n - 1].to > 120_000 then 1 else 0)
  }

  lemma RecordedTwo(events: seq<Event>, from: int, to: int)
    ensures Recorded(events + [Join(from), Leave(to)]) == Some(Left(Joined(Recorded(events), from), to))
  {
    var all := events + [Join(from), Leave(to)];
    assert all[..|all| - 1] == events + [Join(from)];
    assert (events + [Join(from)])[..|events|] == events;
  }

  /** A whole connection after a closed interval either lengthens it or adds one of its own. */
  lemma OneConnection(r: Record, from: int, to: int)
    requires r.intervals != [] && r.intervals[|r.intervals| - 1].leftAt.Some?
    ensures var n := |r.intervals|; var last := r.intervals[n - 1];
            Left(Joined(Some(r), from), to) ==
              if from - last.leftAt.value <= RECONNECT_GRACE_MS
              then r.(intervals := r.intervals[..n - 1] + [Interval(last.joinedAt, Some(to))], reconnects := r.reconnects + 1)
              else r.(intervals := r.intervals + [Interval(from, Some(to))])
  {
    var n := |r.intervals|;
    var last := r.intervals[n - 1];
    if from - last.leftAt.value <= RECONNECT_GRACE_MS {
      assert r.intervals[n - 1 := Interval(last.joinedAt, Some(to))] == r.intervals[..n - 1] + [Interval(last.joinedAt, Some(to))];
    } else {
      assert (r.intervals + [Interval(from, None)])[n := Interval(from, Some(to))] == r.intervals + [Interval(from, Some(to))];
    }
  }

  lemma PresentSnoc(intervals: seq<Interval>, last: Interval, end: int)
    ensures PresentMs(intervals + [last], end) == PresentMs(intervals, end) + End(last, end) - last.joinedAt
  {
    assert (intervals + [last])[..|intervals|] == intervals;
  }

  ghost predicate Merged(cs: seq<Connection>, r: Record)
    requires cs != []
  {
    && r.intervals != [] && r.intervals[|r.intervals| - 1].leftAt == Some(cs[|cs| - 1].to)
    && r.firstJoinedAt == cs[0].from
    && |r.intervals| == 1 + LongBreaks(cs)
    && r.reconnects == |cs| - 1 - LongBreaks(cs)
    && PresentMs(r.intervals, 0) == MergedMs(cs)
  }

  /**
   * For connections that do not overlap the ledger is exactly what merging promises: one interval
   * per long break and one more, every short break a reconnect, and their lengths adding up to the
   * connected time with the short breaks filled in.
   */
  lemma {:induction false} LedgerMergesShortBreaks(cs: seq<Connection>)
    requires cs != [] && InOrder(cs)
    ensures Recorded(EventsOf(cs)).Some? && Merged(cs, Recorded(EventsOf(cs)).value)
    decreases |cs|
  {
    var n := |cs| - 1;
    RecordedTwo(EventsOf(cs[..n]), cs[n].from, cs[n].to);
    if n == 0 {
      assert cs[..0] == [];
      var r := Recorded(EventsOf(cs)).value;
      assert r.intervals == [] + [Interval(cs[0].from, Some(cs[0].to))];
      PresentSnoc([], r.intervals[0], 0);
    } else {
      LedgerMergesShortBreaks(cs[..n]);
      ConnectionAdds(Recorded(EventsOf(cs[..n])).value, cs[n - 1].to, cs[n].from, cs[n].to);
      OneMoreBreak(cs);
    }
  }

  lemma OneMoreBreak(cs: seq<Connection>)
    requires |cs| >= 2
    ensures var n := |cs| - 1; var gap := cs[n].from - cs[n - 1].to;
            && LongBreaks(cs) == LongBreaks(cs[..n]) + (if gap > RECONNECT_GRACE_MS then 1 else 0)
            && MergedMs(cs) == MergedMs(cs[..n]) + cs[n].to - cs[n].from + (if gap <= RECONNECT_GRACE_MS then gap else 0)
  {
  }

  lemma ConnectionAdds(r: Record, lastTo: int, from: int, to: int)
    requires r.intervals != [] && r.intervals[|r.intervals| - 1].leftAt == Some(lastTo)
    ensures var r' := Left(Joined(Some(r), from), to); var short := from - lastTo <= RECONNECT_GRACE_MS;
            && r'.intervals != [] && r'.intervals[|r'.intervals| - 1].leftAt == Some(to)
            && r'.firstJoinedAt == r.firstJoinedAt
            && |r'.intervals| == |r.intervals| + (if short then 0 else 1)
            && r'.reconnects == r.reconnects + (if short then 1 else 0)
            && PresentMs(r'.intervals, 0) == PresentMs(r.intervals, 0) + (to - from) + (if short then from - lastTo else 0)
  {
    var k := |r.intervals|;
    var last := r.intervals[k - 1];
    OneConnection(r, from, to);
    PresentSnoc(r.intervals[..k - 1], last, 0);
    PresentSnoc(r.intervals[..k - 1], Interval(last.joinedAt, Some(to)), 0);
    assert r.intervals == r.intervals[..k - 1] + [last];
    PresentSnoc(r.intervals, Interval(from, Some(to)), 0);
  }

  /** The summary of a record: from the first join to the last leave, or to the end for whoever stayed. */
  lemma {:induction false} SummaryOfRecord(events: seq<Event>, endedAt: int)
    requires ClockRuns(events, endedAt) && Recorded(events).Some?
    ensures var r := Recorded(events).value;
            && r.intervals != [] && Left(r, endedAt).intervals != []
            && var s := Summarise(Left(r, endedAt), endedAt);
               && s.firstJoinedAt == r.intervals[0].joinedAt
               && s.lastLeftAt == (match r.intervals[|r.intervals| - 1].leftAt
                                   case Some(at) => at
                                   case None => endedAt)
               && s.reconnects == r.reconnects
  {
    LedgerIsWellKept(events, endedAt);
  }

  /** For connections in sequence: first join, last leave, and a reconnect for every break that was forgiven. */
  lemma {:induction false} SummaryOfConnections(cs: seq<Connection>, endedAt: int)
    requires cs != [] && InOrder(cs)
    ensures Recorded(EventsOf(cs)).Some?
    ensures var r := Left(Recorded(EventsOf(cs)).value, endedAt);
            && r.intervals != []
            && var s := Summarise(r, endedAt);
               && s.firstJoinedAt == cs[0].from && s.lastLeftAt == cs[|cs| - 1].to
               && s.reconnects == |cs| - 1 - LongBreaks(cs)
  {
    LedgerMergesShortBreaks(cs);
  }

  // ---------------------------------------------------------------- several devices at once

  /** How many of the user's devices are connected after the events. */
  function Devices(events: seq<Event>): int {
    if events == [] then 0
    else Devices(events[..|events| - 1]) + if events[|events| - 1].Join? then 1 else -1
  }

  /** Nobody leaves who has not joined. */
  ghost predicate Balanced(events: seq<Event>) {
    forall i :: 0 <= i <= |events| ==> Devices(events[..i]) >= 0
  }

  /** Up to the last event: the time with a device connected, and the breaks that are short enough to be forgiven. */
  function PresenceMs(events: seq<Event>): int {
    if |events| <= 1 then 0
    else
      var n := |events| - 1;
      var gap := events[n].at - events[n - 1].at;
      PresenceMs(events[..n]) + if Devices(events[..n]) > 0 || gap <= RECONNECT_GRACE_MS then gap else 0
  }

  /** Up to a later instant. */
  function PresenceAt(events: seq<Event>, now: int): int
    requires events != []
  {
    PresenceMs(events) + if Devices(events) > 0 then now - events[|events| - 1].at else 0
  }

  /** When the ledger's last interval was closed; None while it is open. */
  function ClosedAt(r: Record): Option<int> {
    if r.intervals == [] then None else r.intervals[|r.intervals| - 1].leftAt
  }

  /** The next join comes too late to reopen the last interval. */
  predicate StartsAnew(events: seq<Event>, next: Event) {
    && next.Join? && Recorded(events).Some?
    && ClosedAt(Recorded(events).value).Some?
    && next.at - ClosedAt(Recorded(events).value).value > RECONNECT_GRACE_MS
  }

  /** The presence the ledger passed over before it started anew: from the leave that closed it to the last one. */
  function Lost(events: seq<Event>): int {
    if |events| <= 1 then 0
    else
      var n := |events| - 1;
      var front, at, before := events[..n], events[n].at, events[n - 1].at;
      Lost(front) +
      if !StartsAnew(front, events[n]) then 0
      else (if Devices(front) > 0 || at - before <= RECONNECT_GRACE_MS then at else before)
           - ClosedAt(Recorded(front).value).value
  }

  lemma {:induction false} ClosedLengths(intervals: seq<Interval>, now: int, later: int)
    requires forall i :: 0 <= i < |intervals| ==> intervals[i].leftAt.Some?
    ensures PresentMs(intervals, now) == PresentMs(intervals, later)
  {
    if intervals != [] {
      ClosedLengths(intervals[..|intervals| - 1], now, later);
    }
  }

  /** Only an open interval grows. */
  lemma {:induction false} LengthLater(r: Record, now: int, later: int)
    requires WellKept(r, now)
    ensures PresentMs(r.intervals, later) == PresentMs(r.intervals, now) + if ClosedAt(r).None? then later - now else 0
  {
    ClosedLengths(r.intervals[..|r.intervals| - 1], now, later);
  }

  lemma {:induction false} LengthAfterJoin(r: Record, at: int)
    requires r.intervals != []
    ensures PresentMs(Joined(Some(r), at).intervals, at) == PresentMs(r.intervals, at)
            + if ClosedAt(r).Some? && at - ClosedAt(r).value <= RECONNECT_GRACE_MS then at - ClosedAt(r).value else 0
  {
    var n := |r.intervals|;
    var last := r.intervals[n - 1];
    assert r.intervals == r.intervals[..n - 1] + [last];
    PresentSnoc(r.intervals[..n - 1], last, at);
    PresentSnoc(r.intervals[..n - 1], last.(leftAt := None), at);
    PresentSnoc(r.intervals, Interval(at, None), at);
    if ClosedAt(r).Some? && at - ClosedAt(r).value <= RECONNECT_GRACE_MS {
      assert Joined(Some(r), at).intervals == r.intervals[..n - 1] + [last.(leftAt := None)];
    }
  }

  lemma {:induction false} LengthAfterLeave(r: Record, at: int)
    requires r.intervals != []
    ensures PresentMs(Left(r, at).intervals, at) == PresentMs(r.intervals, at)
  {
    var n := |r.intervals|;
    var last := r.intervals[n - 1];
    assert r.intervals == r.intervals[..n - 1] + [last];
    PresentSnoc(r.intervals[..n - 1], last, at);
    PresentSnoc(r.intervals[..n - 1], last.(leftAt := Some(at)), at);
    if last.leftAt.None? {
      assert Left(r, at).intervals == r.intervals[..n - 1] + [last.(leftAt := Some(at))];
    }
  }

  /** The ledger against the presence, up to the last event. */
  ghost predicate Balances(events: seq<Event>)
    requires events != []
  {
    var at := events[|events| - 1].at;
    && Recorded(events).Some?
    && (var r := Recorded(events).value;
        && (ClosedAt(r).None? ==> Devices(events) > 0)
        && (ClosedAt(r).Some? ==> ClosedAt(r).value <= at)
        && Lost(events) >= 0
        && PresenceMs(events) == PresentMs(r.intervals, at) + Lost(events)
                                 + (if ClosedAt(r).Some? then at - ClosedAt(r).value else 0))
  }

  lemma {:induction false} OneMoreEvent(front: seq<Event>, next: Event)
    requires front != []
    ensures var events := front + [next]; var gap := next.at - front[|front| - 1].at;
            && Devices(events) == Devices(front) + (if next.Join? then 1 else -1)
            && Recorded(events) == (if next.Join? then Some(Joined(Recorded(front), next.at))
                                    else if Recorded(front).Some? then Some(Left(Recorded(front).value, next.at))
                                    else None)
            && PresenceMs(events) == PresenceMs(front) + (if Devices(front) > 0 || gap <= RECONNECT_GRACE_MS then gap else 0)
            && Lost(events) == Lost(front) +
                 (if !StartsAnew(front, next) then 0
                  else (if Devices(front) > 0 || gap <= RECONNECT_GRACE_MS then next.at else front[|front| - 1].at)
                       - ClosedAt(Recorded(front).value).value)
  {
    assert (front + [next])[..|front|] == front;
  }

  lemma {:induction false} FirstBalances(join: Event)
    requires join.Join?
    ensures Balances([join])
  {
    assert [join][..0] == [];
    PresentSnoc([], Interval(join.at, None), join.at);
    assert [Interval(join.at, None)] == [] + [Interval(join.at, None)];
  }

  lemma {:induction false} OneMoreBalances(front: seq<Event>, next: Event)
    requires front != [] && Balances(front) && front[|front| - 1].at <= next.at
    requires WellKept(Recorded(front).value, front[|front| - 1].at)
    requires Devices(front) >= 0 && Devices(front + [next]) >= 0
    ensures Balances(front + [next])
  {
    var r := Recorded(front).value;
    OneMoreEvent(front, next);
    LengthLater(r, front[|front| - 1].at, next.at);
    LengthAfterJoin(r, next.at);
    LengthAfterLeave(r, next.at);
  }

  lemma {:induction false} LedgerBalances(events: seq<Event>)
    requires events != [] && Balanced(events) && ClockRuns(events, events[|events| - 1].at)
    ensures Balances(events)
    decreases |events|
  {
    hide PresentMs;
    var n := |events| - 1;
    var front, at := events[..n], events[n].at;
    assert events[..n + 1] == events && Devices(events) >= 0;
    assert events == front + [events[n]];
    if n == 0 {
      FirstBalances(events[0]);
    } else {
      forall i | 0 <= i <= n ensures Devices(front[..i]) >= 0 {
        assert front[..i] == events[..i];
      }
      LedgerBalances(front);
      LedgerIsWellKept(front, events[n - 1].at);
      assert front[..n] == front;
      OneMoreBalances(front, events[n]);
    }
  }

  /** What the ledger misses: what it passed over, and what is still connected since it was closed. */
  function Missing(events: seq<Event>, now: int): int
    requires events != []
  {
    Lost(events) +
    if Recorded(events).None? || ClosedAt(Recorded(events).value).None? then 0
    else (if Devices(events) > 0 then now else events[|events| - 1].at) - ClosedAt(Recorded(events).value).value
  }

  /**
   * However the devices of one user come and go, the ledger never counts time without presence,
   * and it misses exactly the presence after a device's leave closed it while others stayed.
   */
  lemma {:induction false} LedgerMissesExactly(events: seq<Event>, now: int)
    requires events != [] && Balanced(events) && ClockRuns(events, now)
    ensures Recorded(events).Some? && Missing(events, now) >= 0
    ensures PresentMs(Recorded(events).value.intervals, now) == PresenceAt(events, now) - Missing(events, now)
  {
    var at := events[|events| - 1].at;
    LedgerBalances(events);
    LedgerIsWellKept(events, at);
    LengthLater(Recorded(events).value, at, now);
    assert Devices(events[..|events|]) >= 0 && events[..|events|] == events;
  }

  /** The leave that closed the ledger was that of the last connected device. */
  ghost predicate NobodyLeft(events: seq<Event>) {
    && events != [] && Recorded(events).Some?
    && ClosedAt(Recorded(events).value) == Some(events[|events| - 1].at) && Devices(events) == 0
  }

  /** Whenever the ledger starts anew, nobody had stayed when it was closed. */
  ghost predicate Unbroken(events: seq<Event>) {
    forall k :: 0 < k < |events| && StartsAnew(events[..k], events[k]) ==> NobodyLeft(events[..k])
  }

  lemma {:induction false} NothingLostIffUnbroken(events: seq<Event>)
    requires events != [] && Balanced(events) && ClockRuns(events, events[|events| - 1].at)
    ensures Lost(events) >= 0 && (Lost(events) == 0 <==> Unbroken(events))
    decreases |events|
  {
    var n := |events| - 1;
    if n > 0 {
      var front := events[..n];
      forall i | 0 <= i <= n ensures Devices(front[..i]) >= 0 {
        assert front[..i] == events[..i];
      }
      assert front[..n] == front;
      assert front + [events[n]] == events;
      hide Balances, Unbroken, StartsAnew, NobodyLeft, Lost;
      LedgerBalances(front);
      NothingLostIffUnbroken(front);
      UnbrokenSplits(events);
      OneMoreLost(front, events[n]);
    }
  }

  /** Starting anew loses something unless nobody had stayed. */
  lemma {:induction false} OneMoreLost(front: seq<Event>, next: Event)
    requires front != [] && Balances(front) && Devices(front) >= 0 && front[|front| - 1].at <= next.at
    ensures Lost(front + [next]) >= Lost(front)
    ensures Lost(front + [next]) == Lost(front) <==> (StartsAnew(front, next) ==> NobodyLeft(front))
  {
    OneMoreEvent(front, next);
  }

  lemma {:induction false} UnbrokenSplits(events: seq<Event>)
    requires |events| > 1
    ensures var n := |events| - 1;
            Unbroken(events) <==> Unbroken(events[..n]) && (StartsAnew(events[..n], events[n]) ==> NobodyLeft(events[..n]))
  {
    var n := |events| - 1;
    forall k | 0 < k < n ensures events[..n][..k] == events[..k] && events[..n][k] == events[k] {
    }
  }

  /**
   * The ledger equals the presence exactly when every leave that closed it for longer than the
   * grace period, and the one that closes it now, was that of the last connected device.
   */
  lemma {:induction false} LedgerIsExactIffUnbroken(events: seq<Event>, now: int)
    requires events != [] && Balanced(events) && ClockRuns(events, now)
    ensures Recorded(events).Some?
    ensures var closed := ClosedAt(Recorded(events).value);
            PresentMs(Recorded(events).value.intervals, now) == PresenceAt(events, now) <==>
              Unbroken(events) && (closed.None? || closed == Some(now) || NobodyLeft(events))
  {
    LedgerMissesExactly(events, now);
    NothingLostIffUnbroken(events);
    LedgerBalances(events);
    assert Devices(events[..|events|]) >= 0 && events[..|events|] == events;
  }
}
