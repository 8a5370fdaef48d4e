/** The playback clock: reported progress, and the bounded re-query of the current track. */
module Playback {
  import opened Durations

  /** The fields of the playing-track snapshot that the clock reads. */
  datatype Track = Track(isPlaying: bool, progressMs: int, durationMs: int)

  datatype Event = GetCurrentlyPlayingTrack

  const MAX_QUERIES := 2

  /** Snapshot progress plus the whole milliseconds since the last update. */
  function Elapsed(track: Track, lastUpdated: int, now: int): int {
    track.progressMs + TruncDiv(now - lastUpdated, NANOS_PER_MILLI)
  }

  function Min(a: int, b: int): int {
    if a < b then a else b
  }

  /** What the clock reports: a paused track's own progress, a playing one's capped at the duration. */
  function Reported(track: Track, lastUpdated: int, now: int): int {
    if track.isPlaying then Min(Elapsed(track, lastUpdated, now), track.durationMs) else track.progressMs
  }

  /** What a call of the clock saw. */
  datatype Call = Paused | Below | AtEnd | Beyond

  function Classify(track: Track, lastUpdated: int, now: int): Call {
    var total := Elapsed(track, lastUpdated, now);
    if !track.isPlaying then Paused
    else if total < track.durationMs then Below
    else if total == track.durationMs then AtEnd
    else Beyond
  }

  // ---------------------------------------------------------------------------
  // The clock as a state machine
  // ---------------------------------------------------------------------------

  datatype State = State(track: Track, lastUpdated: int, queryCount: int, enqueued: nat)

  datatype Action =
    | WriteTrack(track: Track)
    | UpdateTime(now: int)
    | Progress(now: int)

  function Step(s: State, a: Action): State {
    match a
    case WriteTrack(track) => s.(track := track)
    case UpdateTime(now) => s.(lastUpdated := now)
    case Progress(now) =>
      match Classify(s.track, s.lastUpdated, now)
      case Below => s.(queryCount := 0)
      case Beyond =>
        if s.queryCount < MAX_QUERIES then s.(queryCount := s.queryCount + 1, enqueued := s.enqueued + 1) else s
      case _ => s
  }

  function Exec(s: State, actions: seq<Action>): State {
    if actions == [] then s
    else Step(Exec(s, actions[..|actions| - 1]), actions[|actions| - 1])
  }

  class SpotifyData {
    var track: Track
    var lastUpdated: int
    var queryCount: int
    var queue: seq<Event>

    function Abs(): State
      reads this
    {
      State(track, lastUpdated, queryCount, |queue|)
    }

    constructor (track: Track, now: int)
      ensures this.track == track && lastUpdated == now && queryCount == 0 && queue == []
    {
      this.track, lastUpdated, queryCount, queue := track, now, 0, [];
    }

    /** The whole milliseconds since the update are added to the snapshot's progress, up to the duration. */
    method PlaybackProgress(now: int) returns (progress: int)
      modifies this`queryCount, this`queue
      ensures Abs() == Step(old(Abs()), Progress(now))
      ensures progress == Reported(track, lastUpdated, now)
      ensures !track.isPlaying ==>
        progress == track.progressMs && queryCount == old(queryCount) && queue == old(queue)
      ensures track.isPlaying && now >= lastUpdated ==>
        var total := track.progressMs + (now - lastUpdated) / 1_000_000;
        var beyond := total > track.durationMs && old(queryCount) < 2;
        && progress == (if total < track.durationMs then total else track.durationMs)
        && queryCount == (if total < track.durationMs then 0 else old(queryCount) + if beyond then 1 else 0)
        && queue == old(queue) + if beyond then [GetCurrentlyPlayingTrack] else []
    {
      if !track.isPlaying {
        return track.progressMs;
      }
      progress := track.progressMs + TruncDiv(now - lastUpdated, NANOS_PER_MILLI);
      var duration := track.durationMs;
      if progress < duration {
        queryCount := 0;
      } else if progress > duration {
        progress := duration;
        if queryCount < MAX_QUERIES {
          queue := queue + [GetCurrentlyPlayingTrack];
          queryCount := queryCount + 1;
        }
      }
    }

    method UpdatePlaybackLastUpdatedTime(now: int)
      modifies this`lastUpdated
      ensures lastUpdated == now && Abs() == Step(old(Abs()), UpdateTime(now))
    {
      lastUpdated := now;
    }

    method WriteCurrentTrack(t: Track)
      modifies this`track
      ensures track == t && Abs() == Step(old(Abs()), WriteTrack(t))
    {
      track := t;
    }
  }

  /** What a call reports and how it counts, `d` whole milliseconds and a rest after the update. */
  lemma CallMeans(track: Track, lastUpdated: int, d: nat, e: nat)
    requires e < 1_000_000
    ensures var now, total := lastUpdated + d * 1_000_000 + e, track.progressMs + d;
            && Reported(track, lastUpdated, now) ==
                (if !track.isPlaying then track.progressMs
                 else if total < track.durationMs then total else track.durationMs)
            && (Classify(track, lastUpdated, now) == Paused <==> !track.isPlaying)
            && (Classify(track, lastUpdated, now) == Below <==> track.isPlaying && total < track.durationMs)
            && (Classify(track, lastUpdated, now) == Beyond <==> track.isPlaying && total > track.durationMs)
  {
    assert (d * 1_000_000 + e) / 1_000_000 == d;
  }

  /** The same for a clock that stands before the update: the milliseconds are cut toward zero. */
  lemma EarlyCallMeans(track: Track, lastUpdated: int, d: nat, e: nat)
    requires e < 1_000_000
    ensures var now, total := lastUpdated - d * 1_000_000 - e, track.progressMs - d;
            && Reported(track, lastUpdated, now) ==
                (if !track.isPlaying then track.progressMs
                 else if total < track.durationMs then total else track.durationMs)
            && (Classify(track, lastUpdated, now) == Paused <==> !track.isPlaying)
            && (Classify(track, lastUpdated, now) == Below <==> track.isPlaying && total < track.durationMs)
            && (Classify(track, lastUpdated, now) == Beyond <==> track.isPlaying && total > track.durationMs)
  {
    assert (d * 1_000_000 + e) / 1_000_000 == d;
  }

  // ---------------------------------------------------------------------------
  // How many queries a run enqueues
  // ---------------------------------------------------------------------------

  /** The calls of the clock in a run, each as what it saw. */
  ghost function History(s: State, actions: seq<Action>): seq<Call> {
    if actions == [] then []
    else
      var before, a := actions[..|actions| - 1], actions[|actions| - 1];
      var at := Exec(s, before);
      History(s, before) + if a.Progress? then [Classify(at.track, at.lastUpdated, a.now)] else []
  }

  /** Calls beyond the end since the last call below it. */
  ghost function BeyondSinceBelow(h: seq<Call>): nat {
    if h == [] || h[|h| - 1].Below? then 0
    else BeyondSinceBelow(h[..|h| - 1]) + if h[|h| - 1].Beyond? then 1 else 0
  }

  ghost function CountBelow(h: seq<Call>): nat {
    if h == [] then 0 else CountBelow(h[..|h| - 1]) + if h[|h| - 1].Below? then 1 else 0
  }

  lemma CallAdded(h: seq<Call>, c: Call)
    ensures CountBelow(h + [c]) == CountBelow(h) + if c.Below? then 1 else 0
    ensures BeyondSinceBelow(h + [c]) == if c.Below? then 0 else BeyondSinceBelow(h) + if c.Beyond? then 1 else 0
  {
    assert (h + [c])[..|h|] == h;
  }

  /** The counter is always the number of calls beyond the end since the last one below it, capped at two. */
  lemma {:induction false} CounterMeaning(s: State, actions: seq<Action>)
    requires s.queryCount == 0
    ensures Exec(s, actions).queryCount ==
            if BeyondSinceBelow(History(s, actions)) < 2 then BeyondSinceBelow(History(s, actions)) else 2
  {
    if actions != [] {
      var before := actions[..|actions| - 1];
      CounterMeaning(s, before);
      var at, a := Exec(s, before), actions[|actions| - 1];
      if a.Progress? {
        CallAdded(History(s, before), Classify(at.track, at.lastUpdated, a.now));
      } else {
        assert History(s, actions) == History(s, before);
      }
    }
  }

  /** A call enqueues a query exactly when it is one of the first two beyond the end since a call below it. */
  lemma EnqueuesIff(s: State, actions: seq<Action>, now: int)
    requires s.queryCount == 0
    ensures var at := Exec(s, actions);
            Step(at, Progress(now)).enqueued == at.enqueued +
              if Classify(at.track, at.lastUpdated, now).Beyond? && BeyondSinceBelow(History(s, actions)) < 2
              then 1 else 0
  {
    CounterMeaning(s, actions);
  }

  /** Over any run at most two queries per stretch, and a new stretch needs a call below the end. */
  lemma {:induction false} QueriesBounded(s: State, actions: seq<Action>)
    requires s.queryCount == 0 && s.enqueued == 0
    ensures var e := Exec(s, actions);
            && 0 <= e.queryCount <= 2
            && e.enqueued <= 2 * CountBelow(History(s, actions)) + e.queryCount
            && e.enqueued <= 2 * (1 + CountBelow(History(s, actions)))
  {
    if actions != [] {
      var before, a := actions[..|actions| - 1], actions[|actions| - 1];
      var at := Exec(s, before);
      QueriesBounded(s, before);
      if a.Progress? {
        CallAdded(History(s, before), Classify(at.track, at.lastUpdated, a.now));
      } else {
        assert History(s, actions) == History(s, before);
      }
    }
  }

  // ---------------------------------------------------------------------------
  // Progress never moves back
  // ---------------------------------------------------------------------------

  ghost predicate Ascending(nows: seq<int>) {
    forall i, j :: 0 <= i <= j < |nows| ==> nows[i] <= nows[j]
  }

  /** The clock calls at the given times, and nothing else. */
  ghost function Calls(nows: seq<int>): seq<Action> {
    seq(|nows|, i requires 0 <= i < |nows| => Progress(nows[i]))
  }

  /** What call `i` of such a run reports. */
  ghost function ReportAt(s: State, nows: seq<int>, i: nat): int
    requires i < |nows|
  {
    var at := Exec(s, Calls(nows)[..i]);
    Reported(at.track, at.lastUpdated, nows[i])
  }

  lemma {:induction false} CallsKeepSnapshot(s: State, nows: seq<int>, i: nat)
    requires i <= |nows|
    ensures var at := Exec(s, Calls(nows)[..i]); at.track == s.track && at.lastUpdated == s.lastUpdated
  {
    if i > 0 {
      CallsKeepSnapshot(s, nows, i - 1);
      assert Calls(nows)[..i][..i - 1] == Calls(nows)[..i - 1];
    }
  }

  /** With one playing snapshot, reports never fall and never pass the duration. */
  lemma ReportsAscend(s: State, nows: seq<int>, i: nat, j: nat)
    requires s.track.isPlaying && Ascending(nows) && i <= j < |nows|
    ensures ReportAt(s, nows, i) <= ReportAt(s, nows, j) <= s.track.durationMs
  {
    CallsKeepSnapshot(s, nows, i);
    CallsKeepSnapshot(s, nows, j);
    TruncDivMonotone(nows[i] - s.lastUpdated, nows[j] - s.lastUpdated, NANOS_PER_MILLI);
  }
}
