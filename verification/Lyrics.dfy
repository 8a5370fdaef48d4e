/** Lyric lines: sorting on arrival, the highlighted line, and the three-line window. */
module Lyrics {
  import opened Playback

  datatype RawLine = RawLine(startTimeMs: int, words: string)
  datatype Line = Line(timeMs: int, text: string)
  datatype Row = Row(text: string, highlighted: bool)

  // ---------------------------------------------------------------------------
  // Conversion: map, then stable sort by time
  // ---------------------------------------------------------------------------

  ghost predicate Sorted(lines: seq<Line>) {
    forall i, j :: 0 <= i <= j < |lines| ==> lines[i].timeMs <= lines[j].timeMs
  }

  /** The lines with time `t`, in order. */
  ghost function WithTime(lines: seq<Line>, t: int): seq<Line> {
    if lines == [] then []
    else
      var rest := WithTime(lines[1..], t);
      if lines[0].timeMs == t then [lines[0]] + rest else rest
  }

  /** `b` is a stable sort of `a`: ascending, and lines of equal time keep their order. */
  ghost predicate StableSort(a: seq<Line>, b: seq<Line>) {
    && Sorted(b)
    && forall t :: WithTime(b, t) == WithTime(a, t)
  }

  lemma {:induction false} WithTimeConcat(a: seq<Line>, b: seq<Line>, t: int)
    ensures WithTime(a + b, t) == WithTime(a, t) + WithTime(b, t)
  {
    if a == [] {
      assert a + b == b;
    } else {
      WithTimeConcat(a[1..], b, t);
      assert (a + b)[1..] == a[1..] + b;
    }
  }

  lemma {:induction false} NoneWithTime(lines: seq<Line>, t: int)
    requires forall i :: 0 <= i < |lines| ==> lines[i].timeMs != t
    ensures WithTime(lines, t) == []
  {
    if lines != [] {
      NoneWithTime(lines[1..], t);
    }
  }

  /** Inserting after every line that is not later keeps the sort stable. */
  lemma InsertStable(done: seq<Line>, line: Line, p: nat, t: int)
    requires p <= |done| && forall i :: p <= i < |done| ==> done[i].timeMs > line.timeMs
    ensures WithTime(done[..p] + [line] + done[p..], t) == WithTime(done + [line], t)
  {
    assert done[..p] + [line] + done[p..] == done[..p] + ([line] + done[p..]);
    WithTimeConcat(done[..p], [line] + done[p..], t);
    WithTimeConcat([line], done[p..], t);
    assert done == done[..p] + done[p..];
    WithTimeConcat(done, [line], t);
    WithTimeConcat(done[..p], done[p..], t);
    if t == line.timeMs {
      NoneWithTime(done[p..], t);
    }
  }

  /** It also keeps the lines ascending. */
  lemma InsertSorted(done: seq<Line>, line: Line, p: nat)
    requires Sorted(done) && p <= |done| && (p > 0 ==> done[p - 1].timeMs <= line.timeMs)
    requires forall i :: p <= i < |done| ==> done[i].timeMs > line.timeMs
    ensures Sorted(done[..p] + [line] + done[p..])
  {
    var longer := done[..p] + [line] + done[p..];
    forall i, j | 0 <= i <= j < |longer|
      ensures longer[i].timeMs <= longer[j].timeMs
    {
      var a, b := if i < p then i else i - 1, if j < p then j else j - 1;
      assert i != p ==> longer[i] == done[a];
      assert j != p ==> longer[j] == done[b];
    }
  }

  /** One insertion extends a stable sort by one line. */
  lemma InsertExtends(lines: seq<Line>, done: seq<Line>, line: Line, p: nat)
    requires StableSort(lines, done) && p <= |done| && (p > 0 ==> done[p - 1].timeMs <= line.timeMs)
    requires forall i :: p <= i < |done| ==> done[i].timeMs > line.timeMs
    ensures StableSort(lines + [line], done[..p] + [line] + done[p..])
  {
    InsertSorted(done, line, p);
    hide Sorted, WithTime;
    forall t
      ensures WithTime(done[..p] + [line] + done[p..], t) == WithTime(lines + [line], t)
    {
      InsertStable(done, line, p, t);
      WithTimeConcat(lines, [line], t);
      WithTimeConcat(done, [line], t);
    }
  }

  /** `from` says where each of the first `n` positions takes its line from: earlier times, then earlier lines. */
  ghost predicate OrdersByTime(from: seq<nat>, times: seq<int>, n: nat) {
    && |from| == n <= |times|
    && (forall i :: 0 <= i < n ==> from[i] < n)
    && (forall i, j :: 0 <= i < j < n ==>
        times[from[i]] < times[from[j]] || (times[from[i]] == times[from[j]] && from[i] < from[j]))
  }

  lemma OrderNext(from: seq<nat>, times: seq<int>, n: nat, p: nat)
    requires OrdersByTime(from, times, n) && n < |times| && p <= n
    requires p > 0 ==> times[from[p - 1]] <= times[n]
    requires forall j :: p <= j < n ==> times[from[j]] > times[n]
    ensures OrdersByTime(from[..p] + [n] + from[p..], times, n + 1)
  {
    var longer := from[..p] + [n] + from[p..];
    assert forall i :: 0 <= i < p ==> times[from[i]] <= times[n];
    forall i, j | 0 <= i < j <= n
      ensures times[longer[i]] < times[longer[j]] || (times[longer[i]] == times[longer[j]] && longer[i] < longer[j])
    {
      var a, b := if i < p then i else i - 1, if j < p then j else j - 1;
      assert i != p ==> longer[i] == from[a];
      assert j != p ==> longer[j] == from[b];
    }
  }

  ghost function Times(lines: seq<Line>): (t: seq<int>)
    ensures |t| == |lines| && forall i :: 0 <= i < |t| ==> t[i] == lines[i].timeMs
  {
    seq(|lines|, i requires 0 <= i < |lines| => lines[i].timeMs)
  }

  /** `from` tells where each line of the result stood before. */
  method SortByTime(lines: seq<Line>) returns (sorted: seq<Line>, ghost from: seq<nat>)
    ensures StableSort(lines, sorted)
    ensures |sorted| == |lines| == |from|
    ensures forall i :: 0 <= i < |lines| ==> from[i] < |lines| && sorted[i] == lines[from[i]]
    ensures forall i, j :: 0 <= i < j < |lines| ==>
      || sorted[i].timeMs < sorted[j].timeMs
      || (sorted[i].timeMs == sorted[j].timeMs && from[i] < from[j])
  {
    hide StableSort;
    sorted, from := [], [];
    ghost var times := Times(lines);
    NothingSorted();
    for n := 0 to |lines|
      invariant |sorted| == n
      invariant StableSort(lines[..n], sorted)
      invariant OrdersByTime(from, times, n)
      invariant forall i :: 0 <= i < n ==> sorted[i] == lines[from[i]]
    {
      var line, p := lines[n], n;
      while p > 0 && sorted[p - 1].timeMs > line.timeMs
        invariant 0 <= p <= n
        invariant forall i :: p <= i < n ==> sorted[i].timeMs > line.timeMs
      {
        p := p - 1;
      }
      InsertExtends(lines[..n], sorted, line, p);
      assert lines[..n + 1] == lines[..n] + [line];
      OrderNext(from, times, n, p);
      sorted := sorted[..p] + [line] + sorted[p..];
      from := from[..p] + [n] + from[p..];
    }
    assert lines[..|lines|] == lines;
  }

  lemma NothingSorted()
    ensures StableSort([], [])
  {
  }

  function Parsed(raw: seq<RawLine>): seq<Line> {
    seq(|raw|, i requires 0 <= i < |raw| => Line(raw[i].startTimeMs, raw[i].words))
  }

  /** Every raw line once with its own time and words, by time, equal times in the order they came. */
  method FromRaw(raw: seq<RawLine>) returns (lines: seq<Line>, ghost from: seq<nat>)
    ensures StableSort(Parsed(raw), lines)
    ensures |lines| == |raw| == |from|
    ensures forall i :: 0 <= i < |raw| ==>
      && from[i] < |raw|
      && lines[i].timeMs == raw[from[i]].startTimeMs
      && lines[i].text == raw[from[i]].words
    ensures forall i, j :: 0 <= i < j < |raw| ==>
      || lines[i].timeMs < lines[j].timeMs
      || (lines[i].timeMs == lines[j].timeMs && from[i] < from[j])
  {
    lines, from := SortByTime(Parsed(raw));
  }

  lemma {:induction false} HasTime(lines: seq<Line>, i: nat)
    requires i < |lines|
    ensures WithTime(lines, lines[i].timeMs) != []
  {
    if i > 0 {
      HasTime(lines[1..], i - 1);
    }
  }

  lemma {:induction false} MembersHaveTime(lines: seq<Line>, t: int)
    ensures WithTime(lines, t) != [] ==> exists i :: 0 <= i < |lines| && lines[i].timeMs == t
  {
    if lines != [] && lines[0].timeMs != t {
      MembersHaveTime(lines[1..], t);
    }
  }

  lemma FirstNotLater(a: seq<Line>, b: seq<Line>)
    requires a != [] && Sorted(b) && forall t :: WithTime(a, t) == WithTime(b, t)
    ensures b != [] && b[0].timeMs <= a[0].timeMs
  {
    HasTime(a, 0);
    MembersHaveTime(b, a[0].timeMs);
  }

  /** Stability leaves no choice: any two stable sorts of the same lines are equal. */
  lemma {:induction false} StableSortUnique(lines: seq<Line>, a: seq<Line>, b: seq<Line>)
    requires StableSort(lines, a) && StableSort(lines, b)
    ensures a == b
  {
    SameGroupsSame(a, b);
  }

  lemma {:induction false} SameGroupsSame(a: seq<Line>, b: seq<Line>)
    requires Sorted(a) && Sorted(b) && forall t :: WithTime(a, t) == WithTime(b, t)
    ensures a == b
  {
    if a == [] {
      if b != [] {
        FirstNotLater(b, a);
      }
    } else {
      FirstNotLater(a, b);
      FirstNotLater(b, a);
      var t0 := a[0].timeMs;
      assert WithTime(a, t0)[0] == a[0] && WithTime(b, t0)[0] == b[0];
      forall t
        ensures WithTime(a[1..], t) == WithTime(b[1..], t)
      {
        var d := if t == t0 then 1 else 0;
        assert WithTime(a[1..], t) == WithTime(a, t)[d..];
        assert WithTime(b[1..], t) == WithTime(b, t)[d..];
      }
      SameGroupsSame(a[1..], b[1..]);
      assert a == [a[0]] + a[1..] && b == [b[0]] + b[1..];
    }
  }

  // ---------------------------------------------------------------------------
  // The highlighted line
  // ---------------------------------------------------------------------------

  const DISPLAY_OFFSET := 300

  /** Line `c` is the last one not later than the offset progress, or line 0 when all are later. */
  ghost predicate IsCurrent(lines: seq<Line>, progress: int, c: nat) {
    && c < |lines|
    && (c > 0 ==> lines[c].timeMs <= progress + DISPLAY_OFFSET)
    && forall j :: c < j < |lines| ==> lines[j].timeMs > progress + DISPLAY_OFFSET
  }

  method FindCurrent(lines: seq<Line>, progress: int) returns (current: nat)
    requires lines != [] && Sorted(lines)
    ensures IsCurrent(lines, progress, current)
    ensures current < |lines| && (current > 0 ==> lines[current].timeMs <= progress + 300)
    ensures forall j :: current < j < |lines| ==> lines[j].timeMs > progress + 300
  {
    current := 0;
    for i := 0 to |lines|
      invariant current == if i == 0 then 0 else i - 1
      invariant forall j :: 0 <= j < i ==> lines[j].timeMs <= progress + DISPLAY_OFFSET
    {
      if lines[i].timeMs <= progress + DISPLAY_OFFSET {
        current := i;
      } else {
        break;
      }
    }
  }

  lemma CurrentAscends(lines: seq<Line>, p: int, q: int, c: nat, d: nat)
    requires p <= q && IsCurrent(lines, p, c) && IsCurrent(lines, q, d)
    ensures c <= d
  {
  }

  // ---------------------------------------------------------------------------
  // The window
  // ---------------------------------------------------------------------------

  const WINDOW := 3

  /** The shown lines [start, end) around the current one. */
  function Window(n: nat, current: nat): (w: (int, int))
    requires current < n
    ensures 0 <= w.0 <= current < w.1 <= n
    ensures w.1 - w.0 == if n < 3 then n else 3
    ensures n >= 3 && 0 < current < n - 1 ==> w.0 == current - 1
  {
    var start := if current == 0 then 0 else current - 1;
    var end := Min(start + WINDOW, n);
    (if end >= WINDOW then end - WINDOW else 0, end)
  }

  method RenderCurlyrics(data: SpotifyData, lines: seq<Line>, now: int)
    returns (rows: seq<Row>, ghost current: nat)
    requires Sorted(lines)
    modifies data
    ensures lines == [] ==> rows == [] && data.Abs() == old(data.Abs())
    ensures lines != [] ==>
      && data.Abs() == Step(old(data.Abs()), Progress(now))
      && var progress := Reported(old(data.track), old(data.lastUpdated), now);
      && IsCurrent(lines, progress, current)
      && (current > 0 ==> lines[current].timeMs <= progress + 300)
      && (forall j :: current < j < |lines| ==> lines[j].timeMs > progress + 300)
      && var (start, end) := Window(|lines|, current);
      && |rows| == end - start
      && forall i :: start <= i < end ==> rows[i - start] == Row(lines[i].text, i == current)
  {
    rows, current := [], 0;
    if lines == [] {
      return;
    }
    var progress := data.PlaybackProgress(now);
    var cur := FindCurrent(lines, progress);
    current := cur;
    var (start, end) := Window(|lines|, cur);
    for i := start to end
      invariant |rows| == i - start
      invariant forall j :: start <= j < i ==> rows[j - start] == Row(lines[j].text, j == cur)
    {
      rows := rows + [Row(lines[i].text, i == cur)];
    }
  }

  /**
   * Over a run of renders of one playing snapshot with ascending clock readings, neither the
   * highlighted line nor the start of the window ever moves back.
   */
  lemma ScrollNeverMovesBack(s: State, nows: seq<int>, lines: seq<Line>, i: nat, j: nat, c: nat, d: nat)
    requires s.track.isPlaying && Ascending(nows) && i <= j < |nows|
    requires IsCurrent(lines, ReportAt(s, nows, i), c) && IsCurrent(lines, ReportAt(s, nows, j), d)
    ensures c <= d && Window(|lines|, c).0 <= Window(|lines|, d).0
  {
    ReportsAscend(s, nows, i, j);
    CurrentAscends(lines, ReportAt(s, nows, i), ReportAt(s, nows, j), c, d);
  }
}
