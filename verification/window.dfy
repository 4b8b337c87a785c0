/** The per-address sliding-window counter (`sliding_time_window_counts`):
    for every event, how many events of the same address fall in the closed
    trailing window [t - W, t] ending at its timestamp, and the peak of those
    counts that the brute-force detectors report. */
module SlidingWindow {
  import opened Seqs
  import opened Strings
  import opened Events

  /** One record of the scan: a timestamp and its window count. */
  datatype WindowCount = WindowCount(time: int, count: nat)

  /** A window of `minutes` minutes, in seconds. */
  function WindowSeconds(minutes: nat): nat {
    60 * minutes
  }

  /** Order-free reference: how many timestamps of `ts` lie in [t - w, t]. */
  function Load(ts: seq<int>, t: int, w: int): nat {
    CountIn(ts, t - w, t)
  }

  /** The load of a group's window is the number of events of that address
      inside it, each repeated record counted. */
  lemma LoadCountsEvents(events: seq<Event>, ip: string, t: int, w: int)
    ensures Load(TimesOf(events, ip), t, w) == |EventsIn(events, ip, t - w, t)|
  {
    TimesOfCountsEvents(events, ip, t - w, t);
  }

  /** The count the scan records at position i of ascending timestamps: the
      positions j <= i whose timestamp lies in [ts[i] - w, ts[i]], i.e. with
      ts[i] - ts[j] <= w. Positions after i are never looked at. */
  function CountAt(ts: seq<int>, i: nat, w: int): (n: nat)
    requires i < |ts|
    ensures n <= i + 1
    ensures w >= 0 ==> 1 <= n
  {
    assert ts[..i + 1][..i] == ts[..i];
    CountIn(ts[..i + 1], ts[i] - w, ts[i])
  }

  /** The positions j <= i whose timestamp is at most w seconds before ts[i]. */
  function EarlierInWindow(ts: seq<int>, i: nat, w: int): set<nat>
    requires i < |ts|
  {
    set j: nat | j <= i && ts[i] - ts[j] <= w
  }

  /** On ascending timestamps the recorded count is the number of positions
      j <= i with ts[i] - ts[j] <= w. */
  lemma CountAtCountsEarlierInWindow(ts: seq<int>, i: nat, w: int)
    requires Sorted(ts)
    requires i < |ts|
    ensures CountAt(ts, i, w) == |EarlierInWindow(ts, i, w)|
  {
    CountInIsIndexCount(ts[..i + 1], ts[i] - w, ts[i]);
    assert IndicesIn(ts[..i + 1], ts[i] - w, ts[i]) == EarlierInWindow(ts, i, w);
  }

  /** The functional specification of one group's scan: one record per
      timestamp, in the given (ascending) order. */
  function Counts(ts: seq<int>, w: int): (c: seq<WindowCount>)
    ensures |c| == |ts|
  {
    seq(|ts|, i requires 0 <= i < |ts| => WindowCount(ts[i], CountAt(ts, i, w)))
  }

  /** The counts of a table row, in order. */
  function CountValues(c: seq<WindowCount>): seq<int> {
    Project(c, (x: WindowCount) => x.count)
  }

  /** When the positions before `left` are too old and those from `left` to
      `i` are not, the count is the width of the window `i - left + 1`. */
  lemma CountAtIsWindowWidth(ts: seq<int>, i: nat, left: nat, w: int)
    requires Sorted(ts)
    requires left <= i < |ts|
    requires ts[i] - ts[left] <= w
    requires forall j :: 0 <= j < left ==> ts[j] < ts[i] - w
    ensures CountAt(ts, i, w) == i - left + 1
  {
    var prefix := ts[..i + 1];
    assert prefix == prefix[..left] + prefix[left..];
    CountInNone(prefix[..left], ts[i] - w, ts[i]);
    CountInAll(prefix[left..], ts[i] - w, ts[i]);
    CountInAppend(prefix[..left], prefix[left..], ts[i] - w, ts[i]);
  }

  /** The two-pointer scan over one group's ascending timestamps: `left`
      advances only while the oldest event is strictly more than `w` seconds
      older than the current one, so the window is closed and never holds a
      later event. */
  method ScanWindow(ts: seq<int>, w: int) returns (counts: seq<WindowCount>)
    requires Sorted(ts)
    requires w >= 0
    ensures counts == Counts(ts, w)
    ensures forall i :: 0 <= i < |counts| ==> 1 <= counts[i].count <= i + 1
  {
    counts := [];
    var left := 0;
    var right := 0;
    while right < |ts|
      invariant 0 <= left <= right <= |ts|
      invariant |counts| == right
      invariant forall i :: 0 <= i < right ==> counts[i] == WindowCount(ts[i], CountAt(ts, i, w))
      invariant forall j :: 0 <= j < left ==> 0 < right && ts[j] < ts[right - 1] - w
    {
      while ts[right] - ts[left] > w
        invariant left <= right
        invariant forall j :: 0 <= j < left ==> ts[j] < ts[right] - w
        decreases right - left
      {
        left := left + 1;
      }
      CountAtIsWindowWidth(ts, right, left, w);
      counts := counts + [WindowCount(ts[right], right - left + 1)];
      right := right + 1;
    }
  }

  /** The timestamps of a scan's records, in record order. */
  function TimesIn(c: seq<WindowCount>): (ts: seq<int>)
    ensures |ts| == |c|
  {
    seq(|c|, i requires 0 <= i < |c| => c[i].time)
  }

  /** `sliding_time_window_counts`: for each address, in `groupby` order,
      its timestamps in ascending order, each with its window count. */
  method SlidingTimeWindowCounts(events: seq<Event>, windowMinutes: nat := 5)
    returns (table: seq<(string, seq<WindowCount>)>)
    ensures |table| == |Keys(events)|
    ensures forall k :: 0 <= k < |table| ==> table[k].0 == Keys(events)[k]
    ensures forall k :: 0 <= k < |table| ==> SortingOf(TimesIn(table[k].1), TimesOf(events, table[k].0))
    ensures forall k :: 0 <= k < |table| ==>
              table[k].1 == Counts(TimesIn(table[k].1), WindowSeconds(windowMinutes))
    ensures forall k, i :: 0 <= k < |table| && 0 <= i < |table[k].1| ==> 1 <= table[k].1[i].count <= i + 1
  {
    var keys := Keys(events);
    var w := WindowSeconds(windowMinutes);
    table := [];
    var k := 0;
    while k < |keys|
      invariant 0 <= k <= |keys|
      invariant |table| == k
      invariant forall m :: 0 <= m < k ==> table[m].0 == keys[m]
      invariant forall m :: 0 <= m < k ==> SortingOf(TimesIn(table[m].1), TimesOf(events, keys[m]))
      invariant forall m :: 0 <= m < k ==> table[m].1 == Counts(TimesIn(table[m].1), w)
      invariant forall m, i :: 0 <= m < k && 0 <= i < |table[m].1| ==> 1 <= table[m].1[i].count <= i + 1
    {
      var ts := SortAsc(TimesOf(events, keys[k]));
      var counts := ScanWindow(ts, w);
      assert TimesIn(counts) == ts;
      table := table + [(keys[k], counts)];
      k := k + 1;
    }
  }

  /** A row of the table is the scan of the group's ascending timestamps,
      and its first maximal record is what the brute-force detectors report. */
  lemma TableRowIsSortedScan(c: seq<WindowCount>, ts: seq<int>, w: int)
    requires SortingOf(TimesIn(c), ts)
    requires c == Counts(TimesIn(c), w)
    ensures c == Counts(SortAsc(ts), w)
    ensures |ts| > 0 ==> |c| > 0 && BruteForcePeak(ts, w) == c[FirstMaxIndex(CountValues(c))]
  {
    SortingUnique(TimesIn(c), SortAsc(ts), ts);
  }

  /** Causality: a count never exceeds the load of its whole window, since
      later events are not looked at. */
  lemma CountAtMostLoad(ts: seq<int>, i: nat, w: int)
    requires i < |ts|
    ensures CountAt(ts, i, w) <= Load(ts, ts[i], w)
  {
    assert ts == ts[..i + 1] + ts[i + 1..];
    CountInAppend(ts[..i + 1], ts[i + 1..], ts[i] - w, ts[i]);
  }

  /** At the last of a run of equal timestamps the count is the whole load
      of the window. */
  lemma CountAtLastTieIsLoad(ts: seq<int>, i: nat, w: int)
    requires Sorted(ts)
    requires i < |ts|
    requires i + 1 == |ts| || ts[i] < ts[i + 1]
    ensures CountAt(ts, i, w) == Load(ts, ts[i], w)
  {
    assert ts == ts[..i + 1] + ts[i + 1..];
    CountInNone(ts[i + 1..], ts[i] - w, ts[i]);
    CountInAppend(ts[..i + 1], ts[i + 1..], ts[i] - w, ts[i]);
  }

  /** The last position holding the same timestamp as position i. */
  lemma LastOfTies(ts: seq<int>, i: nat) returns (l: nat)
    requires Sorted(ts)
    requires i < |ts|
    ensures i <= l < |ts| && ts[l] == ts[i]
    ensures l + 1 == |ts| || ts[l] < ts[l + 1]
    decreases |ts| - i
  {
    if i + 1 == |ts| || ts[i] < ts[i + 1] {
      l := i;
    } else {
      l := LastOfTies(ts, i + 1);
    }
  }

  /** Events with the same timestamp fall in each other's window even when
      `w` is zero: the count at i includes every earlier tie. */
  lemma EqualTimesInWindow(ts: seq<int>, i: nat, j: nat, w: int)
    requires Sorted(ts)
    requires j <= i < |ts|
    requires ts[j] == ts[i]
    requires w >= 0
    ensures CountAt(ts, i, w) >= i - j + 1
  {
    var prefix := ts[..i + 1];
    assert prefix == prefix[..j] + prefix[j..];
    CountInAll(prefix[j..], ts[i] - w, ts[i]);
    CountInAppend(prefix[..j], prefix[j..], ts[i] - w, ts[i]);
  }

  /** A wider window never gives a smaller count. */
  lemma CountMonotoneInWindow(ts: seq<int>, i: nat, w1: int, w2: int)
    requires i < |ts|
    requires w1 <= w2
    ensures CountAt(ts, i, w1) <= CountAt(ts, i, w2)
  {
    CountInWiden(ts[..i + 1], ts[i] - w1, ts[i], ts[i] - w2, ts[i]);
  }

  /** Reference peak: the largest window load over the group's timestamps
      (0 for an empty group). */
  function PeakLoad(ts: seq<int>, w: int): (m: nat) {
    if |ts| == 0 then 0 else MaxOf(ts, x => Load(ts, x, w))
  }

  /** Reference peak time: the earliest timestamp whose window load is the peak. */
  function PeakTime(ts: seq<int>, w: int): int
    requires |ts| > 0
  {
    MinWhere(ts, x => Load(ts, x, w), PeakLoad(ts, w))
  }

  /** Sorting changes neither the loads nor the set of timestamps. */
  lemma SortingKeepsLoads(s: seq<int>, ts: seq<int>, w: int)
    requires SortingOf(s, ts)
    ensures forall x :: Load(s, x, w) == Load(ts, x, w)
    ensures forall x :: x in ts <==> x in s
  {
    forall x
      ensures Load(s, x, w) == Load(ts, x, w)
    {
      CountInPermutation(s, ts, x - w, x);
    }
    forall x
      ensures x in ts <==> x in s
    {
      assert x in ts <==> x in multiset(ts);
      assert x in s <==> x in multiset(s);
    }
  }

  /** The load of every timestamp of an ascending group is a count the scan records. */
  lemma LoadIsRecorded(s: seq<int>, x: int, w: int) returns (l: nat)
    requires Sorted(s)
    requires x in s
    ensures l < |s| && s[l] == x
    ensures CountAt(s, l, w) == Load(s, x, w)
  {
    var i :| 0 <= i < |s| && s[i] == x;
    l := LastOfTies(s, i);
    CountAtLastTieIsLoad(s, l, w);
  }

  /** The largest count of the scan is the reference peak load. */
  lemma MaxCountIsPeakLoad(s: seq<int>, ts: seq<int>, w: int)
    requires SortingOf(s, ts)
    requires |ts| > 0
    ensures |s| > 0
    ensures var xs := CountValues(Counts(s, w));
            xs[FirstMaxIndex(xs)] == PeakLoad(ts, w)
  {
    assert |s| == |multiset(ts)| == |ts|;
    var xs := CountValues(Counts(s, w));
    var k := FirstMaxIndex(xs);
    SortingKeepsLoads(s, ts, w);
    forall x | x in ts
      ensures Load(ts, x, w) <= xs[k]
    {
      var l := LoadIsRecorded(s, x, w);
      assert xs[l] == CountAt(s, l, w);
    }
    CountAtMostLoad(s, k, w);
    assert s[k] in ts;
  }

  /** The reference peak time is a position of the sorted group whose
      recorded count is the reference peak load. */
  lemma PeakTimeIsRecorded(s: seq<int>, ts: seq<int>, w: int) returns (l: nat)
    requires SortingOf(s, ts)
    requires |ts| > 0
    ensures l < |s| && s[l] == PeakTime(ts, w)
    ensures CountAt(s, l, w) == PeakLoad(ts, w)
  {
    var y := PeakTime(ts, w);
    assert y in s by {
      assert y in multiset(ts);
    }
    CountInPermutation(s, ts, y - w, y);
    l := LoadIsRecorded(s, y, w);
  }

  /** Every recorded count is at most the reference load of its timestamp,
      which is a timestamp of the group. */
  lemma RecordedAtMostLoad(s: seq<int>, ts: seq<int>, w: int, k: nat)
    requires SortingOf(s, ts)
    requires k < |s|
    ensures s[k] in ts
    ensures CountAt(s, k, w) <= Load(ts, s[k], w)
  {
    assert s[k] in multiset(s);
    CountAtMostLoad(s, k, w);
    CountInPermutation(s, ts, s[k] - w, s[k]);
  }

  /** The scan's first maximal record is the earliest timestamp at which the
      reference load peaks, and its count is that peak. */
  lemma FirstMaxIsEarliestPeak(s: seq<int>, ts: seq<int>, w: int)
    requires SortingOf(s, ts)
    requires |ts| > 0
    ensures |s| > 0
    ensures var c := Counts(s, w);
            var k := FirstMaxIndex(CountValues(c));
            c[k].count == PeakLoad(ts, w) && c[k].time == PeakTime(ts, w)
  {
    var xs := CountValues(Counts(s, w));
    MaxCountIsPeakLoad(s, ts, w);
    var k := FirstMaxIndex(xs);
    var l := PeakTimeIsRecorded(s, ts, w);
    assert xs[l] == xs[k];
    RecordedAtMostLoad(s, ts, w, k);
  }

  /** The per-address reduction of the brute-force detectors: the first
      record with the largest count in the group's scan (`max` keeps the first
      maximal element). For an empty group the count is 0, as in the source. */
  function BruteForcePeak(ts: seq<int>, w: int): (p: WindowCount)
    ensures p.count == PeakLoad(ts, w)
    ensures |ts| > 0 ==> p.time == PeakTime(ts, w)
  {
    if |ts| == 0 then WindowCount(0, 0)
    else
      var c := Counts(SortAsc(ts), w);
      FirstMaxIsEarliestPeak(SortAsc(ts), ts, w);
      c[FirstMaxIndex(CountValues(c))]
  }
}
