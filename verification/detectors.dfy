/** The four detectors of the engine. Each filters or groups the event table
    by source address, reduces every group to a peak statistic, and emits an
    incident for the addresses whose peak reaches the threshold (`>=`). */
module Detectors {
  import opened Seqs
  import opened Strings
  import opened Events
  import opened SlidingWindow
  import opened Incidents

  /** The events whose status code equals `statusCode`, in table order and
      each repeated record kept. */
  function WithStatus(events: seq<Event>, statusCode: int): (r: seq<Event>)
    ensures IsSubsequence(r, events)
    ensures forall e :: multiset(r)[e] == if e.status == statusCode then multiset(events)[e] else 0
  {
    Select(events, (e: Event) => e.status == statusCode)
  }

  /** The literal the SSH detector searches for. */
  const FailedPassword: string := "Failed password"

  /** The events whose message text contains "Failed password" somewhere,
      in table order and each repeated record kept. */
  function FailedLogins(events: seq<Event>): (r: seq<Event>)
    ensures IsSubsequence(r, events)
    ensures forall e :: multiset(r)[e] ==
              if exists i :: OccursAt(e.msg, FailedPassword, i) then multiset(events)[e] else 0
  {
    forall e: Event ensures Contains(e.msg, FailedPassword) <==> exists i :: OccursAt(e.msg, FailedPassword, i) {
      ContainsIffOccurs(e.msg, FailedPassword);
    }
    Select(events, (e: Event) => Contains(e.msg, FailedPassword))
  }

  /** The part the two brute-force detectors share: nothing for an empty
      selection; otherwise, per address of the selection in `groupby` order,
      the peak of its sliding-window scan, reported when it reaches
      `threshold`. `make` builds the finding from the peak count and time. */
  function BruteforceReports(failing: seq<Event>, threshold: int, w: int, make: (nat, int) -> Finding)
    : (r: seq<Incident>)
    ensures failing == [] ==> r == []
    ensures forall ip :: Reports(r, ip) <==>
              ip in IpSet(failing) && PeakLoad(TimesOf(failing, ip), w) >= threshold
    ensures forall inc :: inc in r ==>
              var ts := TimesOf(failing, inc.ip);
              inc.blacklisted.None? && |ts| > 0 && inc.finding == make(PeakLoad(ts, w), PeakTime(ts, w))
    ensures IpsAscending(r)
  {
    if failing == [] then []
    else
      var flag := ip => BruteForcePeak(TimesOf(failing, ip), w).count >= threshold;
      var find := ip => var p := BruteForcePeak(TimesOf(failing, ip), w); make(p.count, p.time);
      ReportEachAscending(Keys(failing), flag, find);
      ReportEach(Keys(failing), flag, find)
  }

  /** `detect_apache_bruteforce`: the events with the given status code,
      grouped by address; an address is flagged when the largest number of
      its such events inside one trailing window of `windowMinutes` minutes
      reaches `threshold`, and the incident carries that number and the
      earliest time it is reached. */
  function DetectApacheBruteforce(events: seq<Event>, statusCode: int := 401, threshold: int := 20,
                                  windowMinutes: nat := 5)
    : (r: seq<Incident>)
    ensures WithStatus(events, statusCode) == [] ==> r == []
    ensures forall ip :: Reports(r, ip) <==>
              ip in IpSet(WithStatus(events, statusCode)) &&
              PeakLoad(TimesOf(WithStatus(events, statusCode), ip), WindowSeconds(windowMinutes)) >= threshold
    ensures forall inc :: inc in r ==>
              var ts := TimesOf(WithStatus(events, statusCode), inc.ip);
              var w := WindowSeconds(windowMinutes);
              inc.blacklisted.None? && |ts| > 0 &&
              inc.finding == ApacheBruteforce(statusCode, PeakLoad(ts, w), PeakTime(ts, w))
    ensures IpsAscending(r)
  {
    BruteforceReports(WithStatus(events, statusCode), threshold, WindowSeconds(windowMinutes),
                      (n: nat, t: int) => ApacheBruteforce(statusCode, n, t))
  }

  /** `detect_ssh_bruteforce`: as the Apache detector, over the events whose
      message contains "Failed password". The `failedKeyword` parameter is
      accepted and ignored, as in the source. */
  function DetectSshBruteforce(events: seq<Event>, failedKeyword: string := FailedPassword, threshold: int := 10,
                              windowMinutes: nat := 10)
    : (r: seq<Incident>)
    ensures FailedLogins(events) == [] ==> r == []
    ensures forall ip :: Reports(r, ip) <==>
              ip in IpSet(FailedLogins(events)) &&
              PeakLoad(TimesOf(FailedLogins(events), ip), WindowSeconds(windowMinutes)) >= threshold
    ensures forall inc :: inc in r ==>
              var ts := TimesOf(FailedLogins(events), inc.ip);
              var w := WindowSeconds(windowMinutes);
              inc.blacklisted.None? && |ts| > 0 &&
              inc.finding == SshBruteforce(PeakLoad(ts, w), PeakTime(ts, w))
    ensures IpsAscending(r)
  {
    BruteforceReports(FailedLogins(events), threshold, WindowSeconds(windowMinutes),
                      (n: nat, t: int) => SshBruteforce(n, t))
  }

  /** One row of the per-address, per-minute event counts: a minute and
      how many of the address's events fall in it. */
  datatype MinuteBin = MinuteBin(minute: int, count: nat)

  /** The minute numbers of the timestamps: each timestamp rounded down to
      its whole minute, counted in minutes. */
  function Minutes(ts: seq<int>): (ms: seq<int>)
    ensures |ms| == |ts|
    ensures forall i :: 0 <= i < |ts| ==> 60 * ms[i] <= ts[i] < 60 * ms[i] + 60
    ensures forall m :: m in ms <==> exists t :: t in ts && 60 * m <= t < 60 * m + 60
  {
    var ms := seq(|ts|, i requires 0 <= i < |ts| => ts[i] / 60);
    assert forall m :: m in ms ==> exists t :: t in ts && 60 * m <= t < 60 * m + 60 by {
      forall m | m in ms
        ensures exists t :: t in ts && 60 * m <= t < 60 * m + 60
      {
        var i :| 0 <= i < |ms| && ms[i] == m;
        assert ts[i] in ts;
      }
    }
    assert forall t, m :: t in ts && 60 * m <= t < 60 * m + 60 ==> m in ms by {
      forall t, m | t in ts && 60 * m <= t < 60 * m + 60
        ensures m in ms
      {
        var i :| 0 <= i < |ts| && ts[i] == t;
        MinuteOfSecond(t, m);
        assert ms[i] == m;
      }
    }
    ms
  }

  /** The minute holding second `t` is unique: it is `t / 60`. */
  lemma MinuteOfSecond(t: int, m: int)
    requires 60 * m <= t < 60 * m + 60
    ensures t / 60 == m
  {
  }

  /** Order-free reference: how many timestamps of `ts` fall in minute `m`. */
  function BinLoad(ts: seq<int>, m: int): nat {
    CountIn(ts, 60 * m, 60 * m + 59)
  }

  /** Reference peak: the largest minute bin of the group (0 when empty). */
  function PeakBinLoad(ts: seq<int>): nat {
    if |ts| == 0 then 0 else MaxOf(Minutes(ts), m => BinLoad(ts, m))
  }

  /** Reference peak minute: the earliest minute whose bin is the largest. */
  function PeakMinute(ts: seq<int>): int
    requires |ts| > 0
  {
    MinWhere(Minutes(ts), m => BinLoad(ts, m), PeakBinLoad(ts))
  }

  lemma MinutesSorted(s: seq<int>)
    requires Sorted(s)
    ensures Sorted(Minutes(s))
  {
  }

  /** Counting a minute among the minute numbers is counting its 60 seconds
      among the timestamps. */
  lemma {:induction false} MinuteCount(s: seq<int>, m: int)
    ensures CountIn(Minutes(s), m, m) == BinLoad(s, m)
  {
    if |s| > 0 {
      MinuteCount(s[..|s| - 1], m);
      assert Minutes(s)[..|s| - 1] == Minutes(s[..|s| - 1]);
    }
  }

  /** The bins of a sequence of minute numbers: consecutive equal minutes
      form one bin holding their number of occurrences. */
  function RunLengths(ms: seq<int>): (bins: seq<MinuteBin>)
    ensures |bins| <= |ms|
    ensures |bins| == 0 <==> |ms| == 0
  {
    if |ms| == 0 then []
    else
      var b := RunLengths(ms[..|ms| - 1]);
      var x := ms[|ms| - 1];
      if |b| > 0 && b[|b| - 1].minute == x then b[..|b| - 1] + [MinuteBin(x, b[|b| - 1].count + 1)]
      else b + [MinuteBin(x, 1)]
  }

  /** Every minute number has a bin and every bin is a minute number. */
  lemma {:induction false} RunLengthsCoverMinutes(ms: seq<int>)
    ensures forall m :: m in ms <==> exists i :: 0 <= i < |RunLengths(ms)| && RunLengths(ms)[i].minute == m
  {
    if |ms| > 0 {
      var init := ms[..|ms| - 1];
      var x := ms[|ms| - 1];
      var b := RunLengths(init);
      RunLengthsCoverMinutes(init);
      var bins := RunLengths(ms);
      assert ms == init + [x];
      assert forall m :: m in ms <==> m in init || m == x;
      if |b| > 0 && b[|b| - 1].minute == x {
        assert bins == b[..|b| - 1] + [MinuteBin(x, b[|b| - 1].count + 1)];
        assert forall i :: 0 <= i < |b| ==> bins[i].minute == b[i].minute;
        forall m | m in ms
          ensures exists i :: 0 <= i < |bins| && bins[i].minute == m
        {
          if m != x {
            var i :| 0 <= i < |b| && b[i].minute == m;
            assert bins[i].minute == m;
          } else {
            assert bins[|b| - 1].minute == m;
          }
        }
      } else {
        assert bins == b + [MinuteBin(x, 1)];
        assert forall i :: 0 <= i < |b| ==> bins[i] == b[i];
        assert bins[|b|].minute == x;
      }
    }
  }

  /** On ascending minute numbers the bins come in strictly ascending minute order. */
  lemma {:induction false} RunLengthsAscending(ms: seq<int>)
    requires Sorted(ms)
    ensures forall i, j :: 0 <= i < j < |RunLengths(ms)| ==> RunLengths(ms)[i].minute < RunLengths(ms)[j].minute
  {
    if |ms| > 0 {
      var init := ms[..|ms| - 1];
      var x := ms[|ms| - 1];
      var b := RunLengths(init);
      RunLengthsAscending(init);
      RunLengthsCoverMinutes(init);
      var bins := RunLengths(ms);
      forall i | 0 <= i < |b|
        ensures b[i].minute <= x
      {
        assert b[i].minute in init;
      }
      if |b| > 0 && b[|b| - 1].minute == x {
        assert bins == b[..|b| - 1] + [MinuteBin(x, b[|b| - 1].count + 1)];
        assert forall i :: 0 <= i < |b| ==> bins[i].minute == b[i].minute;
      } else {
        assert bins == b + [MinuteBin(x, 1)];
        assert forall i :: 0 <= i < |b| ==> bins[i] == b[i];
      }
    }
  }

  /** On ascending minute numbers every bin holds the number of occurrences
      of its minute: with the two lemmas above, the bins are the address's
      per-minute event counts. */
  lemma {:induction false} RunLengthsCount(ms: seq<int>)
    requires Sorted(ms)
    ensures forall i :: 0 <= i < |RunLengths(ms)| ==>
              RunLengths(ms)[i].count == CountIn(ms, RunLengths(ms)[i].minute, RunLengths(ms)[i].minute)
    decreases |ms|, 1
  {
    if |ms| > 0 {
      var b := RunLengths(ms[..|ms| - 1]);
      if |b| > 0 && b[|b| - 1].minute == ms[|ms| - 1] {
        RunLengthsCountSameMinute(ms);
      } else {
        RunLengthsCountNewMinute(ms);
      }
    }
  }

  /** The step of `RunLengthsCount` where the last minute extends the last bin. */
  lemma {:induction false} RunLengthsCountSameMinute(ms: seq<int>)
    requires Sorted(ms) && |ms| > 0
    requires var b := RunLengths(ms[..|ms| - 1]); |b| > 0 && b[|b| - 1].minute == ms[|ms| - 1]
    ensures forall i :: 0 <= i < |RunLengths(ms)| ==>
              RunLengths(ms)[i].count == CountIn(ms, RunLengths(ms)[i].minute, RunLengths(ms)[i].minute)
    decreases |ms|, 0
  {
    var init := ms[..|ms| - 1];
    var x := ms[|ms| - 1];
    var b := RunLengths(init);
    RunLengthsCount(init);
    RunLengthsAscending(init);
    var bins := RunLengths(ms);
    assert bins == b[..|b| - 1] + [MinuteBin(x, b[|b| - 1].count + 1)];
    forall i | 0 <= i < |bins|
      ensures bins[i].count == CountIn(ms, bins[i].minute, bins[i].minute)
    {
      var m := bins[i].minute;
      assert CountIn(ms, m, m) == CountIn(init, m, m) + (if m == x then 1 else 0);
      if i < |b| - 1 {
        assert bins[i] == b[i];
        assert b[i].minute < b[|b| - 1].minute;
      }
    }
  }

  /** A minute that does not extend the last bin is later than every bin
      and does not occur before. */
  lemma NewMinuteIsLater(ms: seq<int>)
    requires Sorted(ms) && |ms| > 0
    requires var b := RunLengths(ms[..|ms| - 1]); !(|b| > 0 && b[|b| - 1].minute == ms[|ms| - 1])
    ensures var b := RunLengths(ms[..|ms| - 1]);
            forall i :: 0 <= i < |b| ==> b[i].minute < ms[|ms| - 1]
    ensures CountIn(ms[..|ms| - 1], ms[|ms| - 1], ms[|ms| - 1]) == 0
  {
    var init := ms[..|ms| - 1];
    var x := ms[|ms| - 1];
    var b := RunLengths(init);
    RunLengthsAscending(init);
    RunLengthsCoverMinutes(init);
    forall i | 0 <= i < |b|
      ensures b[i].minute < x
    {
      assert b[i].minute in init;
      if i < |b| - 1 {
        assert b[i].minute < b[|b| - 1].minute;
        assert b[|b| - 1].minute in init;
      }
    }
    forall j | 0 <= j < |init|
      ensures init[j] != x
    {
      assert init[j] in init;
    }
    CountInNone(init, x, x);
  }

  /** The step of `RunLengthsCount` where the last minute opens a new bin. */
  lemma {:induction false} RunLengthsCountNewMinute(ms: seq<int>)
    requires Sorted(ms) && |ms| > 0
    requires var b := RunLengths(ms[..|ms| - 1]); !(|b| > 0 && b[|b| - 1].minute == ms[|ms| - 1])
    ensures forall i :: 0 <= i < |RunLengths(ms)| ==>
              RunLengths(ms)[i].count == CountIn(ms, RunLengths(ms)[i].minute, RunLengths(ms)[i].minute)
    decreases |ms|, 0
  {
    var init := ms[..|ms| - 1];
    var x := ms[|ms| - 1];
    var b := RunLengths(init);
    RunLengthsCount(init);
    NewMinuteIsLater(ms);
    var bins := RunLengths(ms);
    assert bins == b + [MinuteBin(x, 1)];
    forall i | 0 <= i < |bins|
      ensures bins[i].count == CountIn(ms, bins[i].minute, bins[i].minute)
    {
      var m := bins[i].minute;
      assert CountIn(ms, m, m) == CountIn(init, m, m) + (if m == x then 1 else 0);
      if i < |b| {
        assert bins[i] == b[i];
      }
    }
  }

  /** The counts of an address's minute bins, in order. */
  function BinCounts(bins: seq<MinuteBin>): seq<int> {
    Project(bins, (b: MinuteBin) => b.count)
  }

  /** The per-minute bins of a group's ascending timestamps. */
  function MinuteBins(s: seq<int>): seq<MinuteBin> {
    RunLengths(Minutes(s))
  }

  /** A group and any arrangement of it occupy the same minutes, and hold
      the same number of timestamps in each. */
  lemma SortingKeepsMinutes(s: seq<int>, ts: seq<int>)
    requires SortingOf(s, ts)
    ensures forall m :: m in Minutes(ts) <==> m in Minutes(s)
    ensures forall m :: CountIn(Minutes(s), m, m) == BinLoad(ts, m)
  {
    forall m
      ensures CountIn(Minutes(s), m, m) == BinLoad(ts, m)
    {
      MinuteCount(s, m);
      CountInPermutation(s, ts, 60 * m, 60 * m + 59);
    }
    forall m
      ensures m in Minutes(ts) <==> m in Minutes(s)
    {
      if m in Minutes(ts) {
        var t :| t in ts && 60 * m <= t < 60 * m + 60;
        assert t in multiset(ts);
        assert t in s;
      }
      if m in Minutes(s) {
        var t :| t in s && 60 * m <= t < 60 * m + 60;
        assert t in multiset(s);
        assert t in ts;
      }
    }
  }

  /** The scan's bins carry the reference bin loads, and every minute of
      the group has a bin. */
  lemma {:induction false} BinsAreBinLoads(s: seq<int>, ts: seq<int>)
    requires SortingOf(s, ts)
    ensures var bins := MinuteBins(s);
            (forall i :: 0 <= i < |bins| ==>
               bins[i].minute in Minutes(ts) && bins[i].count == BinLoad(ts, bins[i].minute)) &&
            (forall m :: m in Minutes(ts) ==> exists i :: 0 <= i < |bins| && bins[i].minute == m) &&
            (forall i, j :: 0 <= i < j < |bins| ==> bins[i].minute < bins[j].minute)
  {
    MinutesSorted(s);
    var ms := Minutes(s);
    RunLengthsCoverMinutes(ms);
    RunLengthsAscending(ms);
    RunLengthsCount(ms);
    SortingKeepsMinutes(s, ts);
  }

  /** The largest bin of the group's scan is the reference peak load. */
  lemma MaxBinIsPeakBinLoad(s: seq<int>, ts: seq<int>)
    requires SortingOf(s, ts)
    requires |ts| > 0
    ensures var bins := MinuteBins(s);
            |bins| > 0 &&
            var k := FirstMaxIndex(BinCounts(bins));
            bins[k].count == PeakBinLoad(ts) && bins[k].minute in Minutes(ts) &&
            BinLoad(ts, bins[k].minute) == PeakBinLoad(ts)
  {
    var bins := MinuteBins(s);
    BinsAreBinLoads(s, ts);
    assert Minutes(ts)[0] in Minutes(ts);
    var xs := BinCounts(bins);
    var k := FirstMaxIndex(xs);
    forall m | m in Minutes(ts)
      ensures BinLoad(ts, m) <= xs[k]
    {
      var i :| 0 <= i < |bins| && bins[i].minute == m;
      assert xs[i] == bins[i].count;
    }
  }

  /** The reference peak minute has a bin, and it holds the reference peak load. */
  lemma PeakMinuteHasBin(s: seq<int>, ts: seq<int>) returns (l: nat)
    requires SortingOf(s, ts)
    requires |ts| > 0
    ensures var bins := MinuteBins(s);
            l < |bins| && bins[l].minute == PeakMinute(ts) && bins[l].count == PeakBinLoad(ts)
  {
    var bins := MinuteBins(s);
    BinsAreBinLoads(s, ts);
    assert Minutes(ts)[0] in Minutes(ts);
    var y := PeakMinute(ts);
    l :| 0 <= l < |bins| && bins[l].minute == y;
  }

  /** The first largest bin of the group's scan holds the reference peak
      load at the reference peak minute. */
  lemma FirstMaxBinIsEarliestPeak(s: seq<int>, ts: seq<int>)
    requires SortingOf(s, ts)
    requires |ts| > 0
    ensures var bins := MinuteBins(s);
            |bins| > 0 &&
            var k := FirstMaxIndex(BinCounts(bins));
            bins[k].count == PeakBinLoad(ts) && bins[k].minute == PeakMinute(ts)
  {
    var bins := MinuteBins(s);
    MaxBinIsPeakBinLoad(s, ts);
    var xs := BinCounts(bins);
    var k := FirstMaxIndex(xs);
    var l := PeakMinuteHasBin(s, ts);
    assert xs[l] == xs[k];
    assert k <= l;
    MinutesSorted(s);
    RunLengthsAscending(Minutes(s));
  }

  /** The per-address reduction of the flood detector: the first bin with
      the largest count, in ascending minute order (`idxmax` keeps the first). */
  function FloodPeak(ts: seq<int>): (p: MinuteBin)
    ensures p.count == PeakBinLoad(ts)
    ensures |ts| > 0 ==> p.minute == PeakMinute(ts)
  {
    if |ts| == 0 then MinuteBin(0, 0)
    else
      var bins := MinuteBins(SortAsc(ts));
      FirstMaxBinIsEarliestPeak(SortAsc(ts), ts);
      bins[FirstMaxIndex(BinCounts(bins))]
  }

  /** `detect_dos_by_rps`: per address, the events are binned by calendar
      minute (fixed bins, not a sliding window); an address is flagged when
      its largest bin reaches `rpsThreshold`, and the incident carries that
      count and the start of the earliest such minute. `windowMinutes` is
      accepted and ignored, as in the source. */
  function DetectDosByRps(events: seq<Event>, windowMinutes: int := 1, rpsThreshold: int := 120): (r: seq<Incident>)
    ensures forall ip :: Reports(r, ip) <==>
              ip in IpSet(events) && PeakBinLoad(TimesOf(events, ip)) >= rpsThreshold
    ensures forall inc :: inc in r ==>
              var ts := TimesOf(events, inc.ip);
              inc.blacklisted.None? && |ts| > 0 &&
              inc.finding == DosLike(PeakBinLoad(ts), 60 * PeakMinute(ts))
    ensures IpsAscending(r)
  {
    var flag := ip => FloodPeak(TimesOf(events, ip)).count >= rpsThreshold;
    var find := ip => var p := FloodPeak(TimesOf(events, ip)); DosLike(p.count, 60 * p.minute);
    ReportEachAscending(Keys(events), flag, find);
    ReportEach(Keys(events), flag, find)
  }

  /** `detect_port_scanning`: an address is flagged when the number of
      different endpoints it requested reaches `thresholdDistinct`; the
      incident carries that number and no time. */
  function DetectPortScanning(events: seq<Event>, thresholdDistinct: int := 50): (r: seq<Incident>)
    ensures forall ip :: Reports(r, ip) <==>
              ip in IpSet(events) && |EndpointSet(events, ip)| >= thresholdDistinct
    ensures forall inc :: inc in r ==>
              inc.blacklisted.None? && inc.finding == HttpScanning(|EndpointSet(events, inc.ip)|)
    ensures IpsAscending(r)
  {
    var flag := ip => NUnique(events, ip) >= thresholdDistinct;
    var find := ip => HttpScanning(NUnique(events, ip));
    ReportEachAscending(Keys(events), flag, find);
    ReportEach(Keys(events), flag, find)
  }
}
