# Incident detection engine — a Dafny model

This project models the incident detection engine of the log analyzer
(`analyzer.py`). The engine takes an already-parsed table of log events. It
returns a list of security incidents, and works in three stages:

- **Sliding-window counter** (`sliding_time_window_counts`). Events are grouped
  by source address and each group's timestamps are sorted. A two-pointer
  scan then records, for every event, how many events of the same address lie
  in the closed trailing window `[t - W, t]`. `W` is `window_minutes` minutes.
- **Four detectors.** Each reduces one address's events to a peak value and
  reports the address when the peak reaches the threshold (`>=`):
  - Apache status-code brute force and SSH "Failed password" brute force.
    Both take the peak of the sliding-window counts and report the earliest
    time it is reached.
  - Request flood. It bins events by calendar minute in fixed, floor-aligned
    bins (not a sliding window) and reports the largest bin and its minute.
  - Endpoint scan. It counts the distinct endpoints an address requested and
    has no time dimension.
- **Merge and enrich.**
  - `merge_incidents` concatenates the detectors' lists. It then drops
    incidents whose `(type, ip, time-or-'')` key was already seen, keeping
    the first one.
  - `cross_reference_blacklist` sets a `blacklisted` flag on every incident
    from membership of its address in a given set.

Modules, leaves first:

- `options.dfy` — `Option`.
- `seqs.dfy` — ascending order and sorting, range counting (`CountIn`), and
  maximum, first-maximum and least-witness helpers.
- `strings.dfy` — Python's string order, which `groupby` sorts keys by;
  substring search; and distinct elements.
- `events.dfy` — the event record, plus the pandas selections and groupings
  the detectors use: boolean masks, `groupby('ip')` keys and groups, and
  `nunique`.
- `window.dfy` — the window counter as an imperative two-pointer method,
  proved equal to a functional specification. It also holds order-free
  reference definitions of the peak load and peak time, and the proof that the
  scan's first maximum is that peak.
- `dedup.dfy` — the keep-first deduplication loop, generic over element and
  key types.
- `incidents.dfy` — incidents, their deduplication key, the report loop shared
  by all detectors, `merge_incidents` and `cross_reference_blacklist`.
- `detectors.dfy` — the four detectors and the minute-bin machinery.

The detectors and the window counter keep the source's default arguments
as Dafny default parameter values: status 401, threshold 20 and a 5-minute
window for the Apache detector; a 1-minute window and 120 requests for the
flood detector; the "Failed password" keyword, threshold 10 and a 10-minute
window for the SSH detector; 50 distinct endpoints for the scan detector; and
a 5-minute window for the window counter.

Time is modelled as whole seconds (`int`), and the window as
`W = 60 * window_minutes` seconds. The minute bin of a timestamp `t` is
`t / 60`. For a positive divisor Dafny's `/` is floor division, which is what
`dt.floor('T')` does. The reported minute is `60 * (t / 60)`.

Each contract is checked against an order-free reference definition:

- `Load(ts, t, w)` is the number of timestamps of the group in `[t - w, t]`.
- `PeakLoad` is the largest load over the group's timestamps.
- `PeakTime` is the least timestamp whose load is the peak.
- `BinLoad`, `PeakBinLoad` and `PeakMinute` are the same three for minute
  bins.

The detectors' contracts are stated in these terms. Separate lemmas prove
that the source's procedure computes the same values. That procedure is:
sort, scan with two pointers, take the first maximal record (Python's `max`
and pandas' `idxmax` both keep the first).

## Model

| member | source | states |
|---|---|---|
| Events.Select | analyzer.py:29 | A boolean-mask selection is an in-order subsequence of the table. Each record occurs in it as often as in the table when it satisfies the mask, and not at all otherwise. |
| Events.TimesOf | analyzer.py:12-14 | An address's group has a timestamp exactly when some event of that address carries it. The group is non-empty iff the address occurs, so rows without an address form no group. |
| Events.TimesOfCountsEvents | analyzer.py:12-14 | The group keeps one timestamp per event, repeated records included: its timestamps in any range number as many as the address's events in that range. |
| Events.Keys | analyzer.py:12-13 | `groupby` visits every present address exactly once, in strictly ascending string order, and no other value. |
| SlidingWindow.LoadCountsEvents | analyzer.py:12-20 | The window load of an address's group is the number of its events in the window, each repeated record counted. |
| Events.NUnique | analyzer.py:96 | `nunique` on an address's endpoints is the size of the set of endpoint values it requested; missing endpoints are ignored. |
| Seqs.SortAsc | analyzer.py:14 | `sort_values` yields an ascending arrangement with the same multiset of timestamps. |
| Seqs.SortingUnique | analyzer.py:14 | Any two ascending arrangements of the same timestamps are equal, so the sorted group is determined by the group. |
| Seqs.CountInPermutation | analyzer.py:14 | Counting the timestamps in a range does not depend on their order, so sorting keeps every window load. |
| Seqs.FirstMaxIndex | analyzer.py:37 | The position Python's `max(..., key=...)` returns: no later element is larger, and every earlier element is strictly smaller. |
| Seqs.CountInIsIndexCount | analyzer.py:20 | A range count equals the number of positions whose element lies in the range. |
| SlidingWindow.CountAtCountsEarlierInWindow | analyzer.py:16-20 | On ascending timestamps, the count recorded at position `i` is the number of positions `j <= i` with `t_i - t_j <= W`. The bound is closed. |
| SlidingWindow.CountAt | analyzer.py:20 | The count at position `i` is between 1 and `i + 1` whenever `W >= 0`. |
| SlidingWindow.CountAtIsWindowWidth | analyzer.py:18-20 | Suppose the positions before `left` are more than `W` older and `left..i` are not. Then the count is `i - left + 1`, the value the scan appends. |
| SlidingWindow.ScanWindow | analyzer.py:15-20 | The two-pointer loop yields one record per timestamp: the timestamp and its window count. Each count lies in `[1, i + 1]`. |
| SlidingWindow.SlidingTimeWindowCounts | analyzer.py:6-22 | One row per address, in `groupby` order. Each row's timestamps are the group's timestamps in ascending order, and each row is the window scan of them with counts in `[1, i + 1]`. |
| SlidingWindow.TableRowIsSortedScan | analyzer.py:32-37 | A row of the table is the scan of the sorted group. The brute-force peak is exactly the row's first maximal record. |
| SlidingWindow.CountAtMostLoad | analyzer.py:17-20 | Causality: a recorded count never exceeds the number of events of the whole window. Later events with the same time are not looked at. |
| SlidingWindow.CountAtLastTieIsLoad | analyzer.py:17-20 | At the last of a run of equal timestamps, the recorded count is the full load of the window. |
| SlidingWindow.EqualTimesInWindow | analyzer.py:18-20 | Events with identical timestamps fall in each other's window even when `W = 0`. The count at `i` includes every earlier tie. |
| SlidingWindow.CountMonotoneInWindow | analyzer.py:18-20 | For `W1 <= W2`, every count under `W1` is at most the count under `W2`. |
| SlidingWindow.MaxCountIsPeakLoad | analyzer.py:35 | The largest recorded count of a group is the largest window load over its timestamps. |
| SlidingWindow.PeakTimeIsRecorded | analyzer.py:35-37 | The earliest timestamp with the peak load has a record whose count is the peak. |
| SlidingWindow.RecordedAtMostLoad | analyzer.py:35-37 | Every record's timestamp belongs to the group, and its count is at most that timestamp's load. |
| SlidingWindow.FirstMaxIsEarliestPeak | analyzer.py:35-37 | The scan's first maximal record carries the peak load and the earliest timestamp at which the peak is reached. |
| SlidingWindow.BruteForcePeak | analyzer.py:35-37 | The per-address reduction reports the peak load as the maximum count and the earliest peak time as the time. For an empty group the count is 0. |
| Detectors.WithStatus | analyzer.py:29 | The status filter keeps, in table order, every record whose status equals the given code, as often as it occurs, and no other record. |
| Detectors.FailedLogins | analyzer.py:73 | The SSH filter keeps, in table order, every record whose message contains "Failed password" at some position, as often as it occurs, and no other record. |
| Detectors.BruteforceReports | analyzer.py:29-45 | An empty selection gives no incidents. An address is reported iff it occurs in the selection and its peak load is `>= threshold`. Each incident is fresh and carries the peak load and earliest peak time, in ascending address order. |
| Detectors.DetectApacheBruteforce | analyzer.py:24-45 | Over the events with the given status code: reported iff the peak load is `>= threshold`. Equality triggers. The incident carries the status code, the peak and the earliest peak time. No failing events gives no incidents. |
| Detectors.DetectSshBruteforce | analyzer.py:68-87 | Over the events whose message contains "Failed password", whatever `failedKeyword` is: reported iff the peak load is `>= threshold`, with the peak and the earliest peak time. No failed logins gives no incidents. |
| Detectors.Minutes | analyzer.py:54 | Each timestamp lies in the 60 seconds starting at 60 times its minute, so the minute is the timestamp rounded down to the minute. A minute occurs iff some timestamp falls in its 60 seconds. |
| Detectors.MinuteCount | analyzer.py:54-55 | The number of timestamps with minute `m` equals the number of timestamps in the 60 seconds `[60m, 60m + 59]`. |
| Detectors.RunLengths | analyzer.py:55 | There are at most as many per-minute rows as events, and none exactly when there are no events. |
| Detectors.RunLengthsCoverMinutes | analyzer.py:55 | `groupby(['ip', 'minute'])` has a row for exactly the minutes that occur. |
| Detectors.RunLengthsAscending | analyzer.py:55 | On ascending minutes, the per-minute rows come in strictly ascending minute order, one per minute. |
| Detectors.RunLengthsCount | analyzer.py:55 | On ascending minutes, each row's `size()` is the number of occurrences of its minute. |
| Detectors.NewMinuteIsLater | analyzer.py:55 | A minute that does not continue the last row is later than every row and has not occurred before. |
| Detectors.SortingKeepsMinutes | analyzer.py:54-55 | Sorting a group changes neither the minutes it occupies nor how many of its timestamps fall in each. |
| Detectors.BinsAreBinLoads | analyzer.py:54-57 | The per-minute rows of an address carry the reference bin loads of its timestamps, one row per occurring minute, ascending. |
| Detectors.MaxBinIsPeakBinLoad | analyzer.py:58 | The largest row count is the largest minute-bin load of the address. |
| Detectors.PeakMinuteHasBin | analyzer.py:58 | The earliest minute with the largest load has a row, and the row holds that load. |
| Detectors.FirstMaxBinIsEarliestPeak | analyzer.py:58 | The row `idxmax` selects carries the largest bin load and the earliest minute attaining it. |
| Detectors.FloodPeak | analyzer.py:58-64 | The flood reduction reports the largest minute-bin count and the earliest minute with that count. |
| Detectors.DetectDosByRps | analyzer.py:47-66 | An address is reported iff its largest minute bin is `>= rpsThreshold`, with that count and the start of the earliest such minute, in ascending address order. `windowMinutes` has no effect. |
| Detectors.DetectPortScanning | analyzer.py:89-103 | An address is reported iff its number of distinct endpoints is `>= thresholdDistinct`. The incident carries that number and has no time. |
| Incidents.ReportEach | analyzer.py:95-102 | The emit loop reports exactly the visited keys that pass the test. Every incident is built from its own address and is not yet enriched. |
| Incidents.ReportEachAscending | analyzer.py:94-95 | Keys visited in ascending order give incidents in ascending address order. |
| Incidents.Concat | analyzer.py:106-109 | The concatenation holds exactly the incidents of the input lists. |
| Incidents.KeyOf | analyzer.py:114 | The dedup key holds the incident's type and address. It has no time exactly for flood and scanning incidents, which carry no `time` field; otherwise it holds the incident's time. |
| Incidents.MergeIncidents | analyzer.py:105-118 | The merge is an order-preserving subsequence of the concatenation with pairwise distinct keys. Each kept incident is the first of its key, every key of the input is kept, and the kept incidents follow the order in which their keys first occur. |
| Incidents.MergeIgnoresEmptyLists | analyzer.py:107-109 | Inserting an empty list anywhere among the inputs does not change the merge. |
| Incidents.MergeKeepsFirstListsIncident | analyzer.py:105-118 | Take two lists holding incidents with the same key. The merge keeps one incident for that key, and it is the first such incident of the first list. |
| Incidents.MergeIdempotent | analyzer.py:111-118 | Merging an already merged list returns it unchanged. |
| Incidents.CrossReferenceBlacklist | analyzer.py:120-126 | Enrichment keeps length, order, finding, address and dedup key. It sets `blacklisted` to true iff the address is in the set, and false otherwise. |
| Incidents.EnrichIdempotent | analyzer.py:124-125 | Enriching twice is the same as enriching once. |
| Dedup.FirstWithKey | analyzer.py:113-117 | The first element with a given key exists iff some element has that key, and no earlier element has it. |
| Dedup.DedupFrom | analyzer.py:111-117 | The keep-first loop never keeps an already seen key and never keeps two elements with one key. |
| Dedup.DedupKeepsEveryKey | analyzer.py:113-117 | Every key of the input is either already seen or kept. |
| Dedup.DedupIsSubsequence | analyzer.py:113-117 | The loop only drops elements and never reorders them. |
| Dedup.DedupKeepsFirst | analyzer.py:113-117 | Every kept element is the first element of the input with its key. |
| Dedup.KeyIndex | analyzer.py:113-117 | The position of the first element with a key: that element has the key and no earlier one does; the length when no element has it. |
| Dedup.DedupKeepsOrder | analyzer.py:113-117 | The loop keeps the surviving keys in the order of their first occurrence in the input. |
| Dedup.DedupKeepsDistinct | analyzer.py:111-117 | A list whose keys are new and pairwise distinct passes through unchanged. |
| Strings.LessIrreflexive | analyzer.py:12 | No address sorts before itself. |
| Strings.LessTransitive | analyzer.py:12 | The address order is transitive. |
| Strings.LessTotal | analyzer.py:12 | Any two different addresses are ordered one way or the other. |
| Strings.LessIsLexicographic | analyzer.py:12 | The order `groupby` sorts keys by is Python's string order: after the longest common prefix, the string that ends first, or whose next code point is smaller, comes first. |
| Strings.InsertKey | analyzer.py:12 | Adding an address to the ascending key list keeps it strictly ascending, with the address added. |
| Strings.Distinct | analyzer.py:96 | The distinct values of a list have no duplicates and the same members as the list. |
| Strings.DistinctCardinality | analyzer.py:96 | A list without duplicates has as many distinct members as elements. |
| Strings.ContainsIffOccurs | analyzer.py:73 | The substring test holds exactly when the pattern occurs at some position of the message. |

## Left out

- Parsing, configuration, plotting, export and blacklist file reading
  (`parsers.py`, `main.py`, `visualizer.py`, `utils.py`, `blacklist.py`) are
  not part of this model. The detectors take an already-parsed event sequence,
  and the blacklist is a given set of addresses.
- pandas DataFrames are modelled as sequences of records. Only the pandas
  behaviour the engine relies on is kept:
  - `groupby` sorts keys and drops missing addresses.
  - `nunique` ignores missing endpoints.
  - `str.contains(..., na=False)`: the pattern "Failed password" has no regular
    expression metacharacters, so it is matched as a substring. A missing
    message is the empty string, which never matches.
- An event always has an integer status. A record of a log without status codes
  is modelled with a status no detector asks for, which is how a missing status
  compares in the source.
- Timestamps are whole seconds. Sub-second resolution, time zones and the
  `datetime` type are not modelled.
- SlidingTimeWindowCounts: `window_minutes` is a natural number. A negative
  window is not modelled, because it drives the source's inner loop past
  `right`. A fractional window is not modelled either.
- The `time_col`, `ip_col` and `endpoint_col` parameters are fixed to the
  column names the detectors use.
- An empty parsed log has no columns at all. Selecting a column from it then
  raises an error, and that error path is not modelled: an empty event sequence
  gives no incidents.
- Incidents.MergeIncidents: the key's text `str(time)` is modelled as
  `Option<int>`, with `None` for the `''` sentinel. This assumes distinct
  timestamps print differently and never as the empty string, which holds for
  the timestamp type the parsers produce.
- Incidents.CrossReferenceBlacklist: the source mutates the incident
  dictionaries in place and returns the same list. The model returns an
  enriched copy. Aliasing effects are not modelled, such as one dictionary
  appearing in two lists.
- Detectors.DetectDosByRps: `df.copy()` and the `minute` column added to it
  are internal. Only the reported count and minute are modelled, with the
  minute in seconds.
- Detectors.DetectSshBruteforce keeps the `failedKeyword` parameter and
  ignores it, as the source does. Detectors.DetectDosByRps keeps and ignores
  `windowMinutes` the same way.
