/** The event table the detectors read: one record per parsed log line, and
    the pandas selections and groupings the detectors apply to it. */
module Events {
  import opened Options
  import opened Strings
  import opened Seqs

  /** One parsed log record, times in whole seconds. Apache records carry a
      status code and (when the request line had one) an endpoint; SSH records
      carry the message text and, when one was found in it, a source address. */
  datatype Event = Event(
    time: int,
    ip: Option<string>,
    status: int,
    endpoint: Option<string>,
    msg: string)

  /** Boolean-mask selection: the events satisfying `keep`, in table order,
      each repeated record kept. */
  function Select(events: seq<Event>, keep: Event -> bool): (r: seq<Event>)
    ensures |r| <= |events|
    ensures IsSubsequence(r, events)
    ensures forall e :: multiset(r)[e] == if keep(e) then multiset(events)[e] else 0
    ensures forall e :: e in r <==> e in events && keep(e)
  {
    if |events| == 0 then []
    else
      var e := events[|events| - 1];
      var init := events[..|events| - 1];
      var r := Select(init, keep);
      assert events == init + [e];
      assert multiset(events) == multiset(init) + multiset{e};
      SubsequenceSnoc(r, init, e);
      if keep(e) then
        assert multiset(r + [e]) == multiset(r) + multiset{e};
        r + [e]
      else r
  }

  /** The groups formed by grouping on the address: addresses of events
      that have one (rows with a missing address are dropped). */
  function IpSet(events: seq<Event>): set<string> {
    set e | e in events && e.ip.Some? :: e.ip.value
  }

  /** Timestamps of the events from `ip`, in table order. */
  function TimesOf(events: seq<Event>, ip: string): (ts: seq<int>)
    ensures |ts| <= |events|
    ensures forall t :: t in ts <==> exists e :: e in events && e.ip == Some(ip) && e.time == t
    ensures |ts| > 0 <==> ip in IpSet(events)
  {
    if |events| == 0 then []
    else
      var e := events[|events| - 1];
      var ts := TimesOf(events[..|events| - 1], ip);
      assert events == events[..|events| - 1] + [e];
      assert ip in IpSet(events) <==> ip in IpSet(events[..|events| - 1]) || e.ip == Some(ip);
      if e.ip == Some(ip) then ts + [e.time] else ts
  }

  /** The positions of the events from `ip` whose time lies in `[lo, hi]`. */
  function EventsIn(events: seq<Event>, ip: string, lo: int, hi: int): set<nat> {
    set i: nat | i < |events| && events[i].ip == Some(ip) && lo <= events[i].time <= hi
  }

  /** The positions counted for a table are those counted for all but its
      last record, plus the last position when that record is counted. */
  lemma EventsInLast(events: seq<Event>, ip: string, lo: int, hi: int)
    requires |events| > 0
    ensures EventsIn(events, ip, lo, hi) ==
              EventsIn(events[..|events| - 1], ip, lo, hi) +
              (if events[|events| - 1].ip == Some(ip) && lo <= events[|events| - 1].time <= hi
               then {|events| - 1} else {})
    ensures |events| - 1 !in EventsIn(events[..|events| - 1], ip, lo, hi)
  {
    var n := |events| - 1;
    forall j: nat | j < n
      ensures j in EventsIn(events, ip, lo, hi) <==> j in EventsIn(events[..n], ip, lo, hi)
    {
      assert events[..n][j] == events[j];
    }
  }

  /** The group keeps one timestamp per event, repeated records included:
      counting its timestamps in a range counts the events of `ip` there. */
  lemma {:induction false} TimesOfCountsEvents(events: seq<Event>, ip: string, lo: int, hi: int)
    ensures CountIn(TimesOf(events, ip), lo, hi) == |EventsIn(events, ip, lo, hi)|
  {
    if |events| > 0 {
      var n := |events| - 1;
      var init := events[..n];
      var e := events[n];
      assert events == init + [e];
      TimesOfCountsEvents(init, ip, lo, hi);
      EventsInLast(events, ip, lo, hi);
      var ts := TimesOf(init, ip);
      if e.ip == Some(ip) {
        assert (ts + [e.time])[..|ts|] == ts;
      }
    }
  }

  /** The group keys in the order `groupby` visits them: every present
      address once, ascending. */
  function Keys(events: seq<Event>): (keys: seq<string>)
    ensures StrictlyAscending(keys)
    ensures forall ip :: ip in keys <==> ip in IpSet(events)
  {
    if |events| == 0 then []
    else
      var e := events[|events| - 1];
      var keys := Keys(events[..|events| - 1]);
      assert events == events[..|events| - 1] + [e];
      assert forall ip :: ip in IpSet(events) <==> ip in IpSet(events[..|events| - 1]) || e.ip == Some(ip);
      if e.ip.Some? then InsertKey(keys, e.ip.value) else keys
  }

  /** The endpoints requested by `ip`, missing ones skipped, in table order. */
  function EndpointsOf(events: seq<Event>, ip: string): (eps: seq<string>)
    ensures forall p :: p in eps <==> exists e :: e in events && e.ip == Some(ip) && e.endpoint == Some(p)
  {
    if |events| == 0 then []
    else
      var e := events[|events| - 1];
      var eps := EndpointsOf(events[..|events| - 1], ip);
      assert events == events[..|events| - 1] + [e];
      if e.ip == Some(ip) && e.endpoint.Some? then eps + [e.endpoint.value] else eps
  }

  /** The set of endpoint values `ip` requested. */
  function EndpointSet(events: seq<Event>, ip: string): set<string> {
    set e | e in events && e.ip == Some(ip) && e.endpoint.Some? :: e.endpoint.value
  }

  /** `Series.nunique()` on the endpoints of `ip`'s group: the number of
      different endpoint values, missing ones ignored. */
  function NUnique(events: seq<Event>, ip: string): (n: nat)
    ensures n == |EndpointSet(events, ip)|
  {
    var d := Distinct(EndpointsOf(events, ip));
    DistinctCardinality(d);
    assert (set y | y in d) == EndpointSet(events, ip);
    |d|
  }
}
