/** Incidents, the shape every detector emits, and the two steps that run
    after the detectors: `merge_incidents` (concatenate, then drop repeated
    `(type, ip, time)` keys keeping the first) and `cross_reference_blacklist`
    (set the `blacklisted` flag from set membership). */
module Incidents {
  import opened Options
  import opened Seqs
  import opened Strings
  import opened Dedup

  /** The detector-specific part of an incident. */
  datatype Finding =
    | ApacheBruteforce(statusCode: int, maxCount: nat, time: int)
    | DosLike(requestsInMinute: nat, minute: int)
    | SshBruteforce(maxFailed: nat, time: int)
    | HttpScanning(distinctEndpoints: nat)
  {
    /** The incident's `type` field. */
    function Type(): string {
      match this
      case ApacheBruteforce(_, _, _) => "apache_bruteforce"
      case DosLike(_, _) => "dos_like"
      case SshBruteforce(_, _) => "ssh_bruteforce"
      case HttpScanning(_) => "http_scanning"
    }

    /** The incident's `time` field, when it has one. A flood incident keeps
        its timestamp under `minute`, so it has none. */
    function Time(): Option<int> {
      match this
      case ApacheBruteforce(_, _, t) => Some(t)
      case SshBruteforce(_, t) => Some(t)
      case DosLike(_, _) => None
      case HttpScanning(_) => None
    }
  }

  /** An incident record: the finding, the flagged address, and the
      `blacklisted` flag, absent (`None`) until enrichment sets it. */
  datatype Incident = Incident(finding: Finding, ip: string, blacklisted: Option<bool>)

  /** The deduplication key: incident type, address, and the text of the
      time. A missing time becomes the empty text, here `None`; the text of a timestamp is never empty
      and different timestamps print differently, so `Option<int>` keeps
      exactly the distinctions the string does. */
  datatype DedupKey = DedupKey(kind: string, ip: string, time: Option<int>)

  function KeyOf(inc: Incident): (k: DedupKey)
    ensures k.kind == inc.finding.Type() && k.ip == inc.ip
    ensures k.time.None? <==> inc.finding.DosLike? || inc.finding.HttpScanning?
    ensures k.time.Some? ==> k.time.value == inc.finding.time
  {
    DedupKey(inc.finding.Type(), inc.ip, inc.finding.Time())
  }

  /** Some incident of `incs` flags `ip`. */
  predicate Reports(incs: seq<Incident>, ip: string) {
    exists inc :: inc in incs && inc.ip == ip
  }

  /** Incidents listed by strictly ascending address, as `groupby` visits them. */
  predicate IpsAscending(incs: seq<Incident>) {
    forall i, j :: 0 <= i < j < |incs| ==> Less(incs[i].ip, incs[j].ip)
  }

  /** The loop every detector ends with: visit the group keys in order and
      append a fresh (not yet enriched) incident for each key that passes the
      detector's threshold test. */
  function ReportEach(keys: seq<string>, flag: string -> bool, make: string -> Finding): (r: seq<Incident>)
    ensures forall inc :: inc in r ==> inc.ip in keys && flag(inc.ip) && inc == Incident(make(inc.ip), inc.ip, None)
    ensures forall ip :: Reports(r, ip) <==> ip in keys && flag(ip)
  {
    if |keys| == 0 then []
    else
      var rest := ReportEach(keys[1..], flag, make);
      var head := if flag(keys[0]) then [Incident(make(keys[0]), keys[0], None)] else [];
      assert forall ip :: ip in keys <==> ip == keys[0] || ip in keys[1..];
      assert forall inc :: inc in head + rest <==> inc in head || inc in rest;
      head + rest
  }

  /** Keys visited in ascending order give incidents in ascending address order. */
  lemma {:induction false} ReportEachAscending(keys: seq<string>, flag: string -> bool, make: string -> Finding)
    requires StrictlyAscending(keys)
    ensures IpsAscending(ReportEach(keys, flag, make))
  {
    if |keys| > 0 {
      var rest := ReportEach(keys[1..], flag, make);
      ReportEachAscending(keys[1..], flag, make);
      forall i | 0 <= i < |rest|
        ensures Less(keys[0], rest[i].ip)
      {
        assert rest[i] in rest;
      }
    }
  }

  /** All incidents of all lists, list after list, empty lists skipped. */
  function Concat(lists: seq<seq<Incident>>): (r: seq<Incident>)
    ensures forall x :: x in r <==> exists l :: l in lists && x in l
  {
    if |lists| == 0 then []
    else
      var rest := Concat(lists[1..]);
      assert forall l :: l in lists <==> l == lists[0] || l in lists[1..];
      if |lists[0]| == 0 then rest else lists[0] + rest
  }

  lemma {:induction false} ConcatAppend(a: seq<seq<Incident>>, b: seq<seq<Incident>>)
    ensures Concat(a + b) == Concat(a) + Concat(b)
  {
    if |a| == 0 {
      assert a + b == b;
    } else {
      assert (a + b)[1..] == a[1..] + b;
      ConcatAppend(a[1..], b);
    }
  }

  /** `merge_incidents(*lists)`: the concatenation of the lists without
      repeated keys, each key represented by its first incident. */
  function MergeIncidents(lists: seq<seq<Incident>>): (r: seq<Incident>)
    ensures IsSubsequence(r, Concat(lists))
    ensures forall i, j :: 0 <= i < j < |r| ==> KeyOf(r[i]) != KeyOf(r[j])
    ensures forall y :: y in r ==> FirstWithKey(Concat(lists), KeyOf, KeyOf(y)) == Some(y)
    ensures forall x :: x in Concat(lists) ==> exists y :: y in r && KeyOf(y) == KeyOf(x)
    ensures InFirstOccurrenceOrder(r, Concat(lists), KeyOf)
  {
    DedupKeepsOrder(Concat(lists), KeyOf, {});
    DedupIsSubsequence(Concat(lists), KeyOf, {});
    DedupKeepsFirst(Concat(lists), KeyOf, {});
    DedupKeepsEveryKey(Concat(lists), KeyOf, {});
    DedupFrom(Concat(lists), KeyOf, {})
  }

  /** Empty lists contribute nothing to a merge. */
  lemma MergeIgnoresEmptyLists(a: seq<seq<Incident>>, b: seq<seq<Incident>>)
    ensures MergeIncidents(a + [[]] + b) == MergeIncidents(a + b)
  {
    ConcatAppend(a + [[]], b);
    ConcatAppend(a, [[]]);
    ConcatAppend(a, b);
    var none: seq<seq<Incident>> := [[]];
    assert Concat(none) == [] by {
      assert none[1..] == [];
    }
    assert Concat(a + [[]] + b) == Concat(a + b);
  }

  /** Two lists holding incidents with the same key: the merge keeps exactly
      one incident with that key, and it is the first one of the first list. */
  lemma MergeKeepsFirstListsIncident(l1: seq<Incident>, l2: seq<Incident>, x: Incident, y: Incident)
    requires x in l1 && y in l2 && KeyOf(x) == KeyOf(y)
    ensures exists z :: z in MergeIncidents([l1, l2]) && KeyOf(z) == KeyOf(x)
    ensures forall z :: z in MergeIncidents([l1, l2]) && KeyOf(z) == KeyOf(x) ==>
              z in l1 && Some(z) == FirstWithKey(l1, KeyOf, KeyOf(x))
  {
    ConcatAppend([l1], [l2]);
    assert Concat([l1]) == l1 by {
      assert [l1][1..] == [];
    }
    assert Concat([l2]) == l2 by {
      assert [l2][1..] == [];
    }
    assert [l1, l2] == [l1] + [l2];
    FirstWithKeyAppend(l1, l2, KeyOf, KeyOf(x));
    assert x in Concat([l1, l2]);
  }

  /** Merging an already merged list changes nothing. */
  lemma MergeIdempotent(lists: seq<seq<Incident>>)
    ensures MergeIncidents([MergeIncidents(lists)]) == MergeIncidents(lists)
  {
    var m := MergeIncidents(lists);
    assert Concat([m]) == m by {
      assert [m][1..] == [];
    }
    DedupKeepsDistinct(m, KeyOf, {});
  }

  /** `cross_reference_blacklist`: every incident, in place and in order,
      with `blacklisted` set to whether its address is in the blacklist. */
  function CrossReferenceBlacklist(incidents: seq<Incident>, blacklist: set<string>): (r: seq<Incident>)
    ensures |r| == |incidents|
    ensures forall i :: 0 <= i < |r| ==>
              r[i].finding == incidents[i].finding && r[i].ip == incidents[i].ip &&
              KeyOf(r[i]) == KeyOf(incidents[i]) &&
              (r[i].blacklisted == Some(true) <==> incidents[i].ip in blacklist) &&
              r[i].blacklisted.Some?
  {
    seq(|incidents|, i requires 0 <= i < |incidents| =>
      incidents[i].(blacklisted := Some(incidents[i].ip in blacklist)))
  }

  /** Enriching twice is enriching once. */
  lemma EnrichIdempotent(incidents: seq<Incident>, blacklist: set<string>)
    ensures CrossReferenceBlacklist(CrossReferenceBlacklist(incidents, blacklist), blacklist)
            == CrossReferenceBlacklist(incidents, blacklist)
  {
    var once := CrossReferenceBlacklist(incidents, blacklist);
    var twice := CrossReferenceBlacklist(once, blacklist);
    forall i | 0 <= i < |once|
      ensures twice[i] == once[i]
    {
      assert twice[i].blacklisted == once[i].blacklisted;
    }
  }
}
