/** Hit statistics (StatsServiceImpl): the stored hits of a time window and a
    set of URI prefixes, grouped by (app, uri), counted with or without repeated
    IP addresses, and ordered by the count, largest first. */
module StatsService {
  import opened Errors
  import Sorting
  import opened SetFacts

  /** One stored request of an endpoint; `id` is its row identifier, so two
      stored hits are never the same value. */
  datatype EndpointHit = EndpointHit(id: int, app: string, uri: string, ip: string, timestamp: int)

  /** The grouping key of a hit. */
  datatype Endpoint = Endpoint(app: string, uri: string)

  datatype EndpointStats = EndpointStats(app: string, uri: string, hits: nat)

  function KeyOf(h: EndpointHit): Endpoint {
    Endpoint(h.app, h.uri)
  }

  function EndpointOf(s: EndpointStats): Endpoint {
    Endpoint(s.app, s.uri)
  }

  // ---------------------------------------------------------------------------
  // Selecting the hits

  /** checkSearchInterval: an empty window is invalid; a one-instant window is not. */
  function CheckSearchInterval(start: int, end: int): (r: Outcome)
    ensures r == Pass <==> start <= end
    ensures r.Fail? ==> r.error == Validation
  {
    if start > end then Fail(Validation) else Pass
  }

  /** The timestamp lies in the closed window (QueryDSL `between`). */
  predicate InWindow(h: EndpointHit, start: int, end: int) {
    start <= h.timestamp <= end
  }

  /** The uri starts with one of the prefixes; no prefix at all admits every uri. */
  predicate MatchesUris(h: EndpointHit, uris: seq<string>) {
    |uris| == 0 || exists i :: 0 <= i < |uris| && uris[i] <= h.uri
  }

  ghost function Selected(stored: set<EndpointHit>, start: int, end: int, uris: seq<string>): set<EndpointHit> {
    set h | h in stored && InWindow(h, start, end) && MatchesUris(h, uris)
  }

  /** The hit collection of getStats: one query per prefix, gathered in a set. */
  method CollectHits(stored: set<EndpointHit>, start: int, end: int, uris: seq<string>)
    returns (hits: set<EndpointHit>)
    ensures hits == Selected(stored, start, end, uris)
  {
    hits := {};
    if |uris| != 0 {
      var i := 0;
      while i < |uris|
        invariant 0 <= i <= |uris|
        invariant hits == set h | h in stored && InWindow(h, start, end) && exists j :: 0 <= j < i && uris[j] <= h.uri
      {
        hits := hits + set h | h in stored && InWindow(h, start, end) && uris[i] <= h.uri;
        i := i + 1;
      }
    } else {
      hits := set h | h in stored && InWindow(h, start, end);
    }
  }

  // ---------------------------------------------------------------------------
  // Groups and their counts

  ghost function Keys(hits: set<EndpointHit>): set<Endpoint> {
    set h | h in hits :: KeyOf(h)
  }

  ghost function Group(hits: set<EndpointHit>, k: Endpoint): set<EndpointHit> {
    set h | h in hits && KeyOf(h) == k
  }

  ghost function Ips(hits: set<EndpointHit>, k: Endpoint): set<string> {
    set h | h in hits && KeyOf(h) == k :: h.ip
  }

  /** The count of an endpoint: every hit, or every distinct address. */
  ghost function Count(hits: set<EndpointHit>, k: Endpoint, unique: bool): nat {
    if unique then |Ips(hits, k)| else |Group(hits, k)|
  }

  /** `out` lists every endpoint of `hits` once, with its count, largest count first. */
  ghost predicate IsStatsOf(hits: set<EndpointHit>, out: seq<EndpointStats>, unique: bool) {
    && (forall i :: 0 <= i < |out| ==>
          EndpointOf(out[i]) in Keys(hits) && out[i].hits == Count(hits, EndpointOf(out[i]), unique))
    && (forall k :: k in Keys(hits) ==> exists i :: 0 <= i < |out| && EndpointOf(out[i]) == k)
    && (forall i, j :: 0 <= i < j < |out| ==> EndpointOf(out[i]) != EndpointOf(out[j]))
    && (forall i, j :: 0 <= i < j < |out| ==> out[i].hits >= out[j].hits)
    && |out| == |Keys(hits)|
  }

  /** Adding one hit adds its endpoint. */
  lemma KeysStep(done: set<EndpointHit>, h: EndpointHit)
    ensures Keys(done + {h}) == Keys(done) + {KeyOf(h)}
  {
    assert Keys(done + {h}) == Keys(done) + {KeyOf(h)};
  }

  /** Adding one hit adds it to its own group only. */
  lemma GroupStep(done: set<EndpointHit>, h: EndpointHit, k: Endpoint)
    requires h !in done
    ensures Group(done + {h}, k) == Group(done, k) + (if KeyOf(h) == k then {h} else {})
    ensures |Group(done + {h}, k)| == |Group(done, k)| + (if KeyOf(h) == k then 1 else 0)
  {
    assert Group(done + {h}, k) == Group(done, k) + (if KeyOf(h) == k then {h} else {});
  }

  /** Adding one hit adds its address to its own endpoint's addresses only. */
  lemma IpsStep(done: set<EndpointHit>, h: EndpointHit, k: Endpoint)
    ensures Ips(done + {h}, k) == Ips(done, k) + (if KeyOf(h) == k then {h.ip} else {})
  {
    assert Ips(done + {h}, k) == Ips(done, k) + (if KeyOf(h) == k then {h.ip} else {});
  }

  /** sortByHits: a permutation, largest count first. */
  function SortByHits(list: seq<EndpointStats>): (r: seq<EndpointStats>)
    ensures multiset(r) == multiset(list)
    ensures |r| == |list|
    ensures forall i, j :: 0 <= i < j < |r| ==> r[i].hits >= r[j].hits
    ensures Sorting.DistinctBy(list, EndpointOf) ==> Sorting.DistinctBy(r, EndpointOf)
  {
    var key := (s: EndpointStats) => -(s.hits as int);
    assert Sorting.DistinctBy(list, EndpointOf) ==> Sorting.DistinctBy(Sorting.SortByKey(list, key), EndpointOf) by {
      if Sorting.DistinctBy(list, EndpointOf) {
        Sorting.SortDistinct(list, key, EndpointOf);
      }
    }
    Sorting.SortByKey(list, key)
  }

  /** `out` lists every key of `counts` once, with its count. */
  ghost predicate ListsTable(counts: map<Endpoint, nat>, out: seq<EndpointStats>) {
    && (forall i :: 0 <= i < |out| ==> EndpointOf(out[i]) in counts && out[i].hits == counts[EndpointOf(out[i])])
    && (forall k :: k in counts ==> exists i :: 0 <= i < |out| && EndpointOf(out[i]) == k)
    && Sorting.DistinctBy(out, EndpointOf)
    && |out| == |counts.Keys|
  }

  /** `list` has one entry, with its count, for each key of `counts` outside `keys`. */
  ghost predicate ListsTableExcept(counts: map<Endpoint, nat>, keys: set<Endpoint>, list: seq<EndpointStats>) {
    && keys <= counts.Keys
    && (forall i :: 0 <= i < |list| ==>
          EndpointOf(list[i]) in counts.Keys - keys && list[i].hits == counts[EndpointOf(list[i])])
    && (forall k :: k in counts.Keys - keys ==> exists i :: 0 <= i < |list| && EndpointOf(list[i]) == k)
    && Sorting.DistinctBy(list, EndpointOf)
    && |list| + |keys| == |counts.Keys|
  }

  /** One iteration of the entry loop: the entry of key `k` is appended. */
  lemma EntriesStep(counts: map<Endpoint, nat>, keys: set<Endpoint>, list: seq<EndpointStats>, k: Endpoint)
    requires ListsTableExcept(counts, keys, list)
    requires k in keys
    ensures ListsTableExcept(counts, keys - {k}, list + [EndpointStats(k.app, k.uri, counts[k])])
  {
    var list' := list + [EndpointStats(k.app, k.uri, counts[k])];
    forall k' | k' in counts.Keys - (keys - {k}) ensures exists i :: 0 <= i < |list'| && EndpointOf(list'[i]) == k' {
      if k' == k {
        assert EndpointOf(list'[|list'| - 1]) == k';
      } else {
        assert k' in counts.Keys - keys;
        var i :| 0 <= i < |list| && EndpointOf(list[i]) == k';
        assert list'[i] == list[i];
      }
    }
    assert |keys - {k}| == |keys| - 1;
  }

  /** The entry loop: one entry per key of the finished table, its count set. */
  method Entries(counts: map<Endpoint, nat>) returns (list: seq<EndpointStats>)
    ensures ListsTable(counts, list)
  {
    list := [];
    var keys := counts.Keys;
    while keys != {}
      invariant ListsTableExcept(counts, keys, list)
      decreases keys
    {
      ghost var _ := Element(keys);
      var k :| k in keys;
      EntriesStep(counts, keys, list, k);
      list := list + [EndpointStats(k.app, k.uri, counts[k])];
      keys := keys - {k};
    }
    assert counts.Keys - keys == counts.Keys;
  }

  /** Reordering a listing keeps it a listing of the same table. */
  lemma ListsTablePermuted(counts: map<Endpoint, nat>, list: seq<EndpointStats>, out: seq<EndpointStats>)
    requires ListsTable(counts, list)
    requires multiset(out) == multiset(list) && Sorting.DistinctBy(out, EndpointOf)
    ensures ListsTable(counts, out)
  {
    assert |out| == |multiset(out)| == |multiset(list)| == |list|;
    forall i | 0 <= i < |out| ensures EndpointOf(out[i]) in counts && out[i].hits == counts[EndpointOf(out[i])] {
      assert out[i] in multiset(list);
    }
    forall k | k in counts ensures exists i :: 0 <= i < |out| && EndpointOf(out[i]) == k {
      var j :| 0 <= j < |list| && EndpointOf(list[j]) == k;
      assert list[j] in multiset(out);
      var i :| 0 <= i < |out| && out[i] == list[j];
    }
  }

  /** The part both calculations share: list the finished table, then sort it. */
  method ListAndSort(counts: map<Endpoint, nat>) returns (out: seq<EndpointStats>)
    ensures ListsTable(counts, out)
    ensures forall i, j :: 0 <= i < j < |out| ==> out[i].hits >= out[j].hits
  {
    var list := Entries(counts);
    out := SortByHits(list);
    ListsTablePermuted(counts, list, out);
  }

  /** A sorted listing of a finished count table is the statistics of its hits. */
  lemma StatsFromTable(hits: set<EndpointHit>, counts: map<Endpoint, nat>, out: seq<EndpointStats>, unique: bool)
    requires ListsTable(counts, out)
    requires counts.Keys == Keys(hits)
    requires forall k :: k in counts ==> counts[k] == Count(hits, k, unique)
    requires forall i, j :: 0 <= i < j < |out| ==> out[i].hits >= out[j].hits
    ensures IsStatsOf(hits, out, unique)
  {
  }

  /** The hit-count table of `done`. */
  ghost predicate CountTableOf(counts: map<Endpoint, nat>, done: set<EndpointHit>) {
    counts.Keys == Keys(done) && forall k :: k in counts ==> counts[k] == |Group(done, k)|
  }

  /** One iteration of the counting loop: the hit's own endpoint counts one more. */
  lemma CountTableStep(counts: map<Endpoint, nat>, done: set<EndpointHit>, h: EndpointHit)
    requires h !in done
    requires CountTableOf(counts, done)
    ensures CountTableOf(counts[KeyOf(h) := (if KeyOf(h) in counts then counts[KeyOf(h)] else 0) + 1], done + {h})
  {
    var counts' := counts[KeyOf(h) := (if KeyOf(h) in counts then counts[KeyOf(h)] else 0) + 1];
    KeysStep(done, h);
    forall k | k in counts' ensures counts'[k] == |Group(done + {h}, k)| {
      GroupStep(done, h, k);
    }
  }

  /** calcStatsWithRepeatings: count every hit of each endpoint. */
  method CalcStatsWithRepeatings(hits: set<EndpointHit>) returns (out: seq<EndpointStats>)
    ensures IsStatsOf(hits, out, false)
    ensures Sum(out) == |hits|
  {
    var counts: map<Endpoint, nat> := map[];
    var todo := hits;
    while todo != {}
      invariant todo <= hits
      invariant CountTableOf(counts, hits - todo)
      decreases todo
    {
      ghost var _ := Element(todo);
      var h :| h in todo;
      ghost var done, before := hits - todo, counts;
      var k := KeyOf(h);
      counts := counts[k := (if k in counts then counts[k] else 0) + 1];
      todo := todo - {h};
      assert hits - todo == done + {h};
      CountTableStep(before, done, h);
    }
    assert hits - todo == hits;
    out := ListAndSort(counts);
    StatsFromTable(hits, counts, out, false);
    SumOfGroups(hits, out);
    CoveredAll(hits, out);
  }

  /** The address table of `done`, one hit later. */
  ghost predicate IpTableOf(ips: map<Endpoint, set<string>>, done: set<EndpointHit>) {
    ips.Keys == Keys(done) && forall k :: k in ips ==> ips[k] == Ips(done, k)
  }

  /** One iteration of the address loop: the hit's address joins its own endpoint's set. */
  lemma IpTableStep(ips: map<Endpoint, set<string>>, done: set<EndpointHit>, h: EndpointHit)
    requires h !in done
    requires IpTableOf(ips, done)
    ensures IpTableOf(ips[KeyOf(h) := (if KeyOf(h) in ips then ips[KeyOf(h)] else {}) + {h.ip}], done + {h})
  {
    var ips' := ips[KeyOf(h) := (if KeyOf(h) in ips then ips[KeyOf(h)] else {}) + {h.ip}];
    KeysStep(done, h);
    forall k | k in ips' ensures ips'[k] == Ips(done + {h}, k) {
      IpsStep(done, h, k);
    }
  }

  /** calcStatsWithoutRepeatings: count the distinct addresses of each endpoint. */
  method CalcStatsWithoutRepeatings(hits: set<EndpointHit>) returns (out: seq<EndpointStats>)
    ensures IsStatsOf(hits, out, true)
  {
    var ips: map<Endpoint, set<string>> := map[];
    var todo := hits;
    while todo != {}
      invariant todo <= hits
      invariant IpTableOf(ips, hits - todo)
      decreases todo
    {
      ghost var _ := Element(todo);
      var h :| h in todo;
      ghost var done, before := hits - todo, ips;
      var k := KeyOf(h);
      if k !in ips {
        ips := ips[k := {}];
      }
      ips := ips[k := ips[k] + {h.ip}];
      todo := todo - {h};
      assert hits - todo == done + {h};
      assert ips == before[k := (if k in before then before[k] else {}) + {h.ip}];
      IpTableStep(before, done, h);
    }
    assert hits - todo == hits;
    var counts := map k | k in ips :: |ips[k]|;
    assert counts.Keys == Keys(hits);
    out := ListAndSort(counts);
    StatsFromTable(hits, counts, out, true);
  }

  /** getStats: a valid window, the selected hits, then one of the two counts. */
  method GetStats(stored: set<EndpointHit>, start: int, end: int, uris: seq<string>, unique: bool)
    returns (r: Result<seq<EndpointStats>>)
    ensures r.Ok? <==> start <= end
    ensures r.Err? ==> r.error == Validation
    ensures r.Ok? ==> IsStatsOf(Selected(stored, start, end, uris), r.value, unique)
    ensures r.Ok? && !unique ==> Sum(r.value) == |Selected(stored, start, end, uris)|
  {
    var check := CheckSearchInterval(start, end);
    if check.Fail? {
      return Err(check.error);
    }
    var hits := CollectHits(stored, start, end, uris);
    var stats;
    if unique {
      stats := CalcStatsWithoutRepeatings(hits);
    } else {
      stats := CalcStatsWithRepeatings(hits);
    }
    r := Ok(stats);
  }

  // ---------------------------------------------------------------------------
  // Totals

  function Sum(out: seq<EndpointStats>): nat {
    if out == [] then 0 else out[0].hits + Sum(out[1..])
  }

  ghost function EndpointsOf(out: seq<EndpointStats>): set<Endpoint> {
    set i | 0 <= i < |out| :: EndpointOf(out[i])
  }

  ghost function Covered(hits: set<EndpointHit>, ks: set<Endpoint>): set<EndpointHit> {
    set h | h in hits && KeyOf(h) in ks
  }

  /** Listing distinct endpoints with their full counts sums to the hits of those endpoints. */
  lemma {:induction false} SumOfGroups(hits: set<EndpointHit>, out: seq<EndpointStats>)
    requires forall i :: 0 <= i < |out| ==> out[i].hits == |Group(hits, EndpointOf(out[i]))|
    requires forall i, j :: 0 <= i < j < |out| ==> EndpointOf(out[i]) != EndpointOf(out[j])
    ensures Sum(out) == |Covered(hits, EndpointsOf(out))|
    decreases |out|
  {
    if out != [] {
      var rest := out[1..];
      assert forall i :: 0 <= i < |rest| ==> rest[i] == out[i + 1];
      SumOfGroups(hits, rest);
      var k := EndpointOf(out[0]);
      assert EndpointsOf(out) == {k} + EndpointsOf(rest) by {
        forall e | e in EndpointsOf(out) ensures e in {k} + EndpointsOf(rest) {
          var i :| 0 <= i < |out| && EndpointOf(out[i]) == e;
          if i > 0 {
            assert EndpointOf(rest[i - 1]) == e;
          }
        }
      }
      assert k !in EndpointsOf(rest);
      assert Covered(hits, EndpointsOf(out)) == Group(hits, k) + Covered(hits, EndpointsOf(rest));
      assert Group(hits, k) !! Covered(hits, EndpointsOf(rest));
    }
  }

  /** A listing naming every endpoint of the hits covers all of them. */
  lemma CoveredAll(hits: set<EndpointHit>, out: seq<EndpointStats>)
    requires forall k :: k in Keys(hits) ==> exists i :: 0 <= i < |out| && EndpointOf(out[i]) == k
    ensures Covered(hits, EndpointsOf(out)) == hits
  {
    forall h | h in hits ensures KeyOf(h) in EndpointsOf(out) {
      assert KeyOf(h) in Keys(hits);
      var i :| 0 <= i < |out| && EndpointOf(out[i]) == KeyOf(h);
    }
  }

  /** Distinct addresses never outnumber hits: the unique count of an endpoint
      is at most its full count. */
  lemma {:induction false} UniqueAtMostAll(hits: set<EndpointHit>, k: Endpoint)
    ensures Count(hits, k, true) <= Count(hits, k, false)
    decreases |hits|
  {
    if hits != {} {
      var h := Element(hits);
      var rest := hits - {h};
      UniqueAtMostAll(rest, k);
      assert hits == rest + {h};
      GroupStep(rest, h, k);
      IpsStep(rest, h, k);
    }
  }
}
