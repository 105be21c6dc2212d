/**
 The PersistentVolume controller's capacity aggregation
 (controllers/persistentvolume_controller.go). A reconcile is debounced. It
 then summarizes each node's device capacity into a string record, compares
 the records with an in-memory cache, and writes them as JSON into the
 `carina-node-storage` ConfigMap when they changed. Clocks, the cluster client
 and the JSON encoder are inputs; the calls issued are the output.
 */
module Capacity {
  import opened Base
  import Assoc
  import Text

  // ---- the debounce in Reconcile ----

  /** One second, in the nanoseconds of Go's `time.Time`. */
  const Second := 1_000_000_000

  /** Events closer than this to the last accepted one are dropped. */
  const Debounce := 15 * Second

  datatype Trigger = Debounced | Stop | Fail | Aggregate

  /** The decision of one reconcile, and the `lastEventTime` it leaves. */
  datatype Gate = Gate(trigger: Trigger, last: int)

  /**
   `Reconcile`: an event within fifteen seconds of `last` does nothing.
   Otherwise `last` becomes `wake`, the clock after the random sleep, and the
   PersistentVolume is fetched: a fetch error fails, a volume of another
   driver (or without CSI) stops, and a missing volume or one of this driver
   goes on to aggregate.
   */
  function ReconcilePv(s: Settings, now: int, last: int, wake: int, pv: Fetch<PersistentVolume>): (g: Gate)
    ensures g.trigger == Debounced <==> now - last < Debounce
    ensures g.last == (if now - last < Debounce then last else wake)
    ensures g.trigger == Aggregate <==> now - last >= Debounce && (pv.NotFound? || (pv.Found? && ServedByPlugin(s, pv.value)))
    ensures g.trigger == Fail <==> now - last >= Debounce && pv.FetchError?
  {
    if now - last < Debounce then Gate(Debounced, last)
    else
      match pv
      case FetchError => Gate(Fail, wake)
      case NotFound => Gate(Aggregate, wake)
      case Found(v) => Gate(if ServedByPlugin(s, v) then Aggregate else Stop, wake)
  }

  /**
   Once an event is accepted, every event arriving less than fifteen seconds
   after the clock it woke up with is dropped.
   */
  lemma DebounceWindow(s: Settings, now1: int, last: int, wake: int, pv1: Fetch<PersistentVolume>,
                       now2: int, wake2: int, pv2: Fetch<PersistentVolume>)
    requires ReconcilePv(s, now1, last, wake, pv1).trigger != Debounced
    requires now2 - wake < Debounce
    ensures ReconcilePv(s, now2, ReconcilePv(s, now1, last, wake, pv1).last, wake2, pv2) == Gate(Debounced, wake)
  {
  }

  // ---- per-node records ----

  /** A key of a node record: `nodeName`, `capacity.<key>` or `allocatable.<key>`. */
  datatype Field = NodeName | CapacityOf(key: string) | AllocatableOf(key: string) {
    /** The string key Go puts in the record. */
    function Name(): string {
      match this
      case NodeName => "nodeName"
      case CapacityOf(k) => "capacity." + k
      case AllocatableOf(k) => "allocatable." + k
    }
  }

  /** The first character of a field's key. */
  function Initial(f: Field): char {
    match f
    case NodeName => 'n'
    case CapacityOf(_) => 'c'
    case AllocatableOf(_) => 'a'
  }

  /** Different fields are written under different keys. */
  lemma FieldNameInjective(f: Field, g: Field)
    requires f.Name() == g.Name()
    ensures f == g
  {
    var x := f.Name();
    assert x[0] == Initial(f);
    assert g.Name()[0] == Initial(g);
    if f.CapacityOf? {
      assert f.key == x[9..] && g.key == x[9..];
    } else if f.AllocatableOf? {
      assert f.key == x[12..] && g.key == x[12..];
    }
  }

  /** One node's summary. */
  type Record = map<Field, string>

  /** The record as Go builds it, a `map[string]string`. */
  function Serialize(r: Record): (m: map<string, string>)
    ensures forall f :: f in r ==> f.Name() in m && m[f.Name()] == r[f]
    ensures forall k :: k in m ==> exists f :: f in r && f.Name() == k
  {
    assert forall f, g :: f in r && g in r && f.Name() == g.Name() ==> f == g by {
      forall f, g | f in r && g in r && f.Name() == g.Name()
        ensures f == g
      {
        FieldNameInjective(f, g);
      }
    }
    map f | f in r :: f.Name() := r[f]
  }

  /** Two records are equal exactly when Go's string maps are, so comparing records is comparing what Go compares. */
  lemma SerializeInjective(a: Record, b: Record)
    ensures Serialize(a) == Serialize(b) <==> a == b
  {
    if Serialize(a) == Serialize(b) {
      forall f | f in a
        ensures f in b && b[f] == a[f]
      {
        var g :| g in b && g.Name() == f.Name();
        FieldNameInjective(f, g);
      }
      forall f | f in b
        ensures f in a
      {
        var g :| g in a && g.Name() == f.Name();
        FieldNameInjective(f, g);
      }
    }
  }

  /** A quantity with the device prefix. */
  predicate Matches(s: Settings, q: map<string, int>, key: string) {
    key in q && HasPrefix(key, s.capacityPrefix)
  }

  /** The fields of the node's prefixed capacity and allocatable quantities. */
  function QuantityFields(s: Settings, n: Node): (fs: set<Field>)
    ensures forall f :: f in fs <==> (f.CapacityOf? && Matches(s, n.capacity, f.key)) || (f.AllocatableOf? && Matches(s, n.allocatable, f.key))
  {
    (set key | key in n.capacity && HasPrefix(key, s.capacityPrefix) :: CapacityOf(key))
    + (set key | key in n.allocatable && HasPrefix(key, s.capacityPrefix) :: AllocatableOf(key))
  }

  /** The quantity a field names, in decimal. */
  function Decimal(n: Node, f: Field): string {
    match f
    case CapacityOf(key) => if key in n.capacity then Text.FormatInt(n.capacity[key]) else ""
    case AllocatableOf(key) => if key in n.allocatable then Text.FormatInt(n.allocatable[key]) else ""
    case NodeName => n.name
  }

  /** The node's prefixed capacity and allocatable quantities, in decimal. */
  function Quantities(s: Settings, n: Node): (r: Record)
    ensures r.Keys == QuantityFields(s, n)
  {
    map f | f in QuantityFields(s, n) :: Decimal(n, f)
  }

  /** The loop body of `updateNodeConfigMap` for one node: `None` when no quantity matches. */
  function NodeRecord(s: Settings, n: Node): Option<Record> {
    var tmp := Quantities(s, n);
    if |tmp| > 0 then Some(tmp[NodeName := n.name]) else None
  }

  /**
   A node has a record exactly when one of its capacity or allocatable
   quantities carries the prefix.
   */
  lemma NodeRecordPresent(s: Settings, n: Node)
    ensures NodeRecord(s, n).Some? <==>
      (exists key :: Matches(s, n.capacity, key)) || (exists key :: Matches(s, n.allocatable, key))
  {
    assert NodeRecord(s, n).Some? <==> |Quantities(s, n)| > 0;
    QuantitiesPresent(s, n);
  }

  /** The summary is non-empty exactly when some capacity or allocatable quantity carries the prefix. */
  lemma QuantitiesPresent(s: Settings, n: Node)
    ensures |Quantities(s, n)| > 0 <==>
      (exists key :: Matches(s, n.capacity, key)) || (exists key :: Matches(s, n.allocatable, key))
  {
    var fs := QuantityFields(s, n);
    assert |Quantities(s, n)| == |fs|;
    if exists key :: Matches(s, n.capacity, key) {
      var key :| Matches(s, n.capacity, key);
      assert CapacityOf(key) in fs;
    }
    if exists key :: Matches(s, n.allocatable, key) {
      var key :| Matches(s, n.allocatable, key);
      assert AllocatableOf(key) in fs;
    }
    if |fs| > 0 {
      var f :| f in fs;
    }
  }

  /** A record holds the node name and the node's prefixed quantities, and nothing else. */
  lemma NodeRecordFields(s: Settings, n: Node, f: Field)
    requires NodeRecord(s, n).Some?
    ensures f in NodeRecord(s, n).value <==>
      f == NodeName || (f.CapacityOf? && Matches(s, n.capacity, f.key)) || (f.AllocatableOf? && Matches(s, n.allocatable, f.key))
  {
  }

  /** Every prefixed quantity is written in a decimal that reads back as the quantity. */
  lemma NodeRecordValues(s: Settings, n: Node, key: string)
    requires NodeRecord(s, n).Some?
    ensures Matches(s, n.capacity, key) ==> Text.ParseInt(NodeRecord(s, n).value[CapacityOf(key)]) == n.capacity[key]
    ensures Matches(s, n.allocatable, key) ==> Text.ParseInt(NodeRecord(s, n).value[AllocatableOf(key)]) == n.allocatable[key]
  {
    if Matches(s, n.capacity, key) {
      Text.FormatParse(n.capacity[key]);
    }
    if Matches(s, n.allocatable, key) {
      Text.FormatParse(n.allocatable[key]);
    }
  }

  /** A record is filed under the name of its node. */
  lemma NodeRecordNamed(s: Settings, n: Node)
    requires NodeRecord(s, n).Some?
    ensures NameOf(NodeRecord(s, n).value) == n.name
  {
  }

  /** The present values, in order. */
  function Somes<T>(xs: seq<Option<T>>): seq<T> {
    if |xs| == 0 then []
    else (if xs[0].Some? then [xs[0].value] else []) + Somes(xs[1..])
  }

  /** Every present value is kept and nothing else. */
  lemma {:induction false} SomesMembers<T>(xs: seq<Option<T>>, x: T)
    ensures x in Somes(xs) <==> Some(x) in xs
  {
    if |xs| > 0 {
      SomesMembers(xs[1..], x);
      assert xs == [xs[0]] + xs[1..];
    }
  }

  /** Values with pairwise different keys keep pairwise different keys. */
  lemma {:induction false} SomesDistinct<T, K>(xs: seq<Option<T>>, key: T -> K)
    requires forall i, j :: 0 <= i < j < |xs| && xs[i].Some? && xs[j].Some? ==> key(xs[i].value) != key(xs[j].value)
    ensures forall i, j :: 0 <= i < j < |Somes(xs)| ==> key(Somes(xs)[i]) != key(Somes(xs)[j])
  {
    if |xs| > 0 {
      var tail := xs[1..];
      forall i, j | 0 <= i < j < |tail| && tail[i].Some? && tail[j].Some?
        ensures key(tail[i].value) != key(tail[j].value)
      {
        assert tail[i] == xs[i + 1] && tail[j] == xs[j + 1];
      }
      SomesDistinct(tail, key);
      var rest := Somes(tail);
      if xs[0].Some? {
        forall j | 0 <= j < |rest|
          ensures key(rest[j]) != key(xs[0].value)
        {
          assert rest[j] in rest;
          SomesMembers(tail, rest[j]);
          var k :| 0 <= k < |tail| && tail[k] == Some(rest[j]);
          assert xs[k + 1] == tail[k];
        }
        var all := Somes(xs);
        assert all == [xs[0].value] + rest;
        forall i, j | 0 <= i < j < |all|
          ensures key(all[i]) != key(all[j])
        {
          assert all[j] == rest[j - 1];
          if i > 0 {
            assert all[i] == rest[i - 1];
          }
        }
      }
    }
  }

  /** Each node's record, if it has one. */
  function Summaries(s: Settings, nodes: seq<Node>): (xs: seq<Option<Record>>)
    ensures |xs| == |nodes|
    ensures forall i :: 0 <= i < |nodes| ==> xs[i] == NodeRecord(s, nodes[i])
  {
    seq(|nodes|, i requires 0 <= i < |nodes| => NodeRecord(s, nodes[i]))
  }

  /** The records of the listed nodes, in list order, nodes without one left out. */
  function Records(s: Settings, nodes: seq<Node>): seq<Record> {
    Somes(Summaries(s, nodes))
  }

  /** The records are exactly the records of the listed nodes that have one. */
  lemma RecordsMembers(s: Settings, nodes: seq<Node>, r: Record)
    ensures r in Records(s, nodes) <==> exists i :: 0 <= i < |nodes| && NodeRecord(s, nodes[i]) == Some(r)
  {
    var xs := Summaries(s, nodes);
    SomesMembers(xs, r);
    if Some(r) in xs {
      var i :| 0 <= i < |xs| && xs[i] == Some(r);
    }
  }

  /** The name a record is cached under: Go's `value["nodeName"]`, "" when absent. */
  function NameOf(r: Record): string {
    if NodeName in r then r[NodeName] else ""
  }

  /** No two records name the same node. */
  ghost predicate DistinctNames(rs: seq<Record>) {
    forall i, j :: 0 <= i < j < |rs| ==> NameOf(rs[i]) != NameOf(rs[j])
  }

  /** Nodes with distinct names give records with distinct names. */
  lemma RecordsDistinct(s: Settings, nodes: seq<Node>)
    requires forall i, j :: 0 <= i < j < |nodes| ==> nodes[i].name != nodes[j].name
    ensures DistinctNames(Records(s, nodes))
  {
    var xs := Summaries(s, nodes);
    forall i, j | 0 <= i < j < |xs| && xs[i].Some? && xs[j].Some?
      ensures NameOf(xs[i].value) != NameOf(xs[j].value)
    {
      NodeRecordNamed(s, nodes[i]);
      NodeRecordNamed(s, nodes[j]);
    }
    SomesDistinct(xs, NameOf);
  }

  // ---- the cache ----

  /** `utils.MapEqualMap`, taken to mean equal keys with equal values, i.e. map equality. */
  predicate MapEqualMap(a: Record, b: Record) {
    a == b
  }

  /** The loop of `cacheHit` from record `i` on: every record is cached, unchanged, under its node name. */
  function HitFrom(cache: map<string, Record>, list: seq<Record>, i: nat): bool
    requires i <= |list|
    decreases |list| - i
  {
    if i == |list| then true
    else if NameOf(list[i]) !in cache then false
    else if !MapEqualMap(list[i], cache[NameOf(list[i])]) then false
    else HitFrom(cache, list, i + 1)
  }

  /** `cacheHit`: the cache has one entry per record and every record is cached unchanged. */
  function CacheHit(cache: map<string, Record>, list: seq<Record>): bool {
    |cache| == |list| && HitFrom(cache, list, 0)
  }

  /** Every record is cached, unchanged, under its node name. */
  ghost predicate AllCached(cache: map<string, Record>, list: seq<Record>) {
    forall r :: r in list ==> NameOf(r) in cache && cache[NameOf(r)] == r
  }

  lemma {:induction false} HitFromSpec(cache: map<string, Record>, list: seq<Record>, i: nat)
    requires i <= |list|
    ensures HitFrom(cache, list, i) <==> forall j :: i <= j < |list| ==> NameOf(list[j]) in cache && cache[NameOf(list[j])] == list[j]
    decreases |list| - i
  {
    if i < |list| {
      HitFromSpec(cache, list, i + 1);
    }
  }

  /**
   The cache is hit exactly when it has as many entries as there are records
   and holds every record under its node name, whatever the list order.
   */
  lemma CacheHitSpec(cache: map<string, Record>, list: seq<Record>)
    ensures CacheHit(cache, list) <==> |cache| == |list| && AllCached(cache, list)
  {
    HitFromSpec(cache, list, 0);
    if AllCached(cache, list) {
      forall j | 0 <= j < |list|
        ensures NameOf(list[j]) in cache && cache[NameOf(list[j])] == list[j]
      {
        assert list[j] in list;
      }
    }
  }

  /** Reordering the records does not change the outcome of `cacheHit`. */
  lemma CacheHitOrderFree(cache: map<string, Record>, a: seq<Record>, b: seq<Record>)
    requires multiset(a) == multiset(b)
    ensures CacheHit(cache, a) == CacheHit(cache, b)
  {
    CacheHitSpec(cache, a);
    CacheHitSpec(cache, b);
    assert |a| == |multiset(a)| == |multiset(b)| == |b|;
    assert forall r :: r in a <==> r in multiset(a);
    assert forall r :: r in b <==> r in multiset(b);
  }

  function NamedPairs(list: seq<Record>): (ps: seq<(string, Record)>)
    ensures |ps| == |list|
    ensures forall i :: 0 <= i < |list| ==> ps[i] == (NameOf(list[i]), list[i])
  {
    seq(|list|, i requires 0 <= i < |list| => (NameOf(list[i]), list[i]))
  }

  /** `cacheRefresh`: a new cache holding each record under its node name, a later record winning. */
  function CacheRefresh(list: seq<Record>): map<string, Record> {
    Assoc.FromPairs(NamedPairs(list))
  }

  /** With distinct node names the refreshed cache holds every record, one entry each. */
  lemma RefreshHolds(list: seq<Record>)
    requires DistinctNames(list)
    ensures |CacheRefresh(list)| == |list| && AllCached(CacheRefresh(list), list)
    ensures CacheRefresh(list).Keys == set r | r in list :: NameOf(r)
  {
    var ps := NamedPairs(list);
    Assoc.DistinctKeysSize(ps);
    forall r | r in list
      ensures NameOf(r) in CacheRefresh(list) && CacheRefresh(list)[NameOf(r)] == r
    {
      var i :| 0 <= i < |list| && list[i] == r;
      assert ps[i] == (NameOf(r), r);
    }
    forall k | k in CacheRefresh(list)
      ensures k in set r | r in list :: NameOf(r)
    {
      Assoc.FirstsMembers(ps, k);
      var i :| 0 <= i < |ps| && ps[i].0 == k;
      assert list[i] in list;
    }
  }

  /** Right after a refresh, the same records hit the cache. */
  lemma RefreshThenHit(list: seq<Record>)
    requires DistinctNames(list)
    ensures CacheHit(CacheRefresh(list), list)
  {
    RefreshHolds(list);
    CacheHitSpec(CacheRefresh(list), list);
  }

  /** With distinct node names, the cache is hit exactly when refreshing it would change nothing. */
  lemma HitIffRefreshNoop(cache: map<string, Record>, list: seq<Record>)
    requires DistinctNames(list)
    ensures CacheHit(cache, list) <==> CacheRefresh(list) == cache
  {
    RefreshHolds(list);
    CacheHitSpec(cache, list);
    CacheHitSpec(CacheRefresh(list), list);
    var refreshed := CacheRefresh(list);
    if CacheHit(cache, list) {
      assert refreshed.Keys <= cache.Keys;
      assert |refreshed.Keys| == |cache.Keys|;
      SubsetSameSize(refreshed.Keys, cache.Keys);
      forall k | k in cache
        ensures refreshed[k] == cache[k]
      {
        var r :| r in list && NameOf(r) == k;
      }
    }
  }

  lemma SubsetSameSize<T>(a: set<T>, b: set<T>)
    requires a <= b && |a| == |b|
    ensures a == b
  {
    assert |b - a| == |b| - |a|;
  }

  // ---- the ConfigMap upsert ----

  /** The name of the artifact the aggregation writes. */
  const ArtifactName := "carina-node-storage"

  datatype ConfigMap = ConfigMap(
    namespace: string,
    name: string,
    labels: map<string, string>,
    annotations: map<string, string>,
    data: map<string, string>)

  datatype Call =
    | ListNodes
    | GetConfigMap(key: ObjectKey)
    | CreateConfigMap(cm: ConfigMap)
    | UpdateConfigMap(cm: ConfigMap)

  /** The calls of one aggregation, the cache it leaves, and whether it succeeded. */
  datatype Sync = Sync(calls: seq<Call>, cache: map<string, Record>, ok: bool)

  /**
   The part of `updateNodeConfigMap` after the records are built. On a cache
   hit nothing more happens. Otherwise the artifact is fetched from
   `namespace`: a missing one is created holding the JSON of the records under
   "node"; an existing one has its data replaced by that single entry and is
   updated. Only a successful update refreshes the cache. `json` stands for
   `json.Marshal`; `createOk` and `updateOk` say whether the API server accepts
   the write.
   */
  function Upsert(namespace: string, list: seq<Record>, cache: map<string, Record>,
                  existing: Fetch<ConfigMap>, createOk: bool, updateOk: bool,
                  json: seq<Record> -> string): (r: Sync)
    ensures r.calls == [] <==> CacheHit(cache, list)
    ensures CacheHit(cache, list) ==> r.ok && r.cache == cache
    ensures !CacheHit(cache, list) ==> |r.calls| >= 1 && r.calls[0] == GetConfigMap(ObjectKey(namespace, ArtifactName))
    ensures !CacheHit(cache, list) && existing.FetchError? ==> |r.calls| == 1 && !r.ok && r.cache == cache
    ensures !CacheHit(cache, list) && existing.NotFound? ==>
      |r.calls| == 2 && r.calls[1].CreateConfigMap? && r.ok == createOk && r.cache == cache
    ensures !CacheHit(cache, list) && existing.Found? ==>
      |r.calls| == 2 && r.calls[1].UpdateConfigMap? && r.ok == updateOk && (r.cache == CacheRefresh(list) <== updateOk)
    ensures r.cache == cache || (|r.calls| > 0 && r.ok && r.calls[|r.calls| - 1].UpdateConfigMap? && r.cache == CacheRefresh(list))
    ensures forall c :: c in r.calls && c.CreateConfigMap? ==>
      c.cm == ConfigMap(namespace, ArtifactName, map[], map[], map["node" := json(list)])
    ensures forall c :: c in r.calls && c.UpdateConfigMap? ==>
      existing.Found? && c.cm == existing.value.(data := map["node" := json(list)])
  {
    if CacheHit(cache, list) then Sync([], cache, true)
    else
      var get := GetConfigMap(ObjectKey(namespace, ArtifactName));
      var data := map["node" := json(list)];
      match existing
      case FetchError => Sync([get], cache, false)
      case NotFound => Sync([get, CreateConfigMap(ConfigMap(namespace, ArtifactName, map[], map[], data))], cache, createOk)
      case Found(cm) => Sync([get, UpdateConfigMap(cm.(data := data))], if updateOk then CacheRefresh(list) else cache, updateOk)
  }

  /** `updateNodeConfigMap`: list the nodes, build their records, then `Upsert` them. */
  function UpdateNodeConfigMap(s: Settings, namespace: string, nodes: Listing<Node>, cache: map<string, Record>,
                               existing: Fetch<ConfigMap>, createOk: bool, updateOk: bool,
                               json: seq<Record> -> string): (r: Sync)
    ensures |r.calls| >= 1 && r.calls[0] == ListNodes
    ensures nodes.ListError? ==> r == Sync([ListNodes], cache, false)
  {
    match nodes
    case ListError => Sync([ListNodes], cache, false)
    case Listed(ns) =>
      var u := Upsert(namespace, Records(s, ns), cache, existing, createOk, updateOk, json);
      Sync([ListNodes] + u.calls, u.cache, u.ok)
  }

  /**
   An aggregation over listed nodes issues a call after the list exactly when
   the cache misses. It keeps the cache, or replaces it by the refreshed
   records after a successful update. A create or update writes the JSON of
   the records, and nothing else, under "node" into `carina-node-storage`.
   */
  lemma UpdateNodeConfigMapSpec(s: Settings, namespace: string, ns: seq<Node>, cache: map<string, Record>,
                                existing: Fetch<ConfigMap>, createOk: bool, updateOk: bool, json: seq<Record> -> string)
    ensures var r := UpdateNodeConfigMap(s, namespace, Listed(ns), cache, existing, createOk, updateOk, json);
      && (r.calls == [ListNodes] <==> CacheHit(cache, Records(s, ns)))
      && (CacheHit(cache, Records(s, ns)) ==> r.ok && r.cache == cache)
      && (!CacheHit(cache, Records(s, ns)) ==> |r.calls| >= 2 && r.calls[1] == GetConfigMap(ObjectKey(namespace, ArtifactName)))
      && (!CacheHit(cache, Records(s, ns)) && existing.FetchError? ==> |r.calls| == 2 && !r.ok && r.cache == cache)
      && (!CacheHit(cache, Records(s, ns)) && existing.NotFound? ==>
            |r.calls| == 3 && r.calls[2].CreateConfigMap? && r.ok == createOk && r.cache == cache)
      && (!CacheHit(cache, Records(s, ns)) && existing.Found? ==>
            |r.calls| == 3 && r.calls[2].UpdateConfigMap? && r.ok == updateOk)
      && (r.cache == cache || (r.ok && r.calls[|r.calls| - 1].UpdateConfigMap? && r.cache == CacheRefresh(Records(s, ns))))
      && (forall c :: c in r.calls && c.CreateConfigMap? ==>
            c.cm == ConfigMap(namespace, ArtifactName, map[], map[], map["node" := json(Records(s, ns))]))
      && (forall c :: c in r.calls && c.UpdateConfigMap? ==>
            existing.Found? && c.cm == existing.value.(data := map["node" := json(Records(s, ns))]))
  {
    var u := Upsert(namespace, Records(s, ns), cache, existing, createOk, updateOk, json);
    var r := UpdateNodeConfigMap(s, namespace, Listed(ns), cache, existing, createOk, updateOk, json);
    assert r.calls == [ListNodes] + u.calls;
    assert forall c :: c in r.calls && c != ListNodes ==> c in u.calls;
    if |u.calls| > 0 {
      assert r.calls[|r.calls| - 1] == u.calls[|u.calls| - 1];
      assert r.calls[1] == u.calls[0];
      if |u.calls| > 1 {
        assert r.calls[2] == u.calls[1];
      }
    }
  }

  /** A cache hit issues no Get, Create or Update and keeps the cache. */
  lemma HitIssuesNothing(s: Settings, namespace: string, ns: seq<Node>, cache: map<string, Record>,
                         existing: Fetch<ConfigMap>, createOk: bool, updateOk: bool, json: seq<Record> -> string)
    requires CacheHit(cache, Records(s, ns))
    ensures UpdateNodeConfigMap(s, namespace, Listed(ns), cache, existing, createOk, updateOk, json) == Sync([ListNodes], cache, true)
  {
  }

  /**
   After a successful update, a second aggregation over the same nodes (with
   distinct names) is a cache hit: it lists the nodes and stops.
   */
  lemma UpdateThenQuiet(s: Settings, namespace: string, ns: seq<Node>, cache: map<string, Record>, cm: ConfigMap,
                        json: seq<Record> -> string, existing2: Fetch<ConfigMap>, createOk2: bool, updateOk2: bool)
    requires forall i, j :: 0 <= i < j < |ns| ==> ns[i].name != ns[j].name
    requires !CacheHit(cache, Records(s, ns))
    ensures var first := UpdateNodeConfigMap(s, namespace, Listed(ns), cache, Found(cm), false, true, json);
      UpdateNodeConfigMap(s, namespace, Listed(ns), first.cache, existing2, createOk2, updateOk2, json) == Sync([ListNodes], first.cache, true)
  {
    RecordsDistinct(s, ns);
    RefreshThenHit(Records(s, ns));
  }

  /**
   A successful create leaves the cache as it was, so a second aggregation
   over the same nodes finds the artifact and writes it again.
   */
  lemma CreateThenWritesAgain(s: Settings, namespace: string, ns: seq<Node>, cache: map<string, Record>, cm: ConfigMap,
                              json: seq<Record> -> string, updateOk2: bool)
    requires !CacheHit(cache, Records(s, ns))
    ensures var first := UpdateNodeConfigMap(s, namespace, Listed(ns), cache, NotFound, true, false, json);
      && first.ok && first.cache == cache
      && UpdateNodeConfigMap(s, namespace, Listed(ns), first.cache, Found(cm), false, updateOk2, json).calls ==
         [ListNodes, GetConfigMap(ObjectKey(namespace, ArtifactName)), UpdateConfigMap(cm.(data := map["node" := json(Records(s, ns))]))]
  {
  }
}
