/**
 The pod controller (controllers/pod_controller.go): it keeps the host's
 block-I/O throttle files in line with the throttle annotations of the pods
 this node runs for this system's scheduler.

 A pass builds, for each of the four throttle kinds, a map `current` of the limits
 read from the host file and a map `wanted` of the limits wanted, then writes
 every wanted limit that differs from the one read. The cluster reads become
 inputs (a pod fetch, a catalogue of persistent volumes); the shell writes
 become a log of `echo` commands.
 */
module Throttle {
  import opened Base
  import Assoc
  import Text

  const Customized := "kubernetes.customized"
  const CGroupDir := "/sys/fs/cgroup/blkio/"

  /** The four throttle files. */
  datatype Kind = ReadBps | ReadIops | WriteBps | WriteIops {
    function FileName(): string {
      match this
      case ReadBps => "blkio.throttle.read_bps_device"
      case ReadIops => "blkio.throttle.read_iops_device"
      case WriteBps => "blkio.throttle.write_bps_device"
      case WriteIops => "blkio.throttle.write_iops_device"
    }

    /** `filepath.Join(BlkIOCGroupPath, name)`. */
    function Path(): string {
      CGroupDir + FileName()
    }

    /** The pod annotation that asks for a limit of this kind. */
    function Annotation(): string {
      Customized + "/" + FileName()
    }
  }

  /** The kinds in the order both passes visit them. */
  const Kinds: seq<Kind> := [ReadBps, ReadIops, WriteBps, WriteIops]

  // ---- pods and events ----

  /** A pod volume; `claimName` is set when the volume is backed by a claim. */
  datatype Volume = Volume(name: string, claimName: Option<string>)

  datatype PodPhase = PodPending | PodRunning | PodSucceeded | PodFailed | PodUnknown

  datatype Pod = Pod(
    namespace: string,
    name: string,
    nodeName: string,
    schedulerName: string,
    annotations: map<string, string>,
    deleting: bool,
    phase: PodPhase,
    volumes: seq<Volume>)

  /** `podFilter.filter`: a pod placed on this node by this system's scheduler. */
  predicate Admits(s: Settings, nodeName: string, pod: Option<Pod>) {
    pod.Some? && pod.value.nodeName == nodeName && pod.value.schedulerName == s.scheduler
  }

  datatype PodEvent =
    | Created(pod: Option<Pod>)
    | Updated(before: Option<Pod>, after: Option<Pod>)
    | Deleted(pod: Option<Pod>)
    | Generic(pod: Option<Pod>)

  /** The event predicates of `podFilter`. */
  predicate Passes(s: Settings, nodeName: string, e: PodEvent) {
    match e
    case Created(p) => Admits(s, nodeName, p)
    case Updated(_, p) => Admits(s, nodeName, p)
    case Deleted(_) => false
    case Generic(_) => false
  }

  // ---- resolving a pod volume to a device ----

  /** The key both field indexes build: `fmt.Sprintf("%s-%s", a, b)`. */
  function IndexKey(a: string, b: string): string {
    a + "-" + b
  }

  /** The `pvIndex` field index: one key for a plugin volume bound to a claim, none otherwise. */
  function PvIndex(s: Settings, pv: Option<PersistentVolume>): (keys: seq<string>)
    ensures |keys| <= 1
    ensures |keys| == 1 <==> pv.Some? && ServedByPlugin(s, pv.value) && pv.value.claimRef.Some?
    ensures |keys| == 1 ==> keys[0] == IndexKey(pv.value.claimRef.value.namespace, pv.value.claimRef.value.name)
  {
    if pv.None? then []
    else if pv.value.csi.None? then []
    else if pv.value.csi.value.driver != s.pluginName then []
    else if pv.value.claimRef.None? then []
    else [IndexKey(pv.value.claimRef.value.namespace, pv.value.claimRef.value.name)]
  }

  /** The persistent volumes the cluster holds, and the index keys for which `List` fails. */
  datatype PvCatalog = PvCatalog(pvs: seq<PersistentVolume>, failing: set<string>)

  /** `List(pvList, MatchingFields{"pvIndex": key})` on a catalogue that answers. */
  function Matching(s: Settings, pvs: seq<PersistentVolume>, key: string): (r: seq<PersistentVolume>)
    ensures |r| <= |pvs|
    ensures forall pv :: pv in r <==> pv in pvs && key in PvIndex(s, Some(pv))
  {
    if |pvs| == 0 then []
    else (if key in PvIndex(s, Some(pvs[0])) then [pvs[0]] else []) + Matching(s, pvs[1..], key)
  }

  /** A lookup returns each matching volume as often as the cluster lists it, and no other volume. */
  lemma {:induction false} MatchingCounts(s: Settings, pvs: seq<PersistentVolume>, key: string)
    ensures forall pv :: (multiset(Matching(s, pvs, key))[pv] ==
      if key in PvIndex(s, Some(pv)) then multiset(pvs)[pv] else 0)
  {
    if |pvs| > 0 {
      MatchingCounts(s, pvs[1..], key);
      assert pvs == [pvs[0]] + pvs[1..];
    }
  }

  /** The volumes of `pvs` are listed once each. */
  ghost predicate Unrepeated(pvs: seq<PersistentVolume>) {
    forall i, j :: 0 <= i < j < |pvs| ==> pvs[i] != pvs[j]
  }

  /** `pv` is the only volume of `pvs` under the index key. */
  ghost predicate SoleMatch(s: Settings, pvs: seq<PersistentVolume>, key: string, pv: PersistentVolume) {
    && pv in pvs && key in PvIndex(s, Some(pv))
    && forall q :: q in pvs && key in PvIndex(s, Some(q)) ==> q == pv
  }

  /**
   When the cluster lists each volume once, a lookup returns exactly one
   volume exactly when one volume carries the key.
   */
  lemma {:induction false} MatchingOne(s: Settings, pvs: seq<PersistentVolume>, key: string)
    requires Unrepeated(pvs)
    ensures |Matching(s, pvs, key)| == 1 <==> exists pv :: SoleMatch(s, pvs, key, pv)
  {
    if |pvs| > 0 {
      var p, rest := pvs[0], pvs[1..];
      assert Unrepeated(rest) by {
        forall i, j | 0 <= i < j < |rest|
          ensures rest[i] != rest[j]
        {
          assert rest[i] == pvs[i + 1] && rest[j] == pvs[j + 1];
        }
      }
      assert p !in rest by {
        forall i | 0 <= i < |rest|
          ensures rest[i] != p
        {
          assert rest[i] == pvs[i + 1];
        }
      }
      assert forall q :: q in pvs <==> q == p || q in rest;
      MatchingOne(s, rest, key);
      if key in PvIndex(s, Some(p)) {
        assert Matching(s, pvs, key) == [p] + Matching(s, rest, key);
        MatchingEmpty(s, rest, key);
        forall pv | SoleMatch(s, pvs, key, pv)
          ensures pv == p
        {
        }
        if Matching(s, rest, key) == [] {
          assert SoleMatch(s, pvs, key, p);
        }
      } else {
        assert Matching(s, pvs, key) == Matching(s, rest, key);
        assert forall pv :: SoleMatch(s, pvs, key, pv) <==> SoleMatch(s, rest, key, pv);
      }
    }
  }

  /** A lookup comes back empty exactly when no volume carries the key. */
  lemma MatchingEmpty(s: Settings, pvs: seq<PersistentVolume>, key: string)
    ensures Matching(s, pvs, key) == [] <==> forall q :: q in pvs ==> key !in PvIndex(s, Some(q))
  {
    var m := Matching(s, pvs, key);
    if m != [] {
      assert m[0] in m;
    }
  }

  /** `major:minor` from the volume attributes; Go reads a missing attribute as "". */
  function DeviceKey(s: Settings, csi: Csi): string {
    Get(csi.attributes, s.majorAttr) + ":" + Get(csi.attributes, s.minorAttr)
  }

  /**
   The device a pod volume is throttled on: none for a volume without a claim,
   for a failed `List`, or when the index lists other than exactly one volume.
   The source also skips a volume of another driver, but the index never lists
   one, so that test never fires.
   */
  function ResolveDevice(s: Settings, cat: PvCatalog, namespace: string, v: Volume): (d: Option<string>)
    ensures d.Some? <==>
      && v.claimName.Some?
      && IndexKey(namespace, v.claimName.value) !in cat.failing
      && |Matching(s, cat.pvs, IndexKey(namespace, v.claimName.value))| == 1
    ensures d.Some? ==> exists pv :: (
      && pv in cat.pvs
      && ServedByPlugin(s, pv) && pv.claimRef.Some?
      && IndexKey(pv.claimRef.value.namespace, pv.claimRef.value.name) == IndexKey(namespace, v.claimName.value)
      && d.value == DeviceKey(s, pv.csi.value))
  {
    if v.claimName.None? then None
    else
      var key := IndexKey(namespace, v.claimName.value);
      if key in cat.failing then None
      else
        var items := Matching(s, cat.pvs, key);
        if |items| != 1 then None
        else
          assert items[0] in items;
          if !ServedByPlugin(s, items[0]) then None
          else Some(DeviceKey(s, items[0].csi.value))
  }

  /**
   The converse direction: a claimed volume whose lookup succeeds resolves to
   the device of the one plugin volume bound under its key, when the cluster
   lists each volume once and only that volume carries the key.
   */
  lemma ResolvesSoleMatch(s: Settings, cat: PvCatalog, namespace: string, v: Volume, pv: PersistentVolume)
    requires v.claimName.Some? && IndexKey(namespace, v.claimName.value) !in cat.failing
    requires Unrepeated(cat.pvs) && SoleMatch(s, cat.pvs, IndexKey(namespace, v.claimName.value), pv)
    ensures ResolveDevice(s, cat, namespace, v) == Some(DeviceKey(s, pv.csi.value))
  {
    var key := IndexKey(namespace, v.claimName.value);
    MatchingOne(s, cat.pvs, key);
    var items := Matching(s, cat.pvs, key);
    assert items[0] in items;
    assert items[0] == pv;
  }

  /**
   The index key is not injective: a pod in namespace `a` using claim `b-c`
   is resolved through a plugin volume bound to claim `c` of namespace `a-b`.
   */
  lemma ForeignClaimResolves(s: Settings, pv: PersistentVolume)
    requires ServedByPlugin(s, pv) && pv.claimRef == Some(ObjectKey("a-b", "c"))
    ensures ResolveDevice(s, PvCatalog([pv], {}), "a", Volume("data", Some("b-c"))) == Some(DeviceKey(s, pv.csi.value))
  {
    assert IndexKey("a", "b-c") == IndexKey("a-b", "c");
    assert Matching(s, [pv], IndexKey("a", "b-c")) == [pv];
  }

  /** The devices of a pod's volumes, in volume order. */
  function PodDevices(s: Settings, cat: PvCatalog, namespace: string, vols: seq<Volume>): (ds: seq<string>)
    ensures forall d :: d in ds <==> exists i :: 0 <= i < |vols| && ResolveDevice(s, cat, namespace, vols[i]) == Some(d)
  {
    if |vols| == 0 then []
    else
      var rest := PodDevices(s, cat, namespace, vols[1..]);
      assert forall i :: 0 < i < |vols| ==> vols[1..][i - 1] == vols[i];
      match ResolveDevice(s, cat, namespace, vols[0])
      case Some(d) => [d] + rest
      case None => rest
  }

  // ---- the desired limits ----

  /** What a pod asks for on `kind`: its annotation, or "0" (no limit) without one. */
  function Requested(pod: Pod, kind: Kind): string {
    if kind.Annotation() in pod.annotations then pod.annotations[kind.Annotation()] else "0"
  }

  /** One throttle file in a pass (`cgroupblkio`): the limits read from the host and the limits wanted. */
  datatype Blkio = Blkio(kind: Kind, current: map<string, string>, wanted: map<string, string>)

  /**
   `SinglePodCGroupConfig`: every kind is visited, nothing is read from the
   host, and each device of the pod is asked for the pod's value of the kind.
   */
  function SinglePodPlan(s: Settings, cat: PvCatalog, pod: Pod): (plan: seq<Blkio>)
    ensures |plan| == |Kinds|
    ensures forall i :: 0 <= i < |plan| ==> plan[i].kind == Kinds[i] && plan[i].current == map[]
    ensures forall i :: 0 <= i < |plan| ==>
      forall d :: d in plan[i].wanted <==> exists j :: 0 <= j < |pod.volumes| && ResolveDevice(s, cat, pod.namespace, pod.volumes[j]) == Some(d)
    ensures forall i :: 0 <= i < |plan| ==>
      forall d :: d in plan[i].wanted ==> plan[i].wanted[d] == Requested(pod, Kinds[i])
  {
    var ds := PodDevices(s, cat, pod.namespace, pod.volumes);
    seq(|Kinds|, i requires 0 <= i < |Kinds| => Blkio(Kinds[i], map[], map d | d in ds :: Requested(pod, Kinds[i])))
  }

  /** A device of one pod met by the full pass, with that pod's annotations. */
  datatype Touch = Touch(annotations: map<string, string>, device: string)

  /** The (pod, device) pairs of one pod, in volume order. */
  function PodTouches(s: Settings, cat: PvCatalog, p: Pod): seq<Touch> {
    var ds := PodDevices(s, cat, p.namespace, p.volumes);
    seq(|ds|, j requires 0 <= j < |ds| => Touch(p.annotations, ds[j]))
  }

  /** The full pass's (pod, device) pairs in visiting order: pods in list order, volumes in pod order. */
  function Touches(s: Settings, cat: PvCatalog, pods: seq<Pod>): seq<Touch> {
    if |pods| == 0 then [] else PodTouches(s, cat, pods[0]) + Touches(s, cat, pods[1..])
  }

  /** One pod yields a pair for each of its devices, with its annotations, and no other pair. */
  lemma PodTouchesMembers(s: Settings, cat: PvCatalog, p: Pod)
    ensures forall t :: t in PodTouches(s, cat, p) <==> (t.annotations == p.annotations
      && t.device in PodDevices(s, cat, p.namespace, p.volumes))
  {
    var ds := PodDevices(s, cat, p.namespace, p.volumes);
    var here := PodTouches(s, cat, p);
    forall t: Touch | t.annotations == p.annotations && t.device in ds
      ensures t in here
    {
      var j :| 0 <= j < |ds| && ds[j] == t.device;
      assert here[j] == t;
    }
  }

  /** The full pass meets a pair exactly when its pod is listed and its device is one of that pod's. */
  lemma {:induction false} TouchesMembers(s: Settings, cat: PvCatalog, pods: seq<Pod>)
    ensures forall t :: t in Touches(s, cat, pods) <==> exists p :: (p in pods && t.annotations == p.annotations
      && t.device in PodDevices(s, cat, p.namespace, p.volumes))
  {
    if |pods| > 0 {
      PodTouchesMembers(s, cat, pods[0]);
      TouchesMembers(s, cat, pods[1..]);
      assert forall p :: p in pods <==> p == pods[0] || p in pods[1..];
    }
  }

  /** A pod in front of a list is visited first. */
  lemma TouchesCons(s: Settings, cat: PvCatalog, p: Pod, rest: seq<Pod>)
    ensures Touches(s, cat, [p] + rest) == PodTouches(s, cat, p) + Touches(s, cat, rest)
  {
    var pods := [p] + rest;
    assert pods[0] == p && pods[1..] == rest;
  }

  /**
   The pass visits pods in list order: the pairs of `a + b` are those of `a`,
   then those of `b`; in particular a pod's pairs follow those of every pod before it.
   */
  lemma {:induction false} TouchesConcat(s: Settings, cat: PvCatalog, a: seq<Pod>, b: seq<Pod>)
    ensures Touches(s, cat, a + b) == Touches(s, cat, a) + Touches(s, cat, b)
  {
    if |a| == 0 {
      assert a + b == b;
    } else {
      var ab := a + b;
      var here := PodTouches(s, cat, a[0]);
      assert ab[0] == a[0];
      assert ab[1..] == a[1..] + b;
      calc {
        Touches(s, cat, ab);
        here + Touches(s, cat, ab[1..]);
        { TouchesConcat(s, cat, a[1..], b); }
        here + (Touches(s, cat, a[1..]) + Touches(s, cat, b));
        (here + Touches(s, cat, a[1..])) + Touches(s, cat, b);
        Touches(s, cat, a) + Touches(s, cat, b);
      }
    }
  }

  /** One pod's pairs are the ones of `PodTouches`. */
  lemma TouchesOne(s: Settings, cat: PvCatalog, p: Pod)
    ensures Touches(s, cat, [p]) == PodTouches(s, cat, p)
  {
    assert [p][1..] == [];
  }

  /** What the full pass assigns on `kind` for `t`: the annotation, else "0" for a device the host file already lists. */
  function Assigns(kind: Kind, current: map<string, string>, t: Touch): Option<string> {
    if kind.Annotation() in t.annotations then Some(t.annotations[kind.Annotation()])
    else if t.device in current then Some("0")
    else None
  }

  /** The `wanted` map the full pass builds for `kind`, assigning in visiting order. */
  function ResyncDesired(kind: Kind, current: map<string, string>, ts: seq<Touch>): map<string, string> {
    if |ts| == 0 then map[]
    else
      var m := ResyncDesired(kind, current, ts[..|ts| - 1]);
      var t := ts[|ts| - 1];
      match Assigns(kind, current, t)
      case Some(v) => m[t.device := v]
      case None => m
  }

  /** Position `i` is the last pair that assigns to its device. */
  ghost predicate LastAssign(kind: Kind, current: map<string, string>, ts: seq<Touch>, i: int) {
    && 0 <= i < |ts|
    && Assigns(kind, current, ts[i]).Some?
    && forall j :: i < j < |ts| && ts[j].device == ts[i].device ==> Assigns(kind, current, ts[j]).None?
  }

  /**
   The full pass wants a limit on a device exactly when some visited pod of
   that device has the annotation, or the host file already lists the device.
   */
  lemma ResyncDesiredKeys(kind: Kind, current: map<string, string>, ts: seq<Touch>, d: string)
    ensures d in ResyncDesired(kind, current, ts) <==>
      exists i :: 0 <= i < |ts| && ts[i].device == d && Assigns(kind, current, ts[i]).Some?
  {
    if d in ResyncDesired(kind, current, ts) {
      var i := LastAssignOf(kind, current, ts, d);
    }
    if exists i :: 0 <= i < |ts| && ts[i].device == d && Assigns(kind, current, ts[i]).Some? {
      var i :| 0 <= i < |ts| && ts[i].device == d && Assigns(kind, current, ts[i]).Some?;
      AssignKept(kind, current, ts, i);
    }
  }

  /** A device assigned anywhere in the pass stays wanted to the end. */
  lemma {:induction false} AssignKept(kind: Kind, current: map<string, string>, ts: seq<Touch>, i: int)
    requires 0 <= i < |ts| && Assigns(kind, current, ts[i]).Some?
    ensures ts[i].device in ResyncDesired(kind, current, ts)
  {
    var n := |ts| - 1;
    if i < n {
      var pre := ts[..n];
      assert pre[i] == ts[i];
      AssignKept(kind, current, pre, i);
    }
  }

  /** The value the full pass wants on a device is the one the last pod assigning it assigns. */
  lemma ResyncDesiredValue(kind: Kind, current: map<string, string>, ts: seq<Touch>, d: string, v: string)
    ensures (d in ResyncDesired(kind, current, ts) && ResyncDesired(kind, current, ts)[d] == v) <==>
      exists i :: LastAssign(kind, current, ts, i) && ts[i].device == d && Assigns(kind, current, ts[i]) == Some(v)
  {
    if d in ResyncDesired(kind, current, ts) && ResyncDesired(kind, current, ts)[d] == v {
      var i := LastAssignOf(kind, current, ts, d);
    }
    if exists i :: LastAssign(kind, current, ts, i) && ts[i].device == d && Assigns(kind, current, ts[i]) == Some(v) {
      var i :| LastAssign(kind, current, ts, i) && ts[i].device == d && Assigns(kind, current, ts[i]) == Some(v);
      LastAssignSets(kind, current, ts, i);
    }
  }

  /** The last assignment to a device survives to the end of the pass. */
  lemma {:induction false} LastAssignSets(kind: Kind, current: map<string, string>, ts: seq<Touch>, i: int)
    requires LastAssign(kind, current, ts, i)
    ensures ts[i].device in ResyncDesired(kind, current, ts)
    ensures ResyncDesired(kind, current, ts)[ts[i].device] == Assigns(kind, current, ts[i]).value
  {
    var n := |ts| - 1;
    if i < n {
      var pre := ts[..n];
      assert pre[i] == ts[i];
      assert LastAssign(kind, current, pre, i) by {
        forall j | i < j < |pre| && pre[j].device == pre[i].device
          ensures Assigns(kind, current, pre[j]).None?
        {
          assert pre[j] == ts[j];
        }
      }
      LastAssignSets(kind, current, pre, i);
    }
  }

  /** Every wanted entry comes from the last assignment to its device. */
  lemma {:induction false} LastAssignOf(kind: Kind, current: map<string, string>, ts: seq<Touch>, d: string) returns (i: nat)
    requires d in ResyncDesired(kind, current, ts)
    ensures LastAssign(kind, current, ts, i) && ts[i].device == d
    ensures Assigns(kind, current, ts[i]) == Some(ResyncDesired(kind, current, ts)[d])
  {
    var n := |ts| - 1;
    if ts[n].device == d && Assigns(kind, current, ts[n]).Some? {
      i := n;
    } else {
      var pre := ts[..n];
      i := LastAssignOf(kind, current, pre, d);
      assert pre[i] == ts[i];
      forall j | i < j < |ts| && ts[j].device == ts[i].device
        ensures Assigns(kind, current, ts[j]).None?
      {
        if j < n {
          assert pre[j] == ts[j];
        }
      }
    }
  }

  // ---- reading the host files ----

  /** A line the parser can index: after trimming it holds at least one space. */
  predicate WellFormedLine(line: string) {
    |Text.Split(Text.TrimSpace(line), ' ')| >= 2
  }

  /**
   `strings.Split(strings.TrimSpace(line), " ")`, fields 0 and 1: device key
   and value. A line without field 1 is a panic in Go; `ResyncPlan` stops
   before parsing when any line is like that, so its result here is immaterial.
   */
  function ParseLine(line: string): (string, string) {
    var f := Text.Split(Text.TrimSpace(line), ' ');
    if |f| >= 2 then (f[0], f[1]) else (f[0], "")
  }

  /** The (device key, value) pair of every line, in file order. */
  function Entries(lines: seq<string>): (ps: seq<(string, string)>)
    ensures |ps| == |lines|
    ensures forall i :: 0 <= i < |lines| ==> ps[i] == ParseLine(lines[i])
  {
    seq(|lines|, i requires 0 <= i < |lines| => ParseLine(lines[i]))
  }

  /** The `current` map of one file: each line assigns its value to its device key. */
  function ParseLines(lines: seq<string>): map<string, string> {
    Assoc.FromPairs(Entries(lines))
  }

  /** A later line for a device overwrites an earlier one: the file maps `k` to `v` exactly when its last line for `k` says `v`. */
  lemma ParseLinesLastWins(lines: seq<string>, k: string, v: string)
    ensures (k in ParseLines(lines) && ParseLines(lines)[k] == v) <==>
      exists i :: 0 <= i < |lines| && ParseLine(lines[i]) == (k, v)
        && forall j :: i < j < |lines| ==> ParseLine(lines[j]).0 != k
  {
    var ps := Entries(lines);
    Assoc.LastWins(ps, k, v);
    forall i | 0 <= i < |lines|
      ensures Assoc.LastFor(ps, i) <==> forall j :: i < j < |lines| ==> ParseLine(lines[j]).0 != ParseLine(lines[i]).0
    {
    }
  }

  /** The host file format `<major>:<minor> <value>`: a line the kernel writes parses to its two fields. */
  lemma ParseLineOfEntry(k: string, v: string)
    requires |k| > 0 && |v| > 0
    requires forall i :: 0 <= i < |k| ==> !Text.IsSpace(k[i])
    requires forall i :: 0 <= i < |v| ==> !Text.IsSpace(v[i])
    ensures WellFormedLine(k + " " + v) && ParseLine(k + " " + v) == (k, v)
  {
    var line := k + " " + v;
    assert line == Text.Join([k, v], ' ');
    assert line[0] == k[0] && line[|line| - 1] == v[|v| - 1];
    Text.TrimSpaceFixed(line);
    assert ' ' !in k by {
      assert forall i :: 0 <= i < |k| ==> k[i] != ' ';
    }
    assert ' ' !in v by {
      assert forall i :: 0 <= i < |v| ==> v[i] != ' ';
    }
    Text.SplitJoin([k, v], ' ');
  }

  /**
   Every line of every file that opened can be parsed. A line without a space
   (an empty line, say) makes `strSlice[1]` index out of range: Go panics.
   */
  predicate HostWellFormed(files: map<Kind, seq<string>>) {
    forall k :: k in files ==> forall i :: 0 <= i < |files[k]| ==> WellFormedLine(files[k][i])
  }

  /** The kinds of `ks` whose file opened (is present in `files`), in order. */
  function Opened(files: map<Kind, seq<string>>, ks: seq<Kind>): (r: seq<Kind>)
    ensures forall k :: k in r <==> k in ks && k in files
    ensures (forall i, j :: 0 <= i < j < |ks| ==> ks[i] != ks[j]) ==> forall i, j :: 0 <= i < j < |r| ==> r[i] != r[j]
  {
    if |ks| == 0 then []
    else
      var rest := Opened(files, ks[1..]);
      assert forall k :: k in ks[1..] ==> k in ks;
      if ks[0] in files then
        assert ks[0] !in ks[1..] ==> ks[0] !in rest;
        [ks[0]] + rest
      else rest
  }

  /**
   `readCGroupBlkioFile` on files without a malformed line: a file that opened
   is present in `files`, and a kind whose file did not open is left out of the
   result altogether.
   */
  function ReadHost(files: map<Kind, seq<string>>): (plan: seq<Blkio>)
    ensures forall i :: 0 <= i < |plan| ==>
      plan[i].kind in files && plan[i].wanted == map[] && plan[i].current == ParseLines(files[plan[i].kind])
    ensures forall k :: k in files <==> exists i :: 0 <= i < |plan| && plan[i].kind == k
    ensures forall i, j :: 0 <= i < j < |plan| ==> plan[i].kind != plan[j].kind
  {
    ReadHostShape(files);
    Parsed(files, Opened(files, Kinds))
  }

  /** The facts `ReadHost` promises, for the parsed opened files. */
  lemma ReadHostShape(files: map<Kind, seq<string>>)
    ensures var plan := Parsed(files, Opened(files, Kinds));
      && (forall i :: 0 <= i < |plan| ==>
            plan[i].kind in files && plan[i].wanted == map[] && plan[i].current == ParseLines(files[plan[i].kind]))
      && (forall k :: k in files <==> exists i :: 0 <= i < |plan| && plan[i].kind == k)
      && (forall i, j :: 0 <= i < j < |plan| ==> plan[i].kind != plan[j].kind)
  {
    var ks := Opened(files, Kinds);
    OpenedFiles(files);
    var plan := Parsed(files, ks);
    forall i | 0 <= i < |plan|
      ensures plan[i].kind in files && plan[i].wanted == map[] && plan[i].current == ParseLines(files[plan[i].kind])
    {
      assert plan[i] == Blkio(ks[i], ParseLines(files[ks[i]]), map[]);
      assert ks[i] in ks;
    }
    forall i, j | 0 <= i < j < |plan|
      ensures plan[i].kind != plan[j].kind
    {
      assert plan[i].kind == ks[i] && plan[j].kind == ks[j];
    }
    forall k | k in files
      ensures exists i :: 0 <= i < |plan| && plan[i].kind == k
    {
      var i :| 0 <= i < |ks| && ks[i] == k;
      assert plan[i].kind == k;
    }
  }

  /** The opened kinds are exactly the files present, each listed once. */
  lemma OpenedFiles(files: map<Kind, seq<string>>)
    ensures forall k :: k in Opened(files, Kinds) <==> k in files
    ensures var ks := Opened(files, Kinds); forall i, j :: 0 <= i < j < |ks| ==> ks[i] != ks[j]
  {
    assert forall i, j :: 0 <= i < j < |Kinds| ==> Kinds[i] != Kinds[j];
    forall k | k in files
      ensures k in Opened(files, Kinds)
    {
      KindListed(k);
    }
  }

  /** Every kind is one of `Kinds`. */
  lemma KindListed(k: Kind)
    ensures k in Kinds
  {
    assert k == Kinds[0] || k == Kinds[1] || k == Kinds[2] || k == Kinds[3];
  }

  /** The parsed file of each kind of `ks`, in order. */
  function Parsed(files: map<Kind, seq<string>>, ks: seq<Kind>): (plan: seq<Blkio>)
    requires forall k :: k in ks ==> k in files
    ensures |plan| == |ks|
    ensures forall i :: 0 <= i < |ks| ==> plan[i] == Blkio(ks[i], ParseLines(files[ks[i]]), map[])
  {
    seq(|ks|, i requires 0 <= i < |ks| => Blkio(ks[i], ParseLines(files[ks[i]]), map[]))
  }

  /** The pods a `List` on the `combinedIndex` field index returns for `key`. */
  function SelectByIndex(pods: seq<Pod>, key: string): (r: seq<Pod>)
    ensures forall p :: p in r <==> p in pods && IndexKey(p.schedulerName, p.nodeName) == key
  {
    if |pods| == 0 then []
    else (if IndexKey(pods[0].schedulerName, pods[0].nodeName) == key then [pods[0]] else []) + SelectByIndex(pods[1..], key)
  }

  /** A `<a>-<b>` key determines both parts when neither first part holds a hyphen. */
  lemma IndexKeyInjective(a: string, b: string, c: string, d: string)
    requires '-' !in a && '-' !in c
    ensures IndexKey(a, b) == IndexKey(c, d) <==> a == c && b == d
  {
    var k1, k2 := IndexKey(a, b), IndexKey(c, d);
    if k1 == k2 {
      FirstHyphen(a, b);
      FirstHyphen(c, d);
      assert a == k1[..|a|] && c == k2[..|c|];
      assert b == k1[|a| + 1..] && d == k2[|c| + 1..];
    }
  }

  /** The first hyphen of `<a>-<b>` is the separator when `a` holds none. */
  lemma FirstHyphen(a: string, b: string)
    requires '-' !in a
    ensures '-' in IndexKey(a, b) && Text.IndexOf(IndexKey(a, b), '-') == |a|
  {
    var k := IndexKey(a, b);
    assert k[|a|] == '-';
    assert k[..|a|] == a;
  }

  /**
   Every listed pod whose create or update event passes the filter is
   selected by the full pass's `combinedIndex` lookup; the converse holds when
   the scheduler names hold no hyphen.
   */
  lemma FilterSelects(s: Settings, nodeName: string, all: seq<Pod>, p: Pod, before: Option<Pod>)
    requires p in all
    ensures Passes(s, nodeName, Created(Some(p))) ==> p in SelectByIndex(all, IndexKey(s.scheduler, nodeName))
    ensures Passes(s, nodeName, Updated(before, Some(p))) ==> p in SelectByIndex(all, IndexKey(s.scheduler, nodeName))
    ensures '-' !in s.scheduler && '-' !in p.schedulerName ==>
      (p in SelectByIndex(all, IndexKey(s.scheduler, nodeName)) <==> Passes(s, nodeName, Created(Some(p))))
  {
    if '-' !in s.scheduler && '-' !in p.schedulerName {
      IndexKeyInjective(p.schedulerName, p.nodeName, s.scheduler, nodeName);
    }
  }

  /**
   Without that proviso the converse fails: a pod of scheduler "a-b" on node
   "c" shares the key "a-b-c" with node "b-c" of scheduler "a", so the full
   pass over node "b-c" throttles a pod its event filter rejects.
   */
  lemma SelectsForeignPod()
    ensures var s := Settings("csi", "a", "fin", "dev", "major", "minor");
      var p := Pod("ns", "pod", "c", "a-b", map[], false, PodRunning, []);
      p in SelectByIndex([p], IndexKey(s.scheduler, "b-c")) && !Passes(s, "b-c", Created(Some(p)))
  {
    var p := Pod("ns", "pod", "c", "a-b", map[], false, PodRunning, []);
    assert IndexKey("a-b", "c") == IndexKey("a", "b-c");
    assert p in [p];
  }

  /** How a full pass ends before writing: the pod list failed, reading the host panicked, or a plan. */
  datatype Resync = ListFailed | Panicked | Planned(plan: seq<Blkio>)

  /**
   `AllPodCGroupConfig`: a failed pod `List` ends the pass with nothing read
   or written; a malformed host line panics; otherwise the host files that
   opened are read and each one's `wanted` map is built from this node's pods.
   */
  function ResyncPlan(s: Settings, nodeName: string, pods: Listing<Pod>, cat: PvCatalog,
                      files: map<Kind, seq<string>>): (r: Resync)
    ensures r.ListFailed? <==> pods.ListError?
    ensures r.Panicked? <==> pods.Listed? && !HostWellFormed(files)
    ensures r.Planned? ==> forall i :: 0 <= i < |r.plan| ==> r.plan[i].kind in files
    ensures r.Planned? ==> forall k :: k in files <==> exists i :: 0 <= i < |r.plan| && r.plan[i].kind == k
    ensures r.Planned? ==> forall i, j :: 0 <= i < j < |r.plan| ==> r.plan[i].kind != r.plan[j].kind
    ensures r.Planned? ==> forall i :: 0 <= i < |r.plan| ==>
      && r.plan[i].current == ParseLines(files[r.plan[i].kind])
      && r.plan[i].wanted == ResyncDesired(r.plan[i].kind, r.plan[i].current,
                                           Touches(s, cat, SelectByIndex(pods.items, IndexKey(s.scheduler, nodeName))))
  {
    match pods
    case ListError => ListFailed
    case Listed(all) =>
      if !HostWellFormed(files) then Panicked
      else
        var mine := SelectByIndex(all, IndexKey(s.scheduler, nodeName));
        var ts := Touches(s, cat, mine);
        PlanKinds(files, ts);
        PlanLimits(files, ts);
        Planned(WithWanted(ReadHost(files), ts))
  }

  /** A plan built from the host files has one entry per opened file, each of a different kind. */
  lemma PlanKinds(files: map<Kind, seq<string>>, ts: seq<Touch>)
    ensures var plan := WithWanted(ReadHost(files), ts);
      && (forall i :: 0 <= i < |plan| ==> plan[i].kind in files)
      && (forall k :: k in files <==> exists i :: 0 <= i < |plan| && plan[i].kind == k)
      && (forall i, j :: 0 <= i < j < |plan| ==> plan[i].kind != plan[j].kind)
  {
    var host := ReadHost(files);
    var plan := WithWanted(host, ts);
    assert forall i :: 0 <= i < |plan| ==> plan[i].kind == host[i].kind;
    forall k | k in files
      ensures exists i :: 0 <= i < |plan| && plan[i].kind == k
    {
      var i :| 0 <= i < |host| && host[i].kind == k;
      assert plan[i].kind == k;
    }
    forall i, j | 0 <= i < j < |plan|
      ensures plan[i].kind != plan[j].kind
    {
      assert host[i].kind != host[j].kind;
    }
  }

  /** Each entry of such a plan holds its file's parsed limits and the limits the visits assign on its kind. */
  lemma PlanLimits(files: map<Kind, seq<string>>, ts: seq<Touch>)
    ensures var plan := WithWanted(ReadHost(files), ts);
      forall i :: 0 <= i < |plan| ==>
        && plan[i].current == ParseLines(files[plan[i].kind])
        && plan[i].wanted == ResyncDesired(plan[i].kind, plan[i].current, ts)
  {
    var host := ReadHost(files);
    var plan := WithWanted(host, ts);
    forall i | 0 <= i < |plan|
      ensures plan[i].current == ParseLines(files[plan[i].kind])
      ensures plan[i].wanted == ResyncDesired(plan[i].kind, plan[i].current, ts)
    {
      assert plan[i] == host[i].(wanted := ResyncDesired(host[i].kind, host[i].current, ts));
    }
  }

  /** Each file of `host` with its `wanted` map built from the visits `ts`. */
  function WithWanted(host: seq<Blkio>, ts: seq<Touch>): (plan: seq<Blkio>)
    ensures |plan| == |host|
    ensures forall i :: 0 <= i < |host| ==> plan[i] == host[i].(wanted := ResyncDesired(host[i].kind, host[i].current, ts))
  {
    seq(|host|, i requires 0 <= i < |host| => host[i].(wanted := ResyncDesired(host[i].kind, host[i].current, ts)))
  }

  // ---- writing the host files ----

  /** The wanted entries that differ from what the host file holds: the no-op suppression of `writeCgroupBlkioFile`. */
  function Pending(b: Blkio): (p: map<string, string>)
    ensures p.Keys <= b.wanted.Keys
    ensures forall k :: k in p ==> p[k] == b.wanted[k]
    ensures forall k :: k in b.wanted ==> (k in p <==> !(k in b.current && b.current[k] == b.wanted[k]))
  {
    map k | k in b.wanted && !(k in b.current && b.current[k] == b.wanted[k]) :: b.wanted[k]
  }

  /** One shell write, `echo <device> <value> > <path>`. */
  datatype Command = Echo(device: string, value: string, path: string) {
    function Shell(): string {
      "echo " + device + " " + value + " > " + path
    }
  }

  /** The shell line, with each separating space spelled out. */
  lemma ShellSpaces(c: Command)
    ensures c.Shell() == "echo" + [' '] + c.device + [' '] + c.value + [' '] + ">" + [' '] + c.path
  {
    assert "echo " == "echo" + [' '];
    assert " > " == [' '] + ">" + [' '];
  }

  /**
   The annotation value is pasted into the shell line unquoted: a value made
   of several space-separated words reaches `bash -c` as those separate words,
   so a value like "1 ; reboot" runs a second command.
   */
  lemma ShellSplitsValue(c: Command, vs: seq<string>)
    requires ' ' !in c.device && ' ' !in c.path
    requires |vs| >= 1 && (forall i :: 0 <= i < |vs| ==> ' ' !in vs[i]) && c.value == Text.Join(vs, ' ')
    ensures Text.Split(c.Shell(), ' ') == ["echo", c.device] + vs + [">", c.path]
  {
    var words := ["echo", c.device] + vs + [">", c.path];
    ShellJoin(c, vs);
    forall i | 0 <= i < |words|
      ensures ' ' !in words[i]
    {
      if 2 <= i < 2 + |vs| {
        assert words[i] == vs[i - 2];
      }
    }
    Text.SplitJoin(words, ' ');
  }

  /** The shell line is the join, on spaces, of its words and the words of the value. */
  lemma ShellJoin(c: Command, vs: seq<string>)
    requires |vs| >= 1 && c.value == Text.Join(vs, ' ')
    ensures Text.Join(["echo", c.device] + vs + [">", c.path], ' ') == c.Shell()
  {
    Text.JoinAround("echo", c.device, vs, ">", c.path, ' ');
    ShellSpaces(c);
  }

  /**
   The words `bash -c` sees in a write: exactly "echo", the device, the value,
   ">" and the path, provided none of the three holds a space.
   */
  lemma ShellWords(c: Command)
    requires ' ' !in c.device && ' ' !in c.value && ' ' !in c.path
    ensures Text.Split(c.Shell(), ' ') == ["echo", c.device, c.value, ">", c.path]
  {
    ShellSplitsValue(c, [c.value]);
  }

  /** The writes one file's pass issues, as a set. */
  function KindCommands(b: Blkio): set<Command> {
    set k | k in Pending(b) :: Echo(k, Pending(b)[k], b.kind.Path())
  }

  /** The writes a whole pass issues, as a set. */
  function PlanCommands(plan: seq<Blkio>): set<Command> {
    if |plan| == 0 then {} else PlanCommands(plan[..|plan| - 1]) + KindCommands(plan[|plan| - 1])
  }

  /** File `b` writes `c` exactly when it wants `c.value` on `c.device` and does not already hold it. */
  predicate Writes(b: Blkio, c: Command) {
    && c.path == b.kind.Path() && c.device in b.wanted && c.value == b.wanted[c.device]
    && !(c.device in b.current && b.current[c.device] == c.value)
  }

  lemma KindCommandsSpec(b: Blkio, c: Command)
    ensures c in KindCommands(b) <==> Writes(b, c)
  {
    if Writes(b, c) {
      assert c == Echo(c.device, Pending(b)[c.device], b.kind.Path());
    }
  }

  /** A pass writes `c` exactly when some file wants `c.value` on `c.device` and does not already hold it. */
  lemma PlanCommandsSpec(plan: seq<Blkio>, c: Command)
    ensures c in PlanCommands(plan) <==> exists i :: 0 <= i < |plan| && Writes(plan[i], c)
  {
    if c in PlanCommands(plan) {
      var i := PlanCommandWriter(plan, c);
    }
    if exists i :: 0 <= i < |plan| && Writes(plan[i], c) {
      var i :| 0 <= i < |plan| && Writes(plan[i], c);
      PlanCommandsComplete(plan, c, i);
    }
  }

  /** Every write of a pass is wanted by one of its files. */
  lemma {:induction false} PlanCommandWriter(plan: seq<Blkio>, c: Command) returns (i: nat)
    requires c in PlanCommands(plan)
    ensures i < |plan| && Writes(plan[i], c)
  {
    var n := |plan| - 1;
    var pre := plan[..n];
    KindCommandsSpec(plan[n], c);
    if Writes(plan[n], c) {
      i := n;
    } else {
      i := PlanCommandWriter(pre, c);
      assert plan[i] == pre[i];
    }
  }

  /** Every write a file wants is issued by the pass. */
  lemma {:induction false} PlanCommandsComplete(plan: seq<Blkio>, c: Command, i: int)
    requires 0 <= i < |plan| && Writes(plan[i], c)
    ensures c in PlanCommands(plan)
  {
    var n := |plan| - 1;
    if i == n {
      KindCommandsSpec(plan[n], c);
    } else {
      var pre := plan[..n];
      assert pre[i] == plan[i];
      PlanCommandsComplete(pre, c, i);
    }
  }

  /**
   The write loop of one file. Go visits the map in no fixed order, so the
   next device is chosen arbitrarily. A failed write is only recorded in
   `errors`; the loop carries on.
   */
  method WriteKind(b: Blkio, failing: set<Command>) returns (log: seq<Command>, errors: seq<Command>)
    ensures forall i, j :: 0 <= i < j < |log| ==> log[i] != log[j]
    ensures forall c :: c in log <==> c in KindCommands(b)
    ensures forall c :: c in errors <==> c in log && c in failing
  {
    var todo := Pending(b);
    var left := todo.Keys;
    log, errors := [], [];
    while left != {}
      invariant left <= todo.Keys
      invariant forall c :: c in log <==> c in KindCommands(b) && c.device !in left
      invariant forall i, j :: 0 <= i < j < |log| ==> log[i] != log[j]
      invariant forall c :: c in errors <==> c in log && c in failing
      decreases left
    {
      var k :| k in left;
      var c := Echo(k, todo[k], b.kind.Path());
      log := log + [c];
      if c in failing {
        errors := errors + [c];
      }
      left := left - {k};
    }
  }

  /**
   `writeCgroupBlkioFile`: the files in order, each with `WriteKind`. Every
   pending entry of every file is written exactly once, nothing else is
   written, and a failed write stops nothing.
   */
  method WriteAll(plan: seq<Blkio>, failing: set<Command>) returns (log: seq<Command>, errors: seq<Command>)
    requires forall i, j :: 0 <= i < j < |plan| ==> plan[i].kind != plan[j].kind
    ensures forall i, j :: 0 <= i < j < |log| ==> log[i] != log[j]
    ensures forall c :: c in log <==> c in PlanCommands(plan)
    ensures forall c :: c in errors <==> c in log && c in failing
  {
    log, errors := [], [];
    var n := 0;
    while n < |plan|
      invariant n <= |plan|
      invariant forall c :: c in log <==> c in PlanCommands(plan[..n])
      invariant forall c :: c in log ==> exists i :: 0 <= i < n && c.path == plan[i].kind.Path()
      invariant forall i, j :: 0 <= i < j < |log| ==> log[i] != log[j]
      invariant forall c :: c in errors <==> c in log && c in failing
    {
      var more, bad := WriteKind(plan[n], failing);
      PathsDiffer(plan, n);
      PrefixCommands(plan, n);
      log := log + more;
      errors := errors + bad;
      n := n + 1;
    }
    assert plan[..n] == plan;
  }

  lemma PathsDiffer(plan: seq<Blkio>, n: int)
    requires 0 <= n < |plan|
    requires forall i, j :: 0 <= i < j < |plan| ==> plan[i].kind != plan[j].kind
    ensures forall i :: 0 <= i < n ==> plan[i].kind.Path() != plan[n].kind.Path()
  {
    forall i | 0 <= i < n
      ensures plan[i].kind.Path() != plan[n].kind.Path()
    {
      KindPathsDistinct(plan[i].kind, plan[n].kind);
    }
  }

  lemma PrefixCommands(plan: seq<Blkio>, n: int)
    requires 0 <= n < |plan|
    ensures PlanCommands(plan[..n + 1]) == PlanCommands(plan[..n]) + KindCommands(plan[n])
  {
    assert plan[..n + 1][..n] == plan[..n];
  }

  /** Different throttle kinds live in different files. */
  lemma KindPathsDistinct(a: Kind, b: Kind)
    requires a != b
    ensures a.Path() != b.Path()
  {
    var i := |CGroupDir| + 15;
    assert a.Path()[i] != b.Path()[i] || a.Path()[i + 5] != b.Path()[i + 5] || a.Path()[i + 6] != b.Path()[i + 6];
  }

  // ---- what the writes do to the host ----

  /**
   The host's limits after each entry of `w` is written once, as the comment
   on `writeCgroupBlkioFile` describes the kernel: "0" removes a device's
   limit, another value inserts or updates it, an unwritten device keeps its
   limit.
   */
  function Effect(host: map<string, string>, w: map<string, string>): (h: map<string, string>)
    ensures forall k :: k in w && w[k] != "0" ==> k in h && h[k] == w[k]
    ensures forall k :: k in w && w[k] == "0" ==> k !in h
    ensures forall k :: k !in w ==> (k in h <==> k in host) && (k in h ==> h[k] == host[k])
  {
    map k | k in host.Keys + w.Keys && !(k in w && w[k] == "0") :: if k in w then w[k] else host[k]
  }

  /**
   Suppressing the no-op writes changes nothing on the host, as long as the
   host file never lists a "0" limit (the kernel removes those).
   */
  lemma SuppressionKeepsEffect(b: Blkio)
    requires forall k :: k in b.current ==> b.current[k] != "0"
    ensures Effect(b.current, Pending(b)) == Effect(b.current, b.wanted)
  {
  }

  // ---- the two passes end to end ----

  datatype PodStep = Ignore | Fail | Configure(pod: Pod)

  const PollAttempts := 5

  /**
   The wait for the running phase (pod_controller.go:78-87): a running pod
   proceeds; otherwise the pod is fetched again, and a fetch that SUCCEEDS
   ends the reconcile without configuring anything. `reGetOk[i]` says whether
   the i-th fetch succeeds.
   */
  function Poll(pod: Pod, reGetOk: seq<bool>, i: nat): PodStep
    decreases PollAttempts - i
  {
    if i >= PollAttempts || pod.phase == PodRunning then Configure(pod)
    else if i < |reGetOk| && reGetOk[i] then Ignore
    else Poll(pod, reGetOk, i + 1)
  }

  /** `Reconcile` of the pod controller, up to the call of `SinglePodCGroupConfig`. */
  function ReconcilePod(fetch: Fetch<Pod>, reGetOk: seq<bool>): PodStep {
    match fetch
    case NotFound => Ignore
    case FetchError => Fail
    case Found(p) => if p.deleting then Ignore else Poll(p, reGetOk, 0)
  }

  lemma {:induction false} PollConfigures(pod: Pod, reGetOk: seq<bool>, i: nat, p: Pod)
    requires i <= PollAttempts
    ensures Poll(pod, reGetOk, i) == Configure(p) <==>
      p == pod && (pod.phase == PodRunning || forall j :: i <= j < PollAttempts && j < |reGetOk| ==> !reGetOk[j])
    ensures Poll(pod, reGetOk, i) != Fail
    decreases PollAttempts - i
  {
    if i < PollAttempts && pod.phase != PodRunning && !(i < |reGetOk| && reGetOk[i]) {
      PollConfigures(pod, reGetOk, i + 1, p);
    }
  }

  /**
   The single-pod pass runs for a fetched, undeleted pod only when it is
   already running or when all five re-fetches fail; a fetch error is the
   only failure.
   */
  lemma ReconcilePodSpec(fetch: Fetch<Pod>, reGetOk: seq<bool>, p: Pod)
    ensures ReconcilePod(fetch, reGetOk) == Configure(p) <==>
      fetch == Found(p) && !p.deleting
      && (p.phase == PodRunning || forall j :: 0 <= j < PollAttempts && j < |reGetOk| ==> !reGetOk[j])
    ensures ReconcilePod(fetch, reGetOk) == Fail <==> fetch == FetchError
  {
    if fetch.Found? && !fetch.value.deleting {
      PollConfigures(fetch.value, reGetOk, 0, p);
    }
  }

  /**
   A single-pod pass writes, on every kind, each device of the pod once: the
   annotation value where the pod has one and "0" where it has none, since
   nothing is read from the host first.
   */
  lemma SinglePodWrites(s: Settings, cat: PvCatalog, pod: Pod, c: Command)
    ensures c in PlanCommands(SinglePodPlan(s, cat, pod)) <==>
      exists i :: 0 <= i < |Kinds| && c.path == Kinds[i].Path() && c.value == Requested(pod, Kinds[i])
        && exists j :: 0 <= j < |pod.volumes| && ResolveDevice(s, cat, pod.namespace, pod.volumes[j]) == Some(c.device)
  {
    var plan := SinglePodPlan(s, cat, pod);
    PlanCommandsSpec(plan, c);
    forall i | 0 <= i < |plan|
      ensures Writes(plan[i], c) <==> c.path == Kinds[i].Path() && c.value == Requested(pod, Kinds[i]) && c.device in plan[i].wanted
    {
    }
  }

  /**
   A full pass never writes a device that no listed pod selected by the
   node's index key uses, even if the host file holds a limit for it.
   */
  lemma ResyncSkipsUnusedDevices(s: Settings, nodeName: string, all: seq<Pod>, cat: PvCatalog,
                                 files: map<Kind, seq<string>>, d: string, c: Command)
    requires forall p :: p in all && IndexKey(p.schedulerName, p.nodeName) == IndexKey(s.scheduler, nodeName) ==>
      d !in PodDevices(s, cat, p.namespace, p.volumes)
    ensures var r := ResyncPlan(s, nodeName, Listed(all), cat, files);
      r.Planned? && c in PlanCommands(r.plan) ==> c.device != d
  {
    var r := ResyncPlan(s, nodeName, Listed(all), cat, files);
    if r.Planned? && c in PlanCommands(r.plan) {
      var plan := r.plan;
      var i := PlanCommandWriter(plan, c);
      var mine := SelectByIndex(all, IndexKey(s.scheduler, nodeName));
      var ts := Touches(s, cat, mine);
      assert plan[i].wanted == ResyncDesired(plan[i].kind, plan[i].current, ts);
      UsedDevice(plan[i].kind, plan[i].current, ts, c.device);
      TouchesMembers(s, cat, mine);
      var t :| t in ts && t.device == c.device;
      var p :| p in mine && t.annotations == p.annotations && t.device in PodDevices(s, cat, p.namespace, p.volumes);
      assert p in all && IndexKey(p.schedulerName, p.nodeName) == IndexKey(s.scheduler, nodeName);
    }
  }

  /** A device the full pass wants a limit on is touched by some visited pod. */
  lemma UsedDevice(kind: Kind, current: map<string, string>, ts: seq<Touch>, d: string)
    requires d in ResyncDesired(kind, current, ts)
    ensures exists t :: t in ts && t.device == d
  {
    ResyncDesiredKeys(kind, current, ts, d);
    var k :| 0 <= k < |ts| && ts[k].device == d && Assigns(kind, current, ts[k]).Some?;
    assert ts[k] in ts;
  }
}
