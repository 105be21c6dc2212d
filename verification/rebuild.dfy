/**
 The node controller's periodic LogicVolume rebuild (`resourceReconcile` in
 controllers/node_controller.go). It classifies every LogicVolume against the
 node list, the PersistentVolume list and a negative cache. It deletes orphans,
 strips finalizers, and recreates the claim of every LogicVolume that needs a
 rebuild. The cluster client becomes inputs (the three listings, the claims
 that can be fetched, the mutations the API server rejects, the outcome of each
 create attempt) and outputs (the sequence of calls issued).
 */
module Rebuild {
  import opened Base
  import Assoc

  /** A LogicVolume custom resource, reduced to the fields the controller reads. */
  datatype LogicVolume = LogicVolume(
    name: string,
    nodeName: string,         // Spec.NodeName
    namespace: string,        // Spec.NameSpace
    pvc: string,              // Spec.Pvc
    status: string,           // Status.Status
    finalizers: seq<string>,
    owners: seq<string>)      // OwnerReferences, by name

  /** The claim a LogicVolume was provisioned for. */
  function Target(lv: LogicVolume): ObjectKey {
    ObjectKey(lv.namespace, lv.pvc)
  }

  /** Every call the controller issues to the cluster. */
  datatype Call =
    | ListLogicVolumes
    | ListNodes
    | ListVolumes
    | DeleteLv(lv: LogicVolume)
    | PatchLv(from: LogicVolume, to: LogicVolume)
    | GetClaim(key: ObjectKey)
    | DeleteClaim(claim: Claim)
    | CreateClaim(claim: Claim)
  {
    predicate IsList() {
      ListLogicVolumes? || ListNodes? || ListVolumes?
    }
  }

  // ---- node health ----

  datatype Health = Normal | Abnormal

  /** A node being deleted or in phase Terminated is abnormal. */
  function Condition(n: Node): Health {
    if n.deleting || n.phase == NodeTerminated then Abnormal else Normal
  }

  function HealthPairs(nodes: seq<Node>): (ps: seq<(string, Health)>)
    ensures |ps| == |nodes|
    ensures forall i :: 0 <= i < |nodes| ==> ps[i] == (nodes[i].name, Condition(nodes[i]))
  {
    seq(|nodes|, i requires 0 <= i < |nodes| => (nodes[i].name, Condition(nodes[i])))
  }

  /** The `nodeStatus` map, filled in list order. */
  function NodeHealth(nodes: seq<Node>): map<string, Health> {
    Assoc.FromPairs(HealthPairs(nodes))
  }

  /** No later node in the list has the name of node `i`. */
  ghost predicate LastNamed(nodes: seq<Node>, i: int) {
    0 <= i < |nodes| && forall j :: i < j < |nodes| ==> nodes[j].name != nodes[i].name
  }

  /**
   A listed node has an entry, an unlisted one has none, and the entry is the
   condition of the last node listed under that name.
   */
  lemma NodeHealthSpec(nodes: seq<Node>, name: string, h: Health)
    ensures name in NodeHealth(nodes) <==> exists i :: 0 <= i < |nodes| && nodes[i].name == name
    ensures (name in NodeHealth(nodes) && NodeHealth(nodes)[name] == h) <==>
      exists i :: LastNamed(nodes, i) && nodes[i].name == name && Condition(nodes[i]) == h
  {
    var ps := HealthPairs(nodes);
    Assoc.FirstsMembers(ps, name);
    Assoc.LastWins(ps, name, h);
    forall i | 0 <= i < |nodes|
      ensures Assoc.LastFor(ps, i) <==> LastNamed(nodes, i)
    {
    }
  }

  /** The names of the listed PersistentVolumes (`pvMap`). */
  function PvNames(pvs: seq<PersistentVolume>): (names: set<string>)
    ensures forall n :: n in names <==> exists pv :: pv in pvs && pv.name == n
  {
    set pv | pv in pvs :: pv.name
  }

  // ---- classification ----

  /** What the scan reads besides the LogicVolume itself. */
  datatype View = View(pvNames: set<string>, health: map<string, Health>, cache: set<string>)

  datatype Verdict = Owned | Orphaned | NotNeeded | Candidate

  /**
   The four branches of the loop body of `getNeedRebuildVolume`: an owned
   volume is skipped; a volume with a status but no PersistentVolume is an
   orphan; a `Success` volume in the negative cache or on a normal node needs
   nothing; everything else is a rebuild candidate.
   */
  function Judge(view: View, lv: LogicVolume): (v: Verdict)
    ensures v == Owned <==> |lv.owners| > 0
    ensures v == Orphaned <==> |lv.owners| == 0 && lv.status != "" && lv.name !in view.pvNames
    ensures v == NotNeeded ==> lv.status == "Success" && lv.name in view.pvNames
    ensures |lv.owners| == 0 && lv.status == "Success" && lv.name in view.pvNames ==>
      (v == NotNeeded <==> lv.name in view.cache || (lv.nodeName in view.health && view.health[lv.nodeName] == Normal))
    ensures |lv.owners| == 0 && (lv.status == "" || (lv.status != "Success" && lv.name in view.pvNames)) ==> v == Candidate
  {
    if |lv.owners| > 0 then Owned
    else if lv.status != "" && lv.name !in view.pvNames then Orphaned
    else if lv.status == "Success" && (lv.name in view.cache || (lv.nodeName in view.health && view.health[lv.nodeName] == Normal)) then NotNeeded
    else Candidate
  }

  // ---- finalizers ----

  /** `utils.SliceRemoveString`, taken to drop every occurrence of `x` and keep the rest in order. */
  function RemoveString(xs: seq<string>, x: string): (r: seq<string>)
    ensures forall y :: y in r <==> y in xs && y != x
    ensures x !in xs ==> r == xs
  {
    if |xs| == 0 then []
    else (if xs[0] == x then [] else [xs[0]]) + RemoveString(xs[1..], x)
  }

  /** Removing drops every copy of `x` and keeps every other entry as often as it occurs. */
  lemma {:induction false} RemoveStringCounts(xs: seq<string>, x: string)
    ensures multiset(RemoveString(xs, x)) == multiset(xs)[x := 0]
  {
    if |xs| > 0 {
      var head := if xs[0] == x then [] else [xs[0]];
      var rest := RemoveString(xs[1..], x);
      RemoveStringCounts(xs[1..], x);
      assert xs == [xs[0]] + xs[1..];
      assert RemoveString(xs, x) == head + rest;
      assert multiset(head) == multiset([xs[0]])[x := 0];
      assert multiset(head + rest) == multiset(head) + multiset(rest);
    }
  }

  /** The entries of `xs` other than `x`, in order, read from the back. */
  function Without(xs: seq<string>, x: string): seq<string> {
    if |xs| == 0 then []
    else Without(xs[..|xs| - 1], x) + (if xs[|xs| - 1] == x then [] else [xs[|xs| - 1]])
  }

  lemma {:induction false} RemoveStringAppend(a: seq<string>, b: seq<string>, x: string)
    ensures RemoveString(a + b, x) == RemoveString(a, x) + RemoveString(b, x)
  {
    if |a| > 0 {
      var head := if a[0] == x then [] else [a[0]];
      var ab := a + b;
      assert ab[0] == a[0] && ab[1..] == a[1..] + b;
      assert RemoveString(ab, x) == head + RemoveString(a[1..] + b, x);
      assert RemoveString(a, x) == head + RemoveString(a[1..], x);
      RemoveStringAppend(a[1..], b, x);
    } else {
      assert a + b == b;
    }
  }

  /** Removing keeps exactly the other entries, in their order and with their repetitions. */
  lemma {:induction false} RemoveStringKeepsOrder(xs: seq<string>, x: string)
    ensures RemoveString(xs, x) == Without(xs, x)
  {
    if |xs| > 0 {
      var init := xs[..|xs| - 1];
      var last := xs[|xs| - 1];
      RemoveStringKeepsOrder(init, x);
      RemoveStringAppend(init, [last], x);
      assert xs == init + [last];
      assert RemoveString([last], x) == (if last == x then [] else [last]);
    }
  }

  /** `utils.ContainsString` on the finalizer list. */
  predicate HasFinalizer(s: Settings, lv: LogicVolume) {
    s.lvFinalizer in lv.finalizers
  }

  /** The deep copy with the LogicVolume finalizer removed: only the finalizers differ. */
  function StripFinalizer(s: Settings, lv: LogicVolume): (r: LogicVolume)
    ensures !HasFinalizer(s, r)
    ensures forall f :: f in r.finalizers <==> f in lv.finalizers && f != s.lvFinalizer
    ensures r.(finalizers := lv.finalizers) == lv
  {
    lv.(finalizers := RemoveString(lv.finalizers, s.lvFinalizer))
  }

  /**
   The patched copy keeps every other finalizer, in order and as often as it
   occurs, and drops every copy of the LogicVolume finalizer.
   */
  lemma StripKeepsOthers(s: Settings, lv: LogicVolume)
    ensures var fs := StripFinalizer(s, lv).finalizers;
      && fs == Without(lv.finalizers, s.lvFinalizer)
      && multiset(fs) == multiset(lv.finalizers)[s.lvFinalizer := 0]
  {
    RemoveStringKeepsOrder(lv.finalizers, s.lvFinalizer);
    RemoveStringCounts(lv.finalizers, s.lvFinalizer);
  }

  /** Stripping twice is stripping once. */
  lemma StripIdempotent(s: Settings, lv: LogicVolume)
    ensures StripFinalizer(s, StripFinalizer(s, lv)) == StripFinalizer(s, lv)
  {
  }

  // ---- the scan ----

  /** What one LogicVolume costs the scan: its calls, and whether the last of them failed. */
  datatype Step = Step(calls: seq<Call>, failed: bool)

  /**
   The mutations for one LogicVolume. An orphan carrying the finalizer is
   deleted and then patched; a candidate carrying it is patched. A call in
   `rejects` fails and ends the scan.
   */
  function Visit(s: Settings, lv: LogicVolume, v: Verdict, rejects: set<Call>): Step {
    if !HasFinalizer(s, lv) then Step([], false)
    else
      var patch := PatchLv(lv, StripFinalizer(s, lv));
      match v
      case Orphaned =>
        if DeleteLv(lv) in rejects then Step([DeleteLv(lv)], true)
        else Step([DeleteLv(lv), patch], patch in rejects)
      case Candidate => Step([patch], patch in rejects)
      case _ => Step([], false)
  }

  /** The scan's calls, and the candidate map, or `None` when a call failed. */
  datatype Scanned = Scanned(calls: seq<Call>, picked: Option<map<string, ObjectKey>>)

  /** The loop of `getNeedRebuildVolume` over the listed LogicVolumes, in list order. */
  function Scan(s: Settings, view: View, lvs: seq<LogicVolume>, rejects: set<Call>): (r: Scanned)
    ensures forall c :: c in r.calls ==> c.DeleteLv? || c.PatchLv?
  {
    if |lvs| == 0 then Scanned([], Some(map[]))
    else
      var lv := lvs[0];
      var v := Judge(view, lv);
      var st := Visit(s, lv, v, rejects);
      if st.failed then Scanned(st.calls, None)
      else
        var rest := Scan(s, view, lvs[1..], rejects);
        var mine: map<string, ObjectKey> := if v == Candidate then map[lv.name := Target(lv)] else map[];
        Scanned(st.calls + rest.calls, if rest.picked.None? then None else Some(mine + rest.picked.value))
  }

  /**
   `getNeedRebuildVolume`: list the LogicVolumes; stop at once on an empty
   list; list the nodes and the PersistentVolumes; then scan. A failed list
   ends the pass before any mutation.
   */
  function GetNeedRebuild(s: Settings, lvs: Listing<LogicVolume>, nodes: Listing<Node>,
                          pvs: Listing<PersistentVolume>, cache: set<string>, rejects: set<Call>): (r: Scanned)
    ensures |r.calls| >= 1 && r.calls[0] == ListLogicVolumes
  {
    match lvs
    case ListError => Scanned([ListLogicVolumes], None)
    case Listed(items) =>
      if |items| == 0 then Scanned([ListLogicVolumes], Some(map[]))
      else
        match nodes
        case ListError => Scanned([ListLogicVolumes, ListNodes], None)
        case Listed(ns) =>
          match pvs
          case ListError => Scanned([ListLogicVolumes, ListNodes, ListVolumes], None)
          case Listed(vs) =>
            var sc := Scan(s, View(PvNames(vs), NodeHealth(ns), cache), items, rejects);
            Scanned([ListLogicVolumes, ListNodes, ListVolumes] + sc.calls, sc.picked)
  }

  /** An empty LogicVolume list ends the pass without listing nodes or volumes. */
  lemma EmptyListStops(s: Settings, nodes: Listing<Node>, pvs: Listing<PersistentVolume>, cache: set<string>, rejects: set<Call>)
    ensures GetNeedRebuild(s, Listed([]), nodes, pvs, cache, rejects) == Scanned([ListLogicVolumes], Some(map[]))
  {
  }

  /** `failed` holds exactly when the last of `calls` was rejected, and no earlier call was. */
  predicate StopsAt(calls: seq<Call>, failed: bool, rejects: set<Call>) {
    && (failed <==> |calls| > 0 && calls[|calls| - 1] in rejects)
    && forall i :: 0 <= i < |calls| - 1 ==> calls[i] !in rejects
  }

  /** Calls that went through, followed by calls that stop at a rejection, stop at it. */
  lemma StopsAtAppend(a: seq<Call>, b: seq<Call>, failed: bool, rejects: set<Call>)
    requires StopsAt(a, false, rejects) && StopsAt(b, failed, rejects)
    ensures StopsAt(a + b, failed, rejects)
  {
    var ab := a + b;
    forall i | 0 <= i < |ab| - 1
      ensures ab[i] !in rejects
    {
      if i >= |a| {
        assert ab[i] == b[i - |a|];
      }
    }
    if |b| > 0 {
      assert ab[|ab| - 1] == b[|b| - 1];
    } else {
      assert ab == a;
    }
  }

  /** One LogicVolume's calls fail exactly when the last of them was rejected, and no earlier one was. */
  lemma VisitStopsAtRejection(s: Settings, lv: LogicVolume, v: Verdict, rejects: set<Call>)
    ensures var st := Visit(s, lv, v, rejects); StopsAt(st.calls, st.failed, rejects)
  {
  }

  /** One step of the scan: the first LogicVolume's calls, then, unless they failed, the rest. */
  lemma ScanStep(s: Settings, view: View, lvs: seq<LogicVolume>, rejects: set<Call>)
    requires |lvs| > 0
    ensures var st := Visit(s, lvs[0], Judge(view, lvs[0]), rejects);
      var r := Scan(s, view, lvs, rejects);
      && (st.failed ==> r.calls == st.calls && r.picked.None?)
      && (!st.failed ==> r.calls == st.calls + Scan(s, view, lvs[1..], rejects).calls
                         && (r.picked.None? <==> Scan(s, view, lvs[1..], rejects).picked.None?))
  {
  }

  /** The scan fails exactly when its last call was rejected, and no earlier call was. */
  lemma {:induction false} ScanStopsAtRejection(s: Settings, view: View, lvs: seq<LogicVolume>, rejects: set<Call>)
    ensures var r := Scan(s, view, lvs, rejects); StopsAt(r.calls, r.picked.None?, rejects)
  {
    if |lvs| > 0 {
      var st := Visit(s, lvs[0], Judge(view, lvs[0]), rejects);
      VisitStopsAtRejection(s, lvs[0], Judge(view, lvs[0]), rejects);
      ScanStep(s, view, lvs, rejects);
      if !st.failed {
        ScanStopsAtRejection(s, view, lvs[1..], rejects);
        var rest := Scan(s, view, lvs[1..], rejects);
        StopsAtAppend(st.calls, rest.calls, rest.picked.None?, rejects);
      }
    }
  }

  /**
   A list failure that is reached is the only way the pass can fail having
   issued nothing but list calls: the scan fails only on a rejected mutation.
   */
  lemma ListFailureBeforeMutation(s: Settings, lvs: Listing<LogicVolume>, nodes: Listing<Node>,
                                  pvs: Listing<PersistentVolume>, cache: set<string>, rejects: set<Call>)
    ensures var r := GetNeedRebuild(s, lvs, nodes, pvs, cache, rejects);
      (r.picked.None? && forall i :: 0 <= i < |r.calls| ==> r.calls[i].IsList()) <==>
      (lvs.ListError? || (|lvs.items| > 0 && (nodes.ListError? || pvs.ListError?)))
  {
    if lvs.Listed? && |lvs.items| > 0 && nodes.Listed? && pvs.Listed? {
      var view := View(PvNames(pvs.items), NodeHealth(nodes.items), cache);
      var sc := Scan(s, view, lvs.items, rejects);
      ScanStopsAtRejection(s, view, lvs.items, rejects);
      if sc.picked.None? {
        var r := GetNeedRebuild(s, lvs, nodes, pvs, cache, rejects);
        assert r.calls == [ListLogicVolumes, ListNodes, ListVolumes] + sc.calls;
        assert r.calls[|r.calls| - 1] == sc.calls[|sc.calls| - 1];
        assert sc.calls[|sc.calls| - 1] in sc.calls;
      }
    }
  }

  /**
   Every mutation of the scan belongs to a listed LogicVolume carrying the
   finalizer: a delete to an orphan, a patch (to its stripped copy) to an orphan
   or a candidate. Owned and not-needed volumes are never touched.
   */
  lemma {:induction false} ScanMutations(s: Settings, view: View, lvs: seq<LogicVolume>, rejects: set<Call>, c: Call)
    requires c in Scan(s, view, lvs, rejects).calls
    ensures c.DeleteLv? ==> c.lv in lvs && HasFinalizer(s, c.lv) && Judge(view, c.lv) == Orphaned
    ensures c.PatchLv? ==> (c.from in lvs && HasFinalizer(s, c.from) && c.to == StripFinalizer(s, c.from)
      && (Judge(view, c.from) == Orphaned || Judge(view, c.from) == Candidate))
  {
    var st := Visit(s, lvs[0], Judge(view, lvs[0]), rejects);
    if c !in st.calls {
      ScanMutations(s, view, lvs[1..], rejects, c);
    }
  }

  /**
   When the scan succeeds, every orphan carrying the finalizer was deleted and
   patched, and every candidate carrying it was patched.
   */
  lemma {:induction false} ScanCoversFinalizers(s: Settings, view: View, lvs: seq<LogicVolume>, rejects: set<Call>, lv: LogicVolume)
    requires Scan(s, view, lvs, rejects).picked.Some?
    requires lv in lvs && HasFinalizer(s, lv)
    ensures Judge(view, lv) == Orphaned ==> DeleteLv(lv) in Scan(s, view, lvs, rejects).calls
    ensures Judge(view, lv) == Orphaned || Judge(view, lv) == Candidate ==>
      PatchLv(lv, StripFinalizer(s, lv)) in Scan(s, view, lvs, rejects).calls
  {
    if lv != lvs[0] {
      ScanCoversFinalizers(s, view, lvs[1..], rejects, lv);
    }
  }

  /** Every delete in `calls` is followed at once by its patch, or is last and `failed` holds. */
  predicate PatchFollows(s: Settings, calls: seq<Call>, failed: bool) {
    forall i :: 0 <= i < |calls| ==> PatchedAt(s, calls, failed, i)
  }

  /** The call at `i` is no delete, or the next call patches the deleted volume, or it is last and `failed` holds. */
  predicate PatchedAt(s: Settings, calls: seq<Call>, failed: bool, i: nat)
    requires i < |calls|
  {
    calls[i].DeleteLv? ==>
      || (i + 1 < |calls| && calls[i + 1] == PatchLv(calls[i].lv, StripFinalizer(s, calls[i].lv)))
      || (i + 1 == |calls| && failed)
  }

  lemma PatchFollowsAppend(s: Settings, a: seq<Call>, b: seq<Call>, failed: bool)
    requires PatchFollows(s, a, false) && PatchFollows(s, b, failed)
    ensures PatchFollows(s, a + b, failed)
  {
    var ab := a + b;
    forall i | 0 <= i < |ab|
      ensures PatchedAt(s, ab, failed, i)
    {
      if i >= |a| {
        var j := i - |a|;
        assert PatchedAt(s, b, failed, j);
        assert ab[i] == b[j];
        if j + 1 < |b| {
          assert ab[i + 1] == b[j + 1];
        }
      } else {
        assert PatchedAt(s, a, false, i);
        assert ab[i] == a[i];
        if i + 1 < |a| {
          assert ab[i + 1] == a[i + 1];
        }
      }
    }
  }

  /** An orphan's delete is followed at once by its patch, unless the delete failed and ended the scan. */
  lemma {:induction false} DeleteThenPatch(s: Settings, view: View, lvs: seq<LogicVolume>, rejects: set<Call>)
    ensures var r := Scan(s, view, lvs, rejects); PatchFollows(s, r.calls, r.picked.None?)
  {
    if |lvs| > 0 {
      var st := Visit(s, lvs[0], Judge(view, lvs[0]), rejects);
      assert PatchFollows(s, st.calls, st.failed);
      ScanStep(s, view, lvs, rejects);
      if !st.failed {
        DeleteThenPatch(s, view, lvs[1..], rejects);
        var rest := Scan(s, view, lvs[1..], rejects);
        PatchFollowsAppend(s, st.calls, rest.calls, rest.picked.None?);
      }
    }
  }

  /** Position `i` is the last rebuild candidate named like it. */
  ghost predicate LastCandidate(view: View, lvs: seq<LogicVolume>, i: int) {
    && 0 <= i < |lvs| && Judge(view, lvs[i]) == Candidate
    && forall j :: i < j < |lvs| && lvs[j].name == lvs[i].name ==> Judge(view, lvs[j]) != Candidate
  }

  /** A candidate's entry survives the rest of the scan. */
  lemma {:induction false} LastCandidatePicked(s: Settings, view: View, lvs: seq<LogicVolume>, rejects: set<Call>, i: int)
    requires Scan(s, view, lvs, rejects).picked.Some?
    requires LastCandidate(view, lvs, i)
    ensures lvs[i].name in Scan(s, view, lvs, rejects).picked.value
    ensures Scan(s, view, lvs, rejects).picked.value[lvs[i].name] == Target(lvs[i])
  {
    var rest := lvs[1..];
    if i > 0 {
      assert rest[i - 1] == lvs[i];
      assert LastCandidate(view, rest, i - 1) by {
        forall j | i - 1 < j < |rest| && rest[j].name == rest[i - 1].name
          ensures Judge(view, rest[j]) != Candidate
        {
          assert rest[j] == lvs[j + 1];
        }
      }
      LastCandidatePicked(s, view, rest, rejects, i - 1);
    } else if |rest| > 0 {
      var m := Scan(s, view, rest, rejects).picked.value;
      if lvs[0].name in m {
        var k := PickedFrom(s, view, rest, rejects, lvs[0].name);
        assert false;
      }
    }
  }

  /** Every entry of the candidate map comes from the last candidate with that name. */
  lemma {:induction false} PickedFrom(s: Settings, view: View, lvs: seq<LogicVolume>, rejects: set<Call>, name: string) returns (i: nat)
    requires Scan(s, view, lvs, rejects).picked.Some?
    requires name in Scan(s, view, lvs, rejects).picked.value
    ensures LastCandidate(view, lvs, i) && lvs[i].name == name
    ensures Scan(s, view, lvs, rejects).picked.value[name] == Target(lvs[i])
  {
    var rest := lvs[1..];
    var m := Scan(s, view, rest, rejects).picked.value;
    if name in m {
      var k := PickedFrom(s, view, rest, rejects, name);
      i := k + 1;
      assert rest[k] == lvs[i];
      forall j | i < j < |lvs| && lvs[j].name == lvs[i].name
        ensures Judge(view, lvs[j]) != Candidate
      {
        assert rest[j - 1] == lvs[j];
      }
    } else {
      i := 0;
      forall j | 0 < j < |lvs| && lvs[j].name == lvs[0].name
        ensures Judge(view, lvs[j]) != Candidate
      {
        assert rest[j - 1] == lvs[j];
        if Judge(view, lvs[j]) == Candidate {
          var k := LastOf(view, rest, j - 1);
          LastCandidatePicked(s, view, rest, rejects, k);
        }
      }
    }
  }

  /** Some candidate at or after `i` with the same name is the last one. */
  lemma {:induction false} LastOf(view: View, lvs: seq<LogicVolume>, i: int) returns (k: int)
    requires 0 <= i < |lvs| && Judge(view, lvs[i]) == Candidate
    ensures i <= k && LastCandidate(view, lvs, k) && lvs[k].name == lvs[i].name
    decreases |lvs| - i
  {
    if exists j :: i < j < |lvs| && lvs[j].name == lvs[i].name && Judge(view, lvs[j]) == Candidate {
      var j :| i < j < |lvs| && lvs[j].name == lvs[i].name && Judge(view, lvs[j]) == Candidate;
      k := LastOf(view, lvs, j);
    } else {
      k := i;
    }
  }

  /**
   A successful scan's candidate map holds exactly the names of the rebuild
   candidates, each mapped to the claim of the last candidate listed under it.
   */
  lemma ScanPicks(s: Settings, view: View, lvs: seq<LogicVolume>, rejects: set<Call>, name: string, key: ObjectKey)
    requires Scan(s, view, lvs, rejects).picked.Some?
    ensures (name in Scan(s, view, lvs, rejects).picked.value && Scan(s, view, lvs, rejects).picked.value[name] == key) <==>
      exists i :: LastCandidate(view, lvs, i) && lvs[i].name == name && Target(lvs[i]) == key
  {
    var m := Scan(s, view, lvs, rejects).picked.value;
    if name in m && m[name] == key {
      var i := PickedFrom(s, view, lvs, rejects, name);
    }
    if exists i :: LastCandidate(view, lvs, i) && lvs[i].name == name && Target(lvs[i]) == key {
      var i :| LastCandidate(view, lvs, i) && lvs[i].name == name && Target(lvs[i]) == key;
      LastCandidatePicked(s, view, lvs, rejects, i);
    }
  }

  // ---- the recreated claim ----

  datatype ClaimSpec = ClaimSpec(
    accessModes: seq<string>,
    selector: Option<map<string, string>>,
    resources: map<string, int>,
    storageClassName: Option<string>,
    volumeMode: Option<string>,
    dataSource: Option<ObjectKey>,
    volumeName: string)

  datatype ClaimStatus = ClaimStatus(phase: string, capacity: map<string, int>)

  /** A PersistentVolumeClaim, with the metadata a fetched claim carries. */
  datatype Claim = Claim(
    namespace: string,
    name: string,
    labels: map<string, string>,
    annotations: map<string, string>,
    finalizers: seq<string>,
    resourceVersion: string,
    uid: string,
    spec: ClaimSpec,
    status: ClaimStatus)

  /** The six spec fields carried over to the recreated claim. */
  predicate SameRequest(a: ClaimSpec, b: ClaimSpec) {
    && a.accessModes == b.accessModes && a.selector == b.selector && a.resources == b.resources
    && a.storageClassName == b.storageClassName && a.volumeMode == b.volumeMode && a.dataSource == b.dataSource
  }

  /**
   The claim `rebuildVolume` recreates: named after the LogicVolume's claim
   key, with the fetched claim's request and nothing else (no labels,
   annotations, finalizers, version, uid, bound volume or status).
   */
  function CleanClaim(key: ObjectKey, c: Claim): (n: Claim)
    ensures n.namespace == key.namespace && n.name == key.name
    ensures SameRequest(n.spec, c.spec)
    ensures n.labels == map[] && n.annotations == map[] && n.finalizers == []
    ensures n.resourceVersion == "" && n.uid == "" && n.spec.volumeName == ""
    ensures n.status == ClaimStatus("", map[])
  {
    Claim(key.namespace, key.name, map[], map[], [], "", "",
          ClaimSpec(c.spec.accessModes, c.spec.selector, c.spec.resources, c.spec.storageClassName,
                    c.spec.volumeMode, c.spec.dataSource, ""),
          ClaimStatus("", map[]))
  }

  /** The recreated claim depends on the fetched claim only through its request. */
  lemma CleanClaimDependsOnlyOnRequest(key: ObjectKey, a: Claim, b: Claim)
    ensures CleanClaim(key, a) == CleanClaim(key, b) <==> SameRequest(a.spec, b.spec)
  {
  }

  /** Recreating from a recreated claim changes nothing. */
  lemma CleanClaimIdempotent(key: ObjectKey, c: Claim)
    ensures CleanClaim(key, CleanClaim(key, c)) == CleanClaim(key, c)
  {
  }

  // ---- the rebuild loop ----

  const CreateRetries := 12

  /** Whether create attempt `i` succeeds; attempts beyond the given outcomes fail. */
  predicate Succeeds(outcomes: seq<bool>, i: int) {
    0 <= i < |outcomes| && outcomes[i]
  }

  /**
   `utils.UntilMaxRetry`, taken to call its function until it succeeds, at
   most `max` times: the number of calls made and whether one succeeded.
   */
  function UntilMaxRetry(outcomes: seq<bool>, max: nat): (r: (nat, bool))
    ensures r.0 <= max
    ensures r.1 <==> exists i :: 0 <= i < max && Succeeds(outcomes, i)
    ensures r.1 ==> r.0 >= 1 && Succeeds(outcomes, r.0 - 1) && forall i :: 0 <= i < r.0 - 1 ==> !Succeeds(outcomes, i)
    ensures !r.1 ==> r.0 == max
  {
    Retry(outcomes, 0, max)
  }

  function Retry(outcomes: seq<bool>, i: nat, max: nat): (r: (nat, bool))
    requires i <= max
    ensures i <= r.0 <= max
    ensures r.1 <==> exists j :: i <= j < max && Succeeds(outcomes, j)
    ensures r.1 ==> r.0 >= i + 1 && Succeeds(outcomes, r.0 - 1) && forall j :: i <= j < r.0 - 1 ==> !Succeeds(outcomes, j)
    ensures !r.1 ==> r.0 == max
    decreases max - i
  {
    if i == max then (max, false)
    else if Succeeds(outcomes, i) then (i + 1, true)
    else Retry(outcomes, i + 1, max)
  }

  /** The create outcomes for the LogicVolume `name`; none given means every attempt fails. */
  function OutcomesOf(outcomes: map<string, seq<bool>>, name: string): seq<bool> {
    if name in outcomes then outcomes[name] else []
  }

  /**
   The claim calls of the loop, the negative cache it leaves, whether it gave
   up, and whether giving up panicked (which ends the controller's process).
   */
  datatype Rebuilt = Rebuilt(calls: seq<Call>, cache: set<string>, failed: bool, panicked: bool)

  /**
   The warning logged after twelve failed creates dereferences the recreated
   claim's storage class and volume mode: either one unset is a nil-pointer
   panic.
   */
  predicate WarningPanics(c: Claim) {
    c.spec.storageClassName.None? || c.spec.volumeMode.None?
  }

  /** `order` names every candidate once: Go's map iteration order. */
  ghost predicate Enumerates(order: seq<string>, cands: map<string, ObjectKey>) {
    && (forall k :: k in order <==> k in cands)
    && forall i, j :: 0 <= i < j < |order| ==> order[i] != order[j]
  }

  /**
   The calls for one candidate whose claim was fetched: delete the recreated
   claim (a failure is ignored), then create it until it succeeds or twelve
   attempts have failed.
   */
  function Recreate(key: ObjectKey, c: Claim, outcomes: seq<bool>): (r: seq<Call>)
    ensures |r| == 2 + UntilMaxRetry(outcomes, CreateRetries).0
    ensures r[0] == GetClaim(key) && r[1] == DeleteClaim(CleanClaim(key, c))
    ensures forall i :: 2 <= i < |r| ==> r[i] == CreateClaim(CleanClaim(key, c))
  {
    var clean := CleanClaim(key, c);
    var tries := UntilMaxRetry(outcomes, CreateRetries);
    [GetClaim(key), DeleteClaim(clean)] + seq(tries.0, _ => CreateClaim(clean))
  }

  /**
   The loop of `rebuildVolume` over the candidates in `order`. A claim that
   cannot be fetched (absent from `claims`) puts the LogicVolume's name in the
   negative cache. Twelve failed creates end the loop at once: the remaining
   candidates are abandoned, and the warning about them panics when the claim
   lacks a storage class or volume mode.
   */
  function RebuildFrom(order: seq<string>, cands: map<string, ObjectKey>, claims: map<ObjectKey, Claim>,
                       outcomes: map<string, seq<bool>>, cache: set<string>): (r: Rebuilt)
    requires forall k :: k in order ==> k in cands
    ensures cache <= r.cache
    ensures forall k :: k in r.cache ==> k in cache || k in order
  {
    if |order| == 0 then Rebuilt([], cache, false, false)
    else
      var name := order[0];
      var key := cands[name];
      if key !in claims then
        var rest := RebuildFrom(order[1..], cands, claims, outcomes, cache + {name});
        Rebuilt([GetClaim(key)] + rest.calls, rest.cache, rest.failed, rest.panicked)
      else
        var head := Recreate(key, claims[key], OutcomesOf(outcomes, name));
        if !UntilMaxRetry(OutcomesOf(outcomes, name), CreateRetries).1 then Rebuilt(head, cache, true, WarningPanics(CleanClaim(key, claims[key])))
        else
          var rest := RebuildFrom(order[1..], cands, claims, outcomes, cache);
          Rebuilt(head + rest.calls, rest.cache, rest.failed, rest.panicked)
  }

  /** The candidate at position `i` gets its claim back but every create fails. */
  predicate Exhausted(order: seq<string>, cands: map<string, ObjectKey>, claims: map<ObjectKey, Claim>,
                      outcomes: map<string, seq<bool>>, i: int)
    requires forall k :: k in order ==> k in cands
  {
    0 <= i < |order| && cands[order[i]] in claims && !UntilMaxRetry(OutcomesOf(outcomes, order[i]), CreateRetries).1
  }

  /** Where the loop stops: the first exhausted candidate, or the end of `order`. */
  function Halt(order: seq<string>, cands: map<string, ObjectKey>, claims: map<ObjectKey, Claim>,
                outcomes: map<string, seq<bool>>): (h: nat)
    requires forall k :: k in order ==> k in cands
    ensures h <= |order|
    ensures h < |order| ==> Exhausted(order, cands, claims, outcomes, h)
    ensures forall i :: 0 <= i < h ==> !Exhausted(order, cands, claims, outcomes, i)
  {
    if |order| == 0 then 0
    else if Exhausted(order, cands, claims, outcomes, 0) then 0
    else
      var h := Halt(order[1..], cands, claims, outcomes);
      assert forall i :: 0 < i < |order| ==> (Exhausted(order, cands, claims, outcomes, i) <==> Exhausted(order[1..], cands, claims, outcomes, i - 1));
      h + 1
  }

  /** The candidates among `names` whose claim could not be fetched. */
  function Unfetched(names: seq<string>, cands: map<string, ObjectKey>, claims: map<ObjectKey, Claim>): set<string> {
    set k | k in names && k in cands && cands[k] !in claims
  }

  /** The claims fetched, in order. */
  function Gets(calls: seq<Call>): seq<ObjectKey> {
    if |calls| == 0 then []
    else (if calls[0].GetClaim? then [calls[0].key] else []) + Gets(calls[1..])
  }

  lemma {:induction false} GetsAppend(a: seq<Call>, b: seq<Call>)
    ensures Gets(a + b) == Gets(a) + Gets(b)
  {
    if |a| > 0 {
      GetsAppend(a[1..], b);
      assert (a + b)[0] == a[0];
      assert (a + b)[1..] == a[1..] + b;
    } else {
      assert a + b == b;
    }
  }

  lemma RecreateGets(key: ObjectKey, c: Claim, outcomes: seq<bool>)
    ensures Gets(Recreate(key, c, outcomes)) == [key]
  {
    var calls := Recreate(key, c, outcomes);
    var creates := calls[2..];
    assert forall i :: 0 <= i < |creates| ==> creates[i].CreateClaim?;
    NoGets(creates);
    GetsAppend(calls[..2], creates);
    assert calls == calls[..2] + creates;
  }

  lemma {:induction false} NoGets(calls: seq<Call>)
    requires forall i :: 0 <= i < |calls| ==> !calls[i].GetClaim?
    ensures Gets(calls) == []
  {
    if |calls| > 0 {
      NoGets(calls[1..]);
    }
  }

  /** Positions `1..` of `order` are exhausted exactly when the same positions of its tail are. */
  lemma ExhaustedShift(order: seq<string>, cands: map<string, ObjectKey>, claims: map<ObjectKey, Claim>,
                       outcomes: map<string, seq<bool>>)
    requires |order| > 0 && forall k :: k in order ==> k in cands
    ensures !Exhausted(order, cands, claims, outcomes, 0) ==>
      Halt(order, cands, claims, outcomes) == Halt(order[1..], cands, claims, outcomes) + 1
  {
  }

  /** The loop gives up exactly when some candidate's creates are exhausted. */
  lemma {:induction false} RebuildFails(order: seq<string>, cands: map<string, ObjectKey>, claims: map<ObjectKey, Claim>,
                                        outcomes: map<string, seq<bool>>, cache: set<string>)
    requires forall k :: k in order ==> k in cands
    ensures RebuildFrom(order, cands, claims, outcomes, cache).failed <==> Halt(order, cands, claims, outcomes) < |order|
  {
    if |order| > 0 {
      var name := order[0];
      ExhaustedShift(order, cands, claims, outcomes);
      if cands[name] !in claims {
        RebuildFails(order[1..], cands, claims, outcomes, cache + {name});
      } else if UntilMaxRetry(OutcomesOf(outcomes, name), CreateRetries).1 {
        RebuildFails(order[1..], cands, claims, outcomes, cache);
      }
    }
  }

  /**
   The loop panics exactly when it gives up on a candidate whose claim lacks a
   storage class or a volume mode; it never panics without giving up.
   */
  lemma {:induction false} RebuildPanics(order: seq<string>, cands: map<string, ObjectKey>, claims: map<ObjectKey, Claim>,
                                         outcomes: map<string, seq<bool>>, cache: set<string>)
    requires forall k :: k in order ==> k in cands
    ensures var r := RebuildFrom(order, cands, claims, outcomes, cache);
      var h := Halt(order, cands, claims, outcomes);
      && (r.panicked ==> r.failed)
      && (r.panicked <==> h < |order| && WarningPanics(claims[cands[order[h]]]))
  {
    if |order| > 0 {
      var name := order[0];
      ExhaustedShift(order, cands, claims, outcomes);
      if cands[name] !in claims {
        RebuildPanics(order[1..], cands, claims, outcomes, cache + {name});
      } else if UntilMaxRetry(OutcomesOf(outcomes, name), CreateRetries).1 {
        RebuildPanics(order[1..], cands, claims, outcomes, cache);
      }
    }
  }

  /**
   The loop adds to the negative cache exactly the candidates before the
   first exhausted one whose claim could not be fetched.
   */
  lemma {:induction false} RebuildCache(order: seq<string>, cands: map<string, ObjectKey>, claims: map<ObjectKey, Claim>,
                                        outcomes: map<string, seq<bool>>, cache: set<string>)
    requires forall k :: k in order ==> k in cands
    ensures RebuildFrom(order, cands, claims, outcomes, cache).cache ==
      cache + Unfetched(order[..Halt(order, cands, claims, outcomes)], cands, claims)
    decreases |order|, 1
  {
    if |order| > 0 {
      var name := order[0];
      if cands[name] !in claims {
        CacheUnfetched(order, cands, claims, outcomes, cache);
      } else if UntilMaxRetry(OutcomesOf(outcomes, name), CreateRetries).1 {
        CacheFetched(order, cands, claims, outcomes, cache);
      } else {
        assert order[..Halt(order, cands, claims, outcomes)] == [];
      }
    }
  }

  /** `RebuildCache` when the first claim cannot be fetched. */
  lemma {:induction false} CacheUnfetched(order: seq<string>, cands: map<string, ObjectKey>, claims: map<ObjectKey, Claim>,
                                          outcomes: map<string, seq<bool>>, cache: set<string>)
    requires |order| > 0 && forall k :: k in order ==> k in cands
    requires cands[order[0]] !in claims
    ensures RebuildFrom(order, cands, claims, outcomes, cache).cache ==
      cache + Unfetched(order[..Halt(order, cands, claims, outcomes)], cands, claims)
    decreases |order|, 0
  {
    var name := order[0];
    var h := Halt(order, cands, claims, outcomes);
    ExhaustedShift(order, cands, claims, outcomes);
    assert h == Halt(order[1..], cands, claims, outcomes) + 1;
    RebuildCache(order[1..], cands, claims, outcomes, cache + {name});
    UnfetchedCons(order, h, cands, claims);
    assert Unfetched([name], cands, claims) == {name};
  }

  /** `RebuildCache` when the first claim is fetched and recreated. */
  lemma {:induction false} CacheFetched(order: seq<string>, cands: map<string, ObjectKey>, claims: map<ObjectKey, Claim>,
                                        outcomes: map<string, seq<bool>>, cache: set<string>)
    requires |order| > 0 && forall k :: k in order ==> k in cands
    requires cands[order[0]] in claims && UntilMaxRetry(OutcomesOf(outcomes, order[0]), CreateRetries).1
    ensures RebuildFrom(order, cands, claims, outcomes, cache).cache ==
      cache + Unfetched(order[..Halt(order, cands, claims, outcomes)], cands, claims)
    decreases |order|, 0
  {
    var name := order[0];
    var h := Halt(order, cands, claims, outcomes);
    ExhaustedShift(order, cands, claims, outcomes);
    assert h == Halt(order[1..], cands, claims, outcomes) + 1;
    RebuildCache(order[1..], cands, claims, outcomes, cache);
    UnfetchedCons(order, h, cands, claims);
    assert Unfetched([name], cands, claims) == {};
  }

  /** The claim keys of the named candidates, in order. */
  function KeysOf(names: seq<string>, cands: map<string, ObjectKey>): (keys: seq<ObjectKey>)
    requires forall k :: k in names ==> k in cands
    ensures |keys| == |names|
    ensures forall i :: 0 <= i < |names| ==> keys[i] == cands[names[i]]
  {
    seq(|names|, i requires 0 <= i < |names| => cands[names[i]])
  }

  /** How many candidates the loop visits: up to and including the first exhausted one. */
  function Visited(order: seq<string>, cands: map<string, ObjectKey>, claims: map<ObjectKey, Claim>,
                   outcomes: map<string, seq<bool>>): (n: nat)
    requires forall k :: k in order ==> k in cands
    ensures n <= |order|
  {
    var h := Halt(order, cands, claims, outcomes);
    if h < |order| then h + 1 else h
  }

  /**
   The loop fetches the claims of the candidates up to and including the
   first exhausted one, in order, and nothing after it.
   */
  lemma {:induction false} RebuildVisits(order: seq<string>, cands: map<string, ObjectKey>, claims: map<ObjectKey, Claim>,
                                         outcomes: map<string, seq<bool>>, cache: set<string>)
    requires forall k :: k in order ==> k in cands
    ensures Gets(RebuildFrom(order, cands, claims, outcomes, cache).calls) ==
      KeysOf(order[..Visited(order, cands, claims, outcomes)], cands)
    decreases |order|, 1
  {
    if |order| > 0 {
      if cands[order[0]] !in claims {
        VisitsUnfetched(order, cands, claims, outcomes, cache);
      } else {
        VisitsFetched(order, cands, claims, outcomes, cache);
      }
    }
  }

  /** `RebuildVisits` when the first claim cannot be fetched. */
  lemma {:induction false} VisitsUnfetched(order: seq<string>, cands: map<string, ObjectKey>, claims: map<ObjectKey, Claim>,
                                           outcomes: map<string, seq<bool>>, cache: set<string>)
    requires |order| > 0 && forall k :: k in order ==> k in cands
    requires cands[order[0]] !in claims
    ensures Gets(RebuildFrom(order, cands, claims, outcomes, cache).calls) ==
      KeysOf(order[..Visited(order, cands, claims, outcomes)], cands)
    decreases |order|, 0
  {
    var name := order[0];
    var key := cands[name];
    var tail := order[1..];
    var n := Visited(order, cands, claims, outcomes);
    ExhaustedShift(order, cands, claims, outcomes);
    RebuildVisits(tail, cands, claims, outcomes, cache + {name});
    var rest := RebuildFrom(tail, cands, claims, outcomes, cache + {name});
    GetsAppend([GetClaim(key)], rest.calls);
    assert Gets([GetClaim(key)]) == [key];
    assert n == Visited(tail, cands, claims, outcomes) + 1;
    KeysOfPrefix(order, cands, n);
  }

  /** `RebuildVisits` when the first claim is fetched. */
  lemma {:induction false} VisitsFetched(order: seq<string>, cands: map<string, ObjectKey>, claims: map<ObjectKey, Claim>,
                                         outcomes: map<string, seq<bool>>, cache: set<string>)
    requires |order| > 0 && forall k :: k in order ==> k in cands
    requires cands[order[0]] in claims
    ensures Gets(RebuildFrom(order, cands, claims, outcomes, cache).calls) ==
      KeysOf(order[..Visited(order, cands, claims, outcomes)], cands)
    decreases |order|, 0
  {
    var name := order[0];
    var key := cands[name];
    var tail := order[1..];
    var n := Visited(order, cands, claims, outcomes);
    ExhaustedShift(order, cands, claims, outcomes);
    RecreateGets(key, claims[key], OutcomesOf(outcomes, name));
    if UntilMaxRetry(OutcomesOf(outcomes, name), CreateRetries).1 {
      RebuildVisits(tail, cands, claims, outcomes, cache);
      var rest := RebuildFrom(tail, cands, claims, outcomes, cache);
      GetsAppend(Recreate(key, claims[key], OutcomesOf(outcomes, name)), rest.calls);
      assert n == Visited(tail, cands, claims, outcomes) + 1;
      KeysOfPrefix(order, cands, n);
    } else {
      assert n == 1;
      KeysOfPrefix(order, cands, 1);
      assert order[1..][..0] == [];
    }
  }

  /** The claim deletes and creates among `calls`, in order. */
  function ClaimWrites(calls: seq<Call>): seq<Call> {
    if |calls| == 0 then []
    else (if calls[0].DeleteClaim? || calls[0].CreateClaim? then [calls[0]] else []) + ClaimWrites(calls[1..])
  }

  /** The claim writes of two call logs in a row are those of the first, then those of the second. */
  lemma {:induction false} ClaimWritesAppend(a: seq<Call>, b: seq<Call>)
    ensures ClaimWrites(a + b) == ClaimWrites(a) + ClaimWrites(b)
  {
    if |a| > 0 {
      var head := if a[0].DeleteClaim? || a[0].CreateClaim? then [a[0]] else [];
      var ab := a + b;
      assert ab[0] == a[0] && ab[1..] == a[1..] + b;
      assert ClaimWrites(ab) == head + ClaimWrites(a[1..] + b);
      ClaimWritesAppend(a[1..], b);
    } else {
      assert a + b == b;
    }
  }

  /** A log of nothing but claim writes is its own filter. */
  lemma {:induction false} OnlyClaimWrites(calls: seq<Call>)
    requires forall i :: 0 <= i < |calls| ==> calls[i].DeleteClaim? || calls[i].CreateClaim?
    ensures ClaimWrites(calls) == calls
  {
    if |calls| > 0 {
      OnlyClaimWrites(calls[1..]);
      assert calls == [calls[0]] + calls[1..];
    }
  }

  /**
   What the loop should write for a fetched candidate: one delete of the
   recreated claim, then one create per attempt.
   */
  function Rewrite(key: ObjectKey, c: Claim, outcomes: seq<bool>): (r: seq<Call>)
    ensures |r| == 1 + UntilMaxRetry(outcomes, CreateRetries).0
    ensures r[0] == DeleteClaim(CleanClaim(key, c))
    ensures forall i :: 1 <= i < |r| ==> r[i] == CreateClaim(CleanClaim(key, c))
  {
    [DeleteClaim(CleanClaim(key, c))] + seq(UntilMaxRetry(outcomes, CreateRetries).0, _ => CreateClaim(CleanClaim(key, c)))
  }

  /** The claim writes expected for `names`: a `Rewrite` for each fetched claim, nothing for the others. */
  function Rewrites(names: seq<string>, cands: map<string, ObjectKey>, claims: map<ObjectKey, Claim>,
                    outcomes: map<string, seq<bool>>): seq<Call>
    requires forall k :: k in names ==> k in cands
  {
    if |names| == 0 then []
    else
      var key := cands[names[0]];
      (if key in claims then Rewrite(key, claims[key], OutcomesOf(outcomes, names[0])) else [])
      + Rewrites(names[1..], cands, claims, outcomes)
  }

  /** One fetched candidate's claim writes are the expected ones: the get is filtered out. */
  lemma RecreateWrites(key: ObjectKey, c: Claim, outcomes: seq<bool>)
    ensures ClaimWrites(Recreate(key, c, outcomes)) == Rewrite(key, c, outcomes)
  {
    var calls := Recreate(key, c, outcomes);
    var w := Rewrite(key, c, outcomes);
    assert calls == [calls[0]] + w;
    ClaimWritesAppend([calls[0]], w);
    OnlyClaimWrites(w);
  }

  /** The expected writes of a non-empty prefix: the first name's, then those of the rest. */
  lemma RewritesPrefix(order: seq<string>, cands: map<string, ObjectKey>, claims: map<ObjectKey, Claim>,
                       outcomes: map<string, seq<bool>>, n: int)
    requires 1 <= n <= |order| && forall k :: k in order ==> k in cands
    ensures Rewrites(order[..n], cands, claims, outcomes) ==
      Rewrites([order[0]], cands, claims, outcomes) + Rewrites(order[1..][..n - 1], cands, claims, outcomes)
  {
    assert order[..n][0] == order[0];
    assert order[..n][1..] == order[1..][..n - 1];
    assert [order[0]][1..] == [];
  }

  /**
   The loop deletes and recreates the claim of every fetched candidate up to
   and including the first exhausted one, in order: one delete (whose failure
   is ignored), then one create of the recreated claim per attempt, and no
   other claim write.
   */
  lemma {:induction false} RebuildWrites(order: seq<string>, cands: map<string, ObjectKey>, claims: map<ObjectKey, Claim>,
                                         outcomes: map<string, seq<bool>>, cache: set<string>)
    requires forall k :: k in order ==> k in cands
    ensures ClaimWrites(RebuildFrom(order, cands, claims, outcomes, cache).calls) ==
      Rewrites(order[..Visited(order, cands, claims, outcomes)], cands, claims, outcomes)
    decreases |order|, 1
  {
    if |order| > 0 {
      if cands[order[0]] !in claims {
        WritesUnfetched(order, cands, claims, outcomes, cache);
      } else {
        WritesFetched(order, cands, claims, outcomes, cache);
      }
    }
  }

  /** `RebuildWrites` when the first claim cannot be fetched. */
  lemma {:induction false} WritesUnfetched(order: seq<string>, cands: map<string, ObjectKey>, claims: map<ObjectKey, Claim>,
                                           outcomes: map<string, seq<bool>>, cache: set<string>)
    requires |order| > 0 && forall k :: k in order ==> k in cands
    requires cands[order[0]] !in claims
    ensures ClaimWrites(RebuildFrom(order, cands, claims, outcomes, cache).calls) ==
      Rewrites(order[..Visited(order, cands, claims, outcomes)], cands, claims, outcomes)
    decreases |order|, 0
  {
    var name := order[0];
    var key := cands[name];
    var tail := order[1..];
    var n := Visited(order, cands, claims, outcomes);
    ExhaustedShift(order, cands, claims, outcomes);
    RebuildWrites(tail, cands, claims, outcomes, cache + {name});
    var rest := RebuildFrom(tail, cands, claims, outcomes, cache + {name});
    ClaimWritesAppend([GetClaim(key)], rest.calls);
    assert ClaimWrites([GetClaim(key)]) == [];
    assert n == Visited(tail, cands, claims, outcomes) + 1;
    RewritesPrefix(order, cands, claims, outcomes, n);
    assert Rewrites([name], cands, claims, outcomes) == [];
  }

  /** `RebuildWrites` when the first claim is fetched. */
  lemma {:induction false} WritesFetched(order: seq<string>, cands: map<string, ObjectKey>, claims: map<ObjectKey, Claim>,
                                         outcomes: map<string, seq<bool>>, cache: set<string>)
    requires |order| > 0 && forall k :: k in order ==> k in cands
    requires cands[order[0]] in claims
    ensures ClaimWrites(RebuildFrom(order, cands, claims, outcomes, cache).calls) ==
      Rewrites(order[..Visited(order, cands, claims, outcomes)], cands, claims, outcomes)
    decreases |order|, 0
  {
    var name := order[0];
    var key := cands[name];
    var tail := order[1..];
    var n := Visited(order, cands, claims, outcomes);
    var mine := Rewrite(key, claims[key], OutcomesOf(outcomes, name));
    ExhaustedShift(order, cands, claims, outcomes);
    RecreateWrites(key, claims[key], OutcomesOf(outcomes, name));
    assert Rewrites([name], cands, claims, outcomes) == mine;
    if UntilMaxRetry(OutcomesOf(outcomes, name), CreateRetries).1 {
      RebuildWrites(tail, cands, claims, outcomes, cache);
      var rest := RebuildFrom(tail, cands, claims, outcomes, cache);
      ClaimWritesAppend(Recreate(key, claims[key], OutcomesOf(outcomes, name)), rest.calls);
      assert n == Visited(tail, cands, claims, outcomes) + 1;
      RewritesPrefix(order, cands, claims, outcomes, n);
    } else {
      assert n == 1;
      RewritesPrefix(order, cands, claims, outcomes, 1);
      assert order[1..][..0] == [];
    }
  }

  /** The keys of a non-empty prefix: the first name's key, then the keys of the rest. */
  lemma KeysOfPrefix(order: seq<string>, cands: map<string, ObjectKey>, n: int)
    requires 1 <= n <= |order| && forall k :: k in order ==> k in cands
    ensures KeysOf(order[..n], cands) == [cands[order[0]]] + KeysOf(order[1..][..n - 1], cands)
  {
    var a := KeysOf(order[..n], cands);
    var b := [cands[order[0]]] + KeysOf(order[1..][..n - 1], cands);
    forall i | 0 <= i < |a|
      ensures a[i] == b[i]
    {
      if i > 0 {
        assert order[..n][i] == order[1..][..n - 1][i - 1];
      }
    }
  }

  lemma UnfetchedCons(order: seq<string>, h: int, cands: map<string, ObjectKey>, claims: map<ObjectKey, Claim>)
    requires 1 <= h <= |order|
    ensures Unfetched(order[..h], cands, claims) ==
      Unfetched([order[0]], cands, claims) + Unfetched(order[1..][..h - 1], cands, claims)
  {
    assert order[..h] == [order[0]] + order[1..][..h - 1];
  }

  /**
   The candidate whose creates were exhausted is not put in the negative
   cache, so a later pass selects it again.
   */
  lemma ExhaustedNotCached(order: seq<string>, cands: map<string, ObjectKey>, claims: map<ObjectKey, Claim>,
                           outcomes: map<string, seq<bool>>, cache: set<string>)
    requires Enumerates(order, cands)
    requires RebuildFrom(order, cands, claims, outcomes, cache).failed
    ensures var h := Halt(order, cands, claims, outcomes);
      h < |order| && (order[h] in RebuildFrom(order, cands, claims, outcomes, cache).cache <==> order[h] in cache)
  {
    RebuildFails(order, cands, claims, outcomes, cache);
    RebuildCache(order, cands, claims, outcomes, cache);
    var h := Halt(order, cands, claims, outcomes);
    assert order[h] !in order[..h];
  }

  /** The outcome of one periodic pass. */
  datatype Pass = Pass(scan: Scanned, rebuilt: Option<Rebuilt>)

  /**
   `resourceReconcile`: when the scan fails nothing is rebuilt and the cache is
   kept; otherwise the candidates are rebuilt in `order`.
   */
  function ResourceReconcile(s: Settings, lvs: Listing<LogicVolume>, nodes: Listing<Node>, pvs: Listing<PersistentVolume>,
                             rejects: set<Call>, claims: map<ObjectKey, Claim>, outcomes: map<string, seq<bool>>,
                             cache: set<string>, order: seq<string>): (p: Pass)
    requires var sc := GetNeedRebuild(s, lvs, nodes, pvs, cache, rejects);
      sc.picked.Some? ==> forall k :: k in order <==> k in sc.picked.value
    ensures p.rebuilt.None? <==> p.scan.picked.None?
    ensures p.rebuilt.Some? ==> cache <= p.rebuilt.value.cache
    ensures p.rebuilt.Some? ==> forall k :: k in p.rebuilt.value.cache - cache ==> k in p.scan.picked.value
  {
    var sc := GetNeedRebuild(s, lvs, nodes, pvs, cache, rejects);
    match sc.picked
    case None => Pass(sc, None)
    case Some(cands) => Pass(sc, Some(RebuildFrom(order, cands, claims, outcomes, cache)))
  }
}
