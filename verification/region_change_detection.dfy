/**
 * Region identity across observation steps, and the comparison of the
 * landmark regions of one step with those of the previous step.
 */
module RegionChangeDetection {
  import opened Wrappers
  import opened SimplifiedTree
  import opened LandmarkDetection

  /** The accessible name, or the empty string when there is none. */
  function NameOrEmpty(name: Option<string>): string {
    match name
    case Some(s) => s
    case None => ""
  }

  /** The key a region is known by across steps: role and name separated by
      a colon. */
  function RegionKey(r: Region): string {
    r.role + ":" + NameOrEmpty(r.name)
  }

  /** The key determines role and name as long as roles hold no colon (no
      landmark role does): two regions share a key exactly when they share
      the role and the name, a missing name counting as the empty one. */
  lemma RegionKeyIdentifies(r1: Region, r2: Region)
    requires ':' !in r1.role && ':' !in r2.role
    ensures RegionKey(r1) == RegionKey(r2) <==> r1.role == r2.role && NameOrEmpty(r1.name) == NameOrEmpty(r2.name)
  {
    var k1, k2 := RegionKey(r1), RegionKey(r2);
    if k1 == k2 {
      ColonAfterRole(r1.role, NameOrEmpty(r1.name));
      ColonAfterRole(r2.role, NameOrEmpty(r2.name));
      assert |r1.role| == |r2.role|;
      assert r1.role == k1[..|r1.role|] && r2.role == k2[..|r2.role|];
      assert NameOrEmpty(r1.name) == k1[|r1.role| + 1..] && NameOrEmpty(r2.name) == k2[|r2.role| + 1..];
    }
  }

  /** In a key whose role holds no colon, the first colon follows the role. */
  lemma ColonAfterRole(role: string, name: string)
    requires ':' !in role
    ensures forall i :: 0 <= i < |role| ==> (role + ":" + name)[i] != ':'
    ensures (role + ":" + name)[|role|] == ':'
  {
  }

  lemma LandmarkRolesHaveNoColon(role: string)
    requires role in LandmarkRoles
    ensures ':' !in role
  {
  }

  /** The keys of a named navigation and of an unnamed main region. */
  lemma RegionKeyExamples(n: Node)
    ensures RegionKey(Region("navigation", Some("Primary"), n, 0, [], 0, [])) == "navigation:Primary"
    ensures RegionKey(Region("main", None, n, 0, [], 0, [])) == "main:"
    ensures RegionKey(Region("main", Some(""), n, 0, [], 0, [])) == "main:"
  {
  }

  // ── Interactive backend ids ────────────────────────────────────────────────

  /** The backend node ids of the interactive nodes in the subtree at `n`. */
  function InteractiveIds(n: Node): set<int>
    decreases n
  {
    (if n.isInteractive then {n.backendNodeId} else {}) + InteractiveIdsAll(n.children)
  }

  function InteractiveIdsAll(ns: seq<Node>): set<int>
    decreases ns
  {
    if ns == [] then {} else InteractiveIdsAll(ns[..|ns| - 1]) + InteractiveIds(ns[|ns| - 1])
  }

  /** Adds the backend ids of the interactive nodes under `node` to `ids`. */
  method CollectBackendIds(node: Node, ids: set<int>) returns (result: set<int>)
    ensures result == ids + InteractiveIds(node)
    decreases node
  {
    result := ids;
    if node.isInteractive {
      result := result + {node.backendNodeId};
    }
    for k := 0 to |node.children|
      invariant result == ids + (if node.isInteractive then {node.backendNodeId} else {})
                         + InteractiveIdsAll(node.children[..k])
    {
      assert node.children[..k + 1][..k] == node.children[..k];
      result := CollectBackendIds(node.children[k], result);
    }
    assert node.children[..|node.children|] == node.children;
  }

  /** The backend ids of the interactive elements of a region. */
  method RegionElementIds(region: Region) returns (ids: set<int>)
    ensures ids == InteractiveIds(region.node)
  {
    ids := CollectBackendIds(region.node, {});
  }

  /** The backend ids of the interactive nodes met by a walk. */
  function IdsOfVisits(vs: seq<Visit>): set<int> {
    if vs == [] then {}
    else
      var v := vs[|vs| - 1];
      IdsOfVisits(vs[..|vs| - 1]) + (if v.node.isInteractive then {v.node.backendNodeId} else {})
  }

  lemma {:induction false} IdsOfVisitsAppend(a: seq<Visit>, b: seq<Visit>)
    ensures IdsOfVisits(a + b) == IdsOfVisits(a) + IdsOfVisits(b)
    decreases |b|
  {
    if b == [] {
      assert a + b == a;
    } else {
      assert (a + b)[..|a + b| - 1] == a + b[..|b| - 1];
      IdsOfVisitsAppend(a, b[..|b| - 1]);
    }
  }

  /** The ids collected are those of the interactive nodes of the subtree. */
  lemma {:induction false} InteractiveIdsIsWalk(n: Node, ancestors: seq<Node>)
    ensures InteractiveIds(n) == IdsOfVisits(Walk(n, ancestors))
    decreases n
  {
    InteractiveIdsAllIsWalk(n.children, ancestors + [n]);
    IdsOfVisitsAppend([Visit(n, ancestors)], WalkAll(n.children, ancestors + [n]));
    assert [Visit(n, ancestors)][..0] == [];
  }

  lemma {:induction false} InteractiveIdsAllIsWalk(ns: seq<Node>, ancestors: seq<Node>)
    ensures InteractiveIdsAll(ns) == IdsOfVisits(WalkAll(ns, ancestors))
    decreases ns
  {
    if ns != [] {
      InteractiveIdsAllIsWalk(ns[..|ns| - 1], ancestors);
      InteractiveIdsIsWalk(ns[|ns| - 1], ancestors);
      IdsOfVisitsAppend(WalkAll(ns[..|ns| - 1], ancestors), Walk(ns[|ns| - 1], ancestors));
    }
  }

  // ── Comparing two steps ────────────────────────────────────────────────────

  /** The keys of a list of regions. */
  function RegionKeys(rs: seq<Region>): set<string> {
    set r | r in rs :: RegionKey(r)
  }

  /** The last region of `rs` whose key is `key`, if any. */
  function LastWithKey(rs: seq<Region>, key: string): Option<Region> {
    if rs == [] then None
    else if RegionKey(rs[|rs| - 1]) == key then Some(rs[|rs| - 1])
    else LastWithKey(rs[..|rs| - 1], key)
  }

  /** LastWithKey finds a region exactly when one has the key, and the one it
      finds has the key and no later region has it. */
  lemma {:induction false} LastWithKeyIsLast(rs: seq<Region>, key: string)
    ensures LastWithKey(rs, key).Some? ==>
              exists i :: 0 <= i < |rs| && rs[i] == LastWithKey(rs, key).value && RegionKey(rs[i]) == key
                          && forall j :: i < j < |rs| ==> RegionKey(rs[j]) != key
    ensures LastWithKey(rs, key).None? <==> forall i :: 0 <= i < |rs| ==> RegionKey(rs[i]) != key
  {
    if rs != [] && RegionKey(rs[|rs| - 1]) != key {
      LastWithKeyIsLast(rs[..|rs| - 1], key);
      assert forall i :: 0 <= i < |rs| - 1 ==> rs[..|rs| - 1][i] == rs[i];
    }
  }

  lemma LastWithKeySnoc(rs: seq<Region>, r: Region, key: string)
    ensures LastWithKey(rs + [r], key) == if RegionKey(r) == key then Some(r) else LastWithKey(rs, key)
  {
    assert (rs + [r])[..|rs|] == rs;
  }

  lemma RegionKeysSnoc(rs: seq<Region>, r: Region)
    ensures RegionKeys(rs + [r]) == RegionKeys(rs) + {RegionKey(r)}
  {
    assert forall x :: x in rs + [r] <==> x in rs || x == r;
  }

  /** What is compared of a region across steps: its interactive count and
      the backend ids of its interactive elements. */
  function Fingerprint(r: Region): (int, set<int>) {
    (r.elementCount, InteractiveIds(r.node))
  }

  /** Whether the region last keyed `key` in `current` is unchanged from the
      one last keyed `key` in `previous`: both exist and have the same
      fingerprint. */
  function UnchangedVerdict(current: seq<Region>, previous: seq<Region>, key: string): bool {
    match (LastWithKey(current, key), LastWithKey(previous, key))
    case (Some(c), Some(p)) => Fingerprint(c) == Fingerprint(p)
    case _ => false
  }

  lemma UnchangedVerdictSnoc(rs: seq<Region>, r: Region, previous: seq<Region>, key: string)
    ensures RegionKey(r) != key ==> UnchangedVerdict(rs + [r], previous, key) == UnchangedVerdict(rs, previous, key)
    ensures RegionKey(r) == key ==>
              UnchangedVerdict(rs + [r], previous, key)
              == (LastWithKey(previous, key).Some? && Fingerprint(r) == Fingerprint(LastWithKey(previous, key).value))
  {
    LastWithKeySnoc(rs, r, key);
  }

  /** The fingerprint of the last region under each key of `regions`. */
  method SnapshotRegions(regions: seq<Region>) returns (snapshot: map<string, (int, set<int>)>)
    ensures forall k :: k in snapshot <==> LastWithKey(regions, k).Some?
    ensures forall k :: k in snapshot ==> snapshot[k] == Fingerprint(LastWithKey(regions, k).value)
  {
    snapshot := map[];
    for i := 0 to |regions|
      invariant forall k :: k in snapshot <==> LastWithKey(regions[..i], k).Some?
      invariant forall k :: k in snapshot ==> snapshot[k] == Fingerprint(LastWithKey(regions[..i], k).value)
    {
      var r := regions[i];
      assert regions[..i + 1] == regions[..i] + [r];
      forall k { LastWithKeySnoc(regions[..i], r, k); }
      var key := RegionKey(r);
      var ids := RegionElementIds(r);
      snapshot := snapshot[key := (r.elementCount, ids)];
    }
    assert regions[..|regions|] == regions;
  }

  /** Maps each current region key to whether that region is unchanged since
      the previous step; with no previous step every region counts as
      changed. */
  method DetectUnchangedRegions(current: seq<Region>, previous: Option<seq<Region>>)
    returns (result: map<string, bool>)
    ensures result.Keys == RegionKeys(current)
    ensures previous.None? ==> forall k :: k in result ==> !result[k]
    ensures previous.Some? ==> forall k :: k in result ==> result[k] == UnchangedVerdict(current, previous.value, k)
  {
    if previous.None? {
      return map r | r in current :: RegionKey(r) := false;
    }
    var prevMap := SnapshotRegions(previous.value);
    result := map[];
    for i := 0 to |current|
      invariant result.Keys == RegionKeys(current[..i])
      invariant forall k :: k in result ==> result[k] == UnchangedVerdict(current[..i], previous.value, k)
    {
      var r := current[i];
      assert current[..i + 1] == current[..i] + [r];
      RegionKeysSnoc(current[..i], r);
      forall k | k != RegionKey(r) {
        UnchangedVerdictSnoc(current[..i], r, previous.value, k);
      }
      UnchangedVerdictSnoc(current[..i], r, previous.value, RegionKey(r));
      var key := RegionKey(r);
      if key !in prevMap {
        result := result[key := false];
      } else {
        var (prevCount, prevIds) := prevMap[key];
        var curIds := RegionElementIds(r);
        result := result[key := r.elementCount == prevCount && curIds == prevIds];
      }
    }
    assert current[..|current|] == current;
  }

  /** A step compared with itself has every region unchanged. */
  lemma SelfComparisonUnchanged(rs: seq<Region>, key: string)
    requires key in RegionKeys(rs)
    ensures UnchangedVerdict(rs, rs, key)
  {
    LastWithKeyIsLast(rs, key);
  }

  /** With no previous step, a single unnamed main region maps to false. */
  method NoPreviousStepExample(n: Node) returns (result: map<string, bool>)
    ensures result == map["main:" := false]
  {
    var current := [Region("main", None, n, 0, [], 5, [])];
    result := DetectUnchangedRegions(current, None);
    assert RegionKey(current[0]) == "main:";
    assert RegionKeys(current) == {"main:"};
  }
}
