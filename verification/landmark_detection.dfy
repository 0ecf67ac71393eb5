/**
 * Landmark classification and the landmark forest of the outline mode: which
 * nodes are WAI-ARIA landmarks (WAI-ARIA 1.2, section 5.3.4, Landmark Roles),
 * and the regions they form, nested as the landmarks are nested in the tree.
 */
module LandmarkDetection {
  import opened Wrappers
  import opened SimplifiedTree

  const LandmarkRoles: set<string> :=
    {"banner", "navigation", "main", "complementary", "contentinfo", "search", "form", "region"}

  /** HTML elements whose tag implies a landmark role. */
  const ImplicitLandmarkTags: map<string, string> :=
    map["header" := "banner", "nav" := "navigation", "main" := "main",
        "aside" := "complementary", "footer" := "contentinfo", "search" := "search"]

  /** Roles that are landmarks only when the node has an accessible name. */
  const NamedOnlyRoles: set<string> := {"form", "region"}

  /** The accessible name, when the node has a non-empty one. */
  function AxName(n: Node): (name: Option<string>)
    ensures name.Some? <==> n.axName.Some? && n.axName.value != ""
    ensures name.Some? ==> name == n.axName
  {
    if n.axName.Some? && n.axName.value != "" then n.axName else None
  }

  /** The landmark role of `n`, or None when `n` is not a landmark. A landmark
      accessibility role is decisive; otherwise the element's tag decides. */
  function LandmarkRole(n: Node): Option<string> {
    var axRole := AxRole(n);
    var axName := AxName(n);
    if axRole.Some? && axRole.value in LandmarkRoles then
      if axRole.value in NamedOnlyRoles && axName.None? then None else axRole
    else if n.isElement && Lower(n.tagName) in ImplicitLandmarkTags then
      var implicitRole := ImplicitLandmarkTags[Lower(n.tagName)];
      if implicitRole in NamedOnlyRoles && axName.None? then None else Some(implicitRole)
    else
      None
  }

  /** The precedence LandmarkRole follows. */
  lemma LandmarkRoleCases(n: Node)
    ensures LandmarkRole(n).Some? ==> LandmarkRole(n).value in LandmarkRoles
    ensures LandmarkRole(n).Some? && LandmarkRole(n).value in NamedOnlyRoles ==> AxName(n).Some?
    // a landmark accessibility role wins over the tag
    ensures AxRole(n).Some? && AxRole(n).value in LandmarkRoles - NamedOnlyRoles ==> LandmarkRole(n) == AxRole(n)
    // an unnamed form or region is no landmark, whatever its tag
    ensures AxRole(n).Some? && AxRole(n).value in NamedOnlyRoles ==>
              LandmarkRole(n) == (if AxName(n).Some? then AxRole(n) else None)
    // otherwise only the tag table counts, and it needs no name check
    ensures (AxRole(n).None? || AxRole(n).value !in LandmarkRoles) ==>
              LandmarkRole(n) == (if n.isElement && Lower(n.tagName) in ImplicitLandmarkTags
                                  then Some(ImplicitLandmarkTags[Lower(n.tagName)]) else None)
  {
  }

  /** The tag table never yields a named-only role, so the name check on an
      implicit role can never reject a node. */
  lemma ImplicitRolesNeedNoName(tag: string)
    requires tag in ImplicitLandmarkTags
    ensures ImplicitLandmarkTags[tag] in LandmarkRoles - NamedOnlyRoles
  {
  }

  /** A `<header>` whose accessibility role is a non-landmark one (as browsers
      give a header scoped to an article or section) still falls back to the
      tag table and becomes a banner. */
  lemma ScopedHeaderIsBanner(n: Node)
    requires n.isElement && Lower(n.tagName) == "header"
    requires AxRole(n) == Some("generic")
    ensures LandmarkRole(n) == Some("banner")
  {
  }

  // ── Counting interactive elements ──────────────────────────────────────────

  /** The number of interactive nodes in the subtree at `n`, `n` included. */
  function InteractiveCount(n: Node): nat
    decreases n
  {
    (if n.isInteractive then 1 else 0) + InteractiveCountAll(n.children)
  }

  function InteractiveCountAll(ns: seq<Node>): nat
    decreases ns
  {
    if ns == [] then 0 else InteractiveCountAll(ns[..|ns| - 1]) + InteractiveCount(ns[|ns| - 1])
  }

  method CountInteractive(n: Node) returns (count: nat)
    ensures count == InteractiveCount(n)
    decreases n
  {
    count := if n.isInteractive then 1 else 0;
    for k := 0 to |n.children|
      invariant count == (if n.isInteractive then 1 else 0) + InteractiveCountAll(n.children[..k])
    {
      var c := CountInteractive(n.children[k]);
      assert n.children[..k + 1][..k] == n.children[..k];
      count := count + c;
    }
    assert n.children[..|n.children|] == n.children;
  }

  /** The number of visits whose node is interactive. */
  function InteractiveVisits(vs: seq<Visit>): nat {
    if vs == [] then 0
    else InteractiveVisits(vs[..|vs| - 1]) + (if vs[|vs| - 1].node.isInteractive then 1 else 0)
  }

  lemma {:induction false} InteractiveVisitsAppend(a: seq<Visit>, b: seq<Visit>)
    ensures InteractiveVisits(a + b) == InteractiveVisits(a) + InteractiveVisits(b)
    decreases |b|
  {
    if b == [] {
      assert a + b == a;
    } else {
      assert (a + b)[..|a + b| - 1] == a + b[..|b| - 1];
      InteractiveVisitsAppend(a, b[..|b| - 1]);
    }
  }

  /** The count is the number of interactive nodes met by a pre-order walk of
      the subtree. */
  lemma {:induction false} InteractiveCountIsWalk(n: Node, ancestors: seq<Node>)
    ensures InteractiveCount(n) == InteractiveVisits(Walk(n, ancestors))
    decreases n
  {
    InteractiveCountAllIsWalk(n.children, ancestors + [n]);
    InteractiveVisitsAppend([Visit(n, ancestors)], WalkAll(n.children, ancestors + [n]));
    assert [Visit(n, ancestors)][..0] == [];
  }

  lemma {:induction false} InteractiveCountAllIsWalk(ns: seq<Node>, ancestors: seq<Node>)
    ensures InteractiveCountAll(ns) == InteractiveVisits(WalkAll(ns, ancestors))
    decreases ns
  {
    if ns != [] {
      InteractiveCountAllIsWalk(ns[..|ns| - 1], ancestors);
      InteractiveCountIsWalk(ns[|ns| - 1], ancestors);
      InteractiveVisitsAppend(WalkAll(ns[..|ns| - 1], ancestors), Walk(ns[|ns| - 1], ancestors));
    }
  }

  // ── The landmark forest ────────────────────────────────────────────────────

  /** A detected landmark: its role and accessible name, the landmark node, its
      tree depth, the node's children, the number of interactive nodes in its
      subtree, and the landmarks nested in it. */
  datatype Region = Region(
    role: string,
    name: Option<string>,
    node: Node,
    depth: int,
    children: seq<Node>,
    elementCount: int,
    subRegions: seq<Region>)

  /** The regions that the subtree at `n` contributes to its enclosing list
      when `n` sits at tree depth `depth`: one region when `n` is a landmark,
      otherwise the contributions of its children, one edge deeper. */
  function LandmarkForest(n: Node, depth: int): seq<Region>
    decreases n
  {
    match LandmarkRole(n)
    case Some(role) =>
      [Region(role, AxName(n), n, depth, n.children, InteractiveCount(n),
              LandmarkForestAll(n.children, depth + 1))]
    case None => LandmarkForestAll(n.children, depth + 1)
  }

  function LandmarkForestAll(ns: seq<Node>, depth: int): seq<Region>
    decreases ns
  {
    if ns == [] then []
    else LandmarkForestAll(ns[..|ns| - 1], depth) + LandmarkForest(ns[|ns| - 1], depth)
  }

  /** The top-level landmark regions of the tree at `root`. */
  method DetectLandmarks(root: Node, depth: int) returns (regions: seq<Region>)
    ensures regions == LandmarkForest(root, depth)
  {
    regions := DetectLandmarksInto(root, depth, []);
  }

  /** Appends the regions of the subtree at `node` to `accumulator`. */
  method DetectLandmarksInto(node: Node, depth: int, accumulator: seq<Region>) returns (result: seq<Region>)
    ensures result == accumulator + LandmarkForest(node, depth)
    decreases node
  {
    var role := LandmarkRole(node);
    if role.Some? {
      var elementCount := CountInteractive(node);
      var subRegions: seq<Region> := [];
      for k := 0 to |node.children|
        invariant subRegions == [] + LandmarkForestAll(node.children[..k], depth + 1)
      {
        LandmarkForestAllSnoc([], node.children, k, depth + 1);
        subRegions := DetectLandmarksInto(node.children[k], depth + 1, subRegions);
      }
      LandmarkForestAllWhole([], node.children, depth + 1);
      result := accumulator + [Region(role.value, AxName(node), node, depth, node.children, elementCount, subRegions)];
    } else {
      result := accumulator;
      for k := 0 to |node.children|
        invariant result == accumulator + LandmarkForestAll(node.children[..k], depth + 1)
      {
        LandmarkForestAllSnoc(accumulator, node.children, k, depth + 1);
        result := DetectLandmarksInto(node.children[k], depth + 1, result);
      }
      LandmarkForestAllWhole(accumulator, node.children, depth + 1);
    }
  }

  lemma LandmarkForestAllSnoc(prefix: seq<Region>, ns: seq<Node>, k: nat, depth: int)
    requires k < |ns|
    ensures prefix + LandmarkForestAll(ns[..k], depth) + LandmarkForest(ns[k], depth)
            == prefix + LandmarkForestAll(ns[..k + 1], depth)
  {
    assert ns[..k + 1][..k] == ns[..k];
  }

  lemma LandmarkForestAllWhole(prefix: seq<Region>, ns: seq<Node>, depth: int)
    ensures prefix + LandmarkForestAll(ns[..|ns|], depth) == prefix + LandmarkForestAll(ns, depth)
    ensures [] + LandmarkForestAll(ns[..|ns|], depth) == LandmarkForestAll(ns, depth)
  {
    assert ns[..|ns|] == ns;
  }


  // ── What the forest holds, against the reference walk ──────────────────────

  /** A landmark node, the tree depth it was recorded at, and how many
      landmarks enclose it. */
  datatype Occurrence = Occurrence(node: Node, depth: int, nesting: nat)

  /** The regions of a forest in pre-order, each with the depth recorded in it
      and its nesting level in the forest (`nesting` for the top list). */
  function RegionOccurrences(rs: seq<Region>, nesting: nat): seq<Occurrence>
    decreases rs
  {
    if rs == [] then []
    else RegionOccurrences(rs[..|rs| - 1], nesting) + RegionOccurrencesOf(rs[|rs| - 1], nesting)
  }

  function RegionOccurrencesOf(r: Region, nesting: nat): seq<Occurrence>
    decreases r
  {
    [Occurrence(r.node, r.depth, nesting)] + RegionOccurrences(r.subRegions, nesting + 1)
  }

  /** The number of landmarks among `ns`. */
  function LandmarkCount(ns: seq<Node>): nat {
    if ns == [] then 0
    else LandmarkCount(ns[..|ns| - 1]) + (if LandmarkRole(ns[|ns| - 1]).Some? then 1 else 0)
  }

  /** The landmark nodes met by a walk, in walk order, each with its depth
      (`base` plus its number of ancestors) and its number of landmark
      ancestors. */
  function LandmarkOccurrences(vs: seq<Visit>, base: int): seq<Occurrence> {
    if vs == [] then []
    else
      var v := vs[|vs| - 1];
      LandmarkOccurrences(vs[..|vs| - 1], base)
      + (if LandmarkRole(v.node).Some?
         then [Occurrence(v.node, base + |v.ancestors|, LandmarkCount(v.ancestors))] else [])
  }

  lemma {:induction false} RegionOccurrencesAppend(a: seq<Region>, b: seq<Region>, nesting: nat)
    ensures RegionOccurrences(a + b, nesting) == RegionOccurrences(a, nesting) + RegionOccurrences(b, nesting)
    decreases |b|
  {
    if b == [] {
      assert a + b == a;
    } else {
      assert (a + b)[..|a + b| - 1] == a + b[..|b| - 1];
      RegionOccurrencesAppend(a, b[..|b| - 1], nesting);
    }
  }

  lemma {:induction false} LandmarkOccurrencesAppend(a: seq<Visit>, b: seq<Visit>, base: int)
    ensures LandmarkOccurrences(a + b, base) == LandmarkOccurrences(a, base) + LandmarkOccurrences(b, base)
    decreases |b|
  {
    if b == [] {
      assert a + b == a;
    } else {
      assert (a + b)[..|a + b| - 1] == a + b[..|b| - 1];
      LandmarkOccurrencesAppend(a, b[..|b| - 1], base);
    }
  }

  /** Every landmark of the subtree appears in the forest exactly once, in
      document order, at its tree depth, nested as deep in the forest as it has
      landmark ancestors (so a landmark inside another one is never at the top
      level); no other node appears. */
  lemma {:induction false} LandmarkForestMatchesWalk(n: Node, ancestors: seq<Node>, base: int)
    ensures RegionOccurrences(LandmarkForest(n, base + |ancestors|), LandmarkCount(ancestors))
            == LandmarkOccurrences(Walk(n, ancestors), base)
    decreases n
  {
    LandmarkForestAllMatchesWalk(n.children, ancestors + [n], base);
    WalkOccurrences(n, ancestors, base);
    ForestOccurrences(n, ancestors, base);
  }

  /** The regions of a subtree's forest: the root's own, then those of its
      children's forests, one edge deeper and, below a landmark, one nesting
      level deeper. */
  lemma ForestOccurrences(n: Node, ancestors: seq<Node>, base: int)
    ensures RegionOccurrences(LandmarkForest(n, base + |ancestors|), LandmarkCount(ancestors))
            == (if LandmarkRole(n).Some? then [Occurrence(n, base + |ancestors|, LandmarkCount(ancestors))] else [])
               + RegionOccurrences(LandmarkForestAll(n.children, base + |ancestors + [n]|), LandmarkCount(ancestors + [n]))
  {
    var depth, nesting := base + |ancestors|, LandmarkCount(ancestors);
    LandmarkCountSnoc(ancestors, n);
    assert base + |ancestors + [n]| == depth + 1;
    if LandmarkRole(n).Some? {
      var r := LandmarkForest(n, depth)[0];
      assert LandmarkForest(n, depth) == [r];
      RegionOccurrencesOne(r, nesting);
    } else {
      assert [] + RegionOccurrences(LandmarkForestAll(n.children, depth + 1), nesting)
             == RegionOccurrences(LandmarkForestAll(n.children, depth + 1), nesting);
    }
  }

  /** The landmarks met by the walk of a subtree: the root's, then its
      children's. */
  lemma WalkOccurrences(n: Node, ancestors: seq<Node>, base: int)
    ensures LandmarkOccurrences(Walk(n, ancestors), base)
            == (if LandmarkRole(n).Some? then [Occurrence(n, base + |ancestors|, LandmarkCount(ancestors))] else [])
               + LandmarkOccurrences(WalkAll(n.children, ancestors + [n]), base)
  {
    var rest := WalkAll(n.children, ancestors + [n]);
    assert Walk(n, ancestors) == [Visit(n, ancestors)] + rest;
    LandmarkOccurrencesCons(Visit(n, ancestors), rest, base);
  }

  lemma LandmarkOccurrencesCons(v: Visit, rest: seq<Visit>, base: int)
    ensures LandmarkOccurrences([v] + rest, base)
            == (if LandmarkRole(v.node).Some? then [Occurrence(v.node, base + |v.ancestors|, LandmarkCount(v.ancestors))] else [])
               + LandmarkOccurrences(rest, base)
  {
    LandmarkOccurrencesAppend([v], rest, base);
    LandmarkOccurrencesOne(v, base);
  }



  lemma LandmarkCountSnoc(ns: seq<Node>, n: Node)
    ensures LandmarkCount(ns + [n]) == LandmarkCount(ns) + if LandmarkRole(n).Some? then 1 else 0
  {
    assert (ns + [n])[..|ns|] == ns;
  }

  lemma LandmarkOccurrencesOne(v: Visit, base: int)
    ensures LandmarkOccurrences([v], base)
            == if LandmarkRole(v.node).Some? then [Occurrence(v.node, base + |v.ancestors|, LandmarkCount(v.ancestors))] else []
  {
    assert [v][..0] == [];
  }

  lemma RegionOccurrencesOne(r: Region, nesting: nat)
    ensures RegionOccurrences([r], nesting) == RegionOccurrencesOf(r, nesting)
  {
    assert [r][..0] == [];
  }


  lemma {:induction false} LandmarkForestAllMatchesWalk(ns: seq<Node>, ancestors: seq<Node>, base: int)
    ensures RegionOccurrences(LandmarkForestAll(ns, base + |ancestors|), LandmarkCount(ancestors))
            == LandmarkOccurrences(WalkAll(ns, ancestors), base)
    decreases ns
  {
    if ns != [] {
      var depth := base + |ancestors|;
      LandmarkForestAllMatchesWalk(ns[..|ns| - 1], ancestors, base);
      LandmarkForestMatchesWalk(ns[|ns| - 1], ancestors, base);
      RegionOccurrencesAppend(LandmarkForestAll(ns[..|ns| - 1], depth), LandmarkForest(ns[|ns| - 1], depth), LandmarkCount(ancestors));
      LandmarkOccurrencesAppend(WalkAll(ns[..|ns| - 1], ancestors), Walk(ns[|ns| - 1], ancestors), base);
    }
  }

  /** The fields of each region, at every nesting level, describe its node:
      its role and name, the node's own children, the interactive count of
      its subtree, and sub-regions that are the forest of its children. */
  ghost predicate RegionFaithful(r: Region)
    decreases r
  {
    && LandmarkRole(r.node) == Some(r.role)
    && r.name == AxName(r.node)
    && r.children == r.node.children
    && r.elementCount == InteractiveCount(r.node)
    && r.subRegions == LandmarkForestAll(r.node.children, r.depth + 1)
    && RegionsFaithful(r.subRegions)
  }

  ghost predicate RegionsFaithful(rs: seq<Region>)
    decreases rs
  {
    forall i :: 0 <= i < |rs| ==> RegionFaithful(rs[i])
  }

  lemma {:induction false} LandmarkForestFaithful(n: Node, depth: int)
    ensures RegionsFaithful(LandmarkForest(n, depth))
    decreases n
  {
    LandmarkForestAllFaithful(n.children, depth + 1);
  }

  lemma {:induction false} LandmarkForestAllFaithful(ns: seq<Node>, depth: int)
    ensures RegionsFaithful(LandmarkForestAll(ns, depth))
    decreases ns
  {
    if ns != [] {
      LandmarkForestAllFaithful(ns[..|ns| - 1], depth);
      LandmarkForestFaithful(ns[|ns| - 1], depth);
    }
  }
}
