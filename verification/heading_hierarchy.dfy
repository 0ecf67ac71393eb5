/**
 * The heading hierarchy of the outline mode: which nodes are headings and at
 * what level, the flat list of headings in document order labelled with their
 * nearest enclosing landmark, and the nesting of that list into a forest by
 * level.
 */
module HeadingHierarchy {
  import opened Wrappers
  import opened SimplifiedTree
  import opened LandmarkDetection

  const HeadingTags: set<string> := {"h1", "h2", "h3", "h4", "h5", "h6"}

  /** The level a heading tag names. */
  function TagLevel(tag: string): (level: Option<int>)
    ensures level.Some? <==> tag in HeadingTags
    ensures level.Some? ==> 1 <= level.value <= 6 && tag == ['h', ('0' as int + level.value) as char]
  {
    if tag in HeadingTags then Some(tag[1] as int - '0' as int) else None
  }

  /** The value of the first `level` property whose value converts to an
      integer. */
  function FirstLevelProperty(props: seq<AxProperty>): Option<int> {
    if props == [] then None
    else if props[0].name == "level" && props[0].intValue.Some? then props[0].intValue
    else FirstLevelProperty(props[1..])
  }

  /** FirstLevelProperty returns the value of the first `level` property that
      converts, and None exactly when there is no such property. */
  lemma {:induction false} FirstLevelPropertyIsFirst(props: seq<AxProperty>)
    ensures FirstLevelProperty(props).Some? ==>
              exists i :: 0 <= i < |props| && props[i].name == "level" && props[i].intValue == FirstLevelProperty(props)
                          && forall j :: 0 <= j < i ==> props[j].name != "level" || props[j].intValue.None?
    ensures FirstLevelProperty(props).None? ==>
              forall i :: 0 <= i < |props| ==> props[i].name != "level" || props[i].intValue.None?
  {
    if props != [] && !(props[0].name == "level" && props[0].intValue.Some?) {
      FirstLevelPropertyIsFirst(props[1..]);
      assert forall i :: 1 <= i < |props| ==> props[i] == props[1..][i - 1];
      if FirstLevelProperty(props).Some? {
        var i :| 0 <= i < |props[1..]| && props[1..][i].name == "level"
                 && props[1..][i].intValue == FirstLevelProperty(props)
                 && forall j :: 0 <= j < i ==> props[1..][j].name != "level" || props[1..][j].intValue.None?;
        assert props[i + 1] == props[1..][i];
      }
    }
  }

  /** The heading level of `n`, or None when `n` is not a heading. */
  function HeadingLevel(n: Node): Option<int> {
    if AxRole(n) == Some("heading") then
      match FirstLevelProperty(n.axProperties)
      case Some(l) => Some(l)
      case None => if Lower(n.tagName) in HeadingTags then TagLevel(Lower(n.tagName)) else Some(1)
    else if n.isElement && Lower(n.tagName) in HeadingTags then
      TagLevel(Lower(n.tagName))
    else
      None
  }

  /** The precedence HeadingLevel follows. */
  lemma HeadingLevelCases(n: Node)
    // an accessibility heading is always a heading, its level property first
    ensures AxRole(n) == Some("heading") ==> HeadingLevel(n).Some?
    ensures AxRole(n) == Some("heading") && FirstLevelProperty(n.axProperties).Some? ==>
              HeadingLevel(n) == FirstLevelProperty(n.axProperties)
    ensures AxRole(n) == Some("heading") && FirstLevelProperty(n.axProperties).None? ==>
              HeadingLevel(n) == (if Lower(n.tagName) in HeadingTags then TagLevel(Lower(n.tagName)) else Some(1))
    // any other node is a heading exactly when it is an h1-h6 element
    ensures AxRole(n) != Some("heading") ==> (HeadingLevel(n).Some? <==> n.isElement && Lower(n.tagName) in HeadingTags)
    // only a level property can give a level outside 1..6
    ensures HeadingLevel(n).Some? && (AxRole(n) != Some("heading") || FirstLevelProperty(n.axProperties).None?) ==>
              1 <= HeadingLevel(n).value <= 6
  {
  }

  /** The text of a heading: its accessible name, or else its descendant text. */
  function HeadingText(n: Node): (text: string)
    ensures AxName(n).Some? ==> text == n.axName.value
    ensures AxName(n).None? ==> text == n.childrenText
  {
    match AxName(n)
    case Some(name) => name
    case None => n.childrenText
  }

  /** A heading in document order, labelled with its enclosing landmark. */
  datatype Heading = Heading(level: int, text: string, node: Node, parentLandmark: Option<string>)

  /** A heading with the headings nested under it. */
  datatype HeadingNode = HeadingNode(heading: Heading, children: seq<HeadingNode>)

  /** The label a landmark gives the headings inside it: the upper-cased role,
      followed by the quoted accessible name when there is one. */
  function LandmarkLabel(role: string, name: Option<string>): string {
    match name
    case Some(s) => Upper(role) + ": \"" + s + "\""
    case None => Upper(role)
  }

  /** The landmark label in force at `n` when `current` is in force above it. */
  function ContextLabel(n: Node, current: Option<string>): Option<string> {
    match LandmarkRole(n)
    case Some(role) => Some(LandmarkLabel(role, AxName(n)))
    case None => current
  }

  // ── Collecting the flat list ───────────────────────────────────────────────

  /** The headings of the subtree at `n` in document order, `current` being
      the landmark label in force above `n`. */
  function HeadingsFlat(n: Node, current: Option<string>): seq<Heading>
    decreases n
  {
    var context := ContextLabel(n, current);
    (match HeadingLevel(n)
     case Some(level) => [Heading(level, HeadingText(n), n, context)]
     case None => [])
    + HeadingsFlatAll(n.children, context)
  }

  function HeadingsFlatAll(ns: seq<Node>, current: Option<string>): seq<Heading>
    decreases ns
  {
    if ns == [] then [] else HeadingsFlatAll(ns[..|ns| - 1], current) + HeadingsFlat(ns[|ns| - 1], current)
  }

  /** Appends the headings of the subtree at `node` to `accumulator`. */
  method CollectHeadingsFlat(node: Node, current: Option<string>, accumulator: seq<Heading>)
    returns (result: seq<Heading>)
    ensures result == accumulator + HeadingsFlat(node, current)
    decreases node
  {
    var currentLandmark := ContextLabel(node, current);
    var own: seq<Heading> := [];
    var level := HeadingLevel(node);
    if level.Some? {
      own := [Heading(level.value, HeadingText(node), node, currentLandmark)];
    }
    result := accumulator + own;
    for k := 0 to |node.children|
      invariant result == accumulator + own + HeadingsFlatAll(node.children[..k], currentLandmark)
    {
      HeadingsFlatAllSnoc(accumulator + own, node.children, k, currentLandmark);
      result := CollectHeadingsFlat(node.children[k], currentLandmark, result);
    }
    HeadingsFlatDone(node, current, accumulator, own);
  }

  lemma HeadingsFlatDone(node: Node, current: Option<string>, accumulator: seq<Heading>, own: seq<Heading>)
    requires own == match HeadingLevel(node)
                    case Some(level) => [Heading(level, HeadingText(node), node, ContextLabel(node, current))]
                    case None => []
    ensures accumulator + own + HeadingsFlatAll(node.children[..|node.children|], ContextLabel(node, current))
            == accumulator + HeadingsFlat(node, current)
  {
    assert node.children[..|node.children|] == node.children;
  }

  lemma HeadingsFlatAllSnoc(prefix: seq<Heading>, ns: seq<Node>, k: nat, current: Option<string>)
    requires k < |ns|
    ensures prefix + HeadingsFlatAll(ns[..k], current) + HeadingsFlat(ns[k], current)
            == prefix + HeadingsFlatAll(ns[..k + 1], current)
  {
    assert ns[..k + 1][..k] == ns[..k];
  }

  /** The label of the nearest landmark on `path` (the last one), or `default`
      when the path holds none. */
  function EnclosingLabel(path: seq<Node>, default: Option<string>): Option<string> {
    if path == [] then default
    else
      var n := path[|path| - 1];
      match LandmarkRole(n)
      case Some(role) => Some(LandmarkLabel(role, AxName(n)))
      case None => EnclosingLabel(path[..|path| - 1], default)
  }

  /** The heading nodes met by a walk, each labelled with the nearest landmark
      among the node and its ancestors. */
  function HeadingsOfVisits(vs: seq<Visit>, default: Option<string>): seq<Heading> {
    if vs == [] then []
    else
      var v := vs[|vs| - 1];
      HeadingsOfVisits(vs[..|vs| - 1], default)
      + match HeadingLevel(v.node)
        case Some(level) =>
          [Heading(level, HeadingText(v.node), v.node, EnclosingLabel(v.ancestors + [v.node], default))]
        case None => []
  }

  lemma {:induction false} HeadingsOfVisitsAppend(a: seq<Visit>, b: seq<Visit>, default: Option<string>)
    ensures HeadingsOfVisits(a + b, default) == HeadingsOfVisits(a, default) + HeadingsOfVisits(b, default)
    decreases |b|
  {
    if b == [] {
      assert a + b == a;
    } else {
      assert (a + b)[..|a + b| - 1] == a + b[..|b| - 1];
      HeadingsOfVisitsAppend(a, b[..|b| - 1], default);
    }
  }

  lemma EnclosingLabelSnoc(path: seq<Node>, n: Node, default: Option<string>)
    ensures EnclosingLabel(path + [n], default) == ContextLabel(n, EnclosingLabel(path, default))
  {
    assert (path + [n])[..|path|] == path;
  }

  lemma HeadingsOfOneVisit(v: Visit, default: Option<string>)
    ensures HeadingsOfVisits([v], default)
            == match HeadingLevel(v.node)
               case Some(level) =>
                 [Heading(level, HeadingText(v.node), v.node, EnclosingLabel(v.ancestors + [v.node], default))]
               case None => []
  {
    assert [v][..0] == [];
  }

  /** The collected headings are exactly the heading nodes of the subtree in
      document order, each labelled with its nearest enclosing landmark (the
      node itself included), or with the default when there is none. */
  lemma {:induction false} HeadingsFlatMatchesWalk(n: Node, ancestors: seq<Node>, default: Option<string>)
    ensures HeadingsFlat(n, EnclosingLabel(ancestors, default)) == HeadingsOfVisits(Walk(n, ancestors), default)
    decreases n
  {
    var inner := ancestors + [n];
    EnclosingLabelSnoc(ancestors, n, default);
    HeadingsFlatAllMatchesWalk(n.children, inner, default);
    HeadingsOfVisitsAppend([Visit(n, ancestors)], WalkAll(n.children, inner), default);
    HeadingsOfOneVisit(Visit(n, ancestors), default);
  }

  lemma {:induction false} HeadingsFlatAllMatchesWalk(ns: seq<Node>, ancestors: seq<Node>, default: Option<string>)
    ensures HeadingsFlatAll(ns, EnclosingLabel(ancestors, default)) == HeadingsOfVisits(WalkAll(ns, ancestors), default)
    decreases ns
  {
    if ns != [] {
      HeadingsFlatAllMatchesWalk(ns[..|ns| - 1], ancestors, default);
      HeadingsFlatMatchesWalk(ns[|ns| - 1], ancestors, default);
      HeadingsOfVisitsAppend(WalkAll(ns[..|ns| - 1], ancestors), Walk(ns[|ns| - 1], ancestors), default);
    }
  }

  // ── Nesting the flat list ──────────────────────────────────────────────────

  /** The end of the run of headings after `hs[0]` that nest under it: the
      first index from `k` on whose level is at most `hs[0]`'s, or `|hs|`. */
  function SubtreeEnd(hs: seq<Heading>, k: nat): (e: nat)
    requires 1 <= k <= |hs|
    ensures k <= e <= |hs|
    decreases |hs| - k
  {
    if k == |hs| || hs[k].level <= hs[0].level then k else SubtreeEnd(hs, k + 1)
  }

  /** The run ends at the first heading, from `k` on, whose level is at most
      that of `hs[0]`: every heading before it has a higher level. */
  lemma {:induction false} SubtreeEndLevels(hs: seq<Heading>, k: nat)
    requires 1 <= k <= |hs|
    ensures forall j :: k <= j < SubtreeEnd(hs, k) ==> hs[j].level > hs[0].level
    ensures SubtreeEnd(hs, k) < |hs| ==> hs[SubtreeEnd(hs, k)].level <= hs[0].level
    decreases |hs| - k
  {
    if k < |hs| && hs[k].level > hs[0].level {
      SubtreeEndLevels(hs, k + 1);
    }
  }

  /** The intended nesting, stated without a stack: the first heading owns
      the headings that follow it up to the next one of the same or a lower
      level; that one starts the next tree. */
  function Forest(hs: seq<Heading>): (f: seq<HeadingNode>)
    ensures |f| == 0 <==> |hs| == 0
    decreases |hs|
  {
    if hs == [] then []
    else
      var e := SubtreeEnd(hs, 1);
      [HeadingNode(hs[0], Forest(hs[1..e]))] + Forest(hs[e..])
  }

  /** The headings of a forest in pre-order. */
  function Flatten(f: seq<HeadingNode>): seq<Heading>
    decreases f
  {
    if f == [] then [] else Flatten(f[..|f| - 1]) + FlattenTree(f[|f| - 1])
  }

  function FlattenTree(t: HeadingNode): seq<Heading>
    decreases t
  {
    [t.heading] + Flatten(t.children)
  }

  lemma {:induction false} FlattenAppend(a: seq<HeadingNode>, b: seq<HeadingNode>)
    ensures Flatten(a + b) == Flatten(a) + Flatten(b)
    decreases |b|
  {
    if b == [] {
      assert a + b == a;
    } else {
      assert (a + b)[..|a + b| - 1] == a + b[..|b| - 1];
      FlattenAppend(a, b[..|b| - 1]);
    }
  }

  lemma FlattenCons(t: HeadingNode, f: seq<HeadingNode>)
    ensures Flatten([t] + f) == FlattenTree(t) + Flatten(f)
  {
    FlattenAppend([t], f);
    assert [t][..0] == [];
  }

  /** Every child heading has a strictly higher level than its parent, at
      every depth of the forest. */
  ghost predicate WellNested(f: seq<HeadingNode>)
    decreases f
  {
    forall i :: 0 <= i < |f| ==> WellNestedTree(f[i])
  }

  ghost predicate WellNestedTree(t: HeadingNode)
    decreases t
  {
    && (forall i :: 0 <= i < |t.children| ==> t.children[i].heading.level > t.heading.level)
    && WellNested(t.children)
  }

  /** A pre-order traversal of the forest gives back the list: every heading
      appears exactly once, in its original order. */
  lemma {:induction false} ForestPreorder(hs: seq<Heading>)
    ensures Flatten(Forest(hs)) == hs
    decreases |hs|
  {
    if hs != [] {
      var e := SubtreeEnd(hs, 1);
      var t := HeadingNode(hs[0], Forest(hs[1..e]));
      ForestPreorder(hs[1..e]);
      ForestPreorder(hs[e..]);
      ForestUnfold(hs);
      FlattenCons(t, Forest(hs[e..]));
      SplitAround(hs, e);
    }
  }

  lemma {:induction false} ForestRootsFrom(hs: seq<Heading>)
    ensures forall i :: 0 <= i < |Forest(hs)| ==> Forest(hs)[i].heading in hs
    decreases |hs|
  {
    if hs != [] {
      var e := SubtreeEnd(hs, 1);
      ForestRootsFrom(hs[e..]);
      forall i | 1 <= i < |Forest(hs)|
        ensures Forest(hs)[i].heading in hs
      {
        assert Forest(hs)[i] == Forest(hs[e..])[i - 1];
      }
    }
  }

  /** In the forest every child's level is strictly greater than its
      parent's. */
  lemma {:induction false} ForestNested(hs: seq<Heading>)
    ensures WellNested(Forest(hs))
    decreases |hs|
  {
    if hs != [] {
      var e := SubtreeEnd(hs, 1);
      var t := HeadingNode(hs[0], Forest(hs[1..e]));
      ForestNested(hs[1..e]);
      ForestNested(hs[e..]);
      ForestRootsFrom(hs[1..e]);
      SubtreeEndLevels(hs, 1);
      forall i | 0 <= i < |t.children|
        ensures t.children[i].heading.level > hs[0].level
      {
        var x := t.children[i].heading;
        assert x in hs[1..e];
        var j :| 0 <= j < e - 1 && hs[1..e][j] == x;
        assert hs[j + 1] == x;
      }
      assert WellNestedTree(t);
      var f := Forest(hs);
      assert f == [t] + Forest(hs[e..]);
      forall i | 0 <= i < |f|
        ensures WellNestedTree(f[i])
      {
        if i > 0 {
          assert f[i] == Forest(hs[e..])[i - 1];
        }
      }
    }
  }

  /** The headings along the rightmost path of a forest, from the last root
      down to its last descendant. */
  function Spine(f: seq<HeadingNode>): seq<Heading>
    decreases f
  {
    if f == [] then [] else [f[|f| - 1].heading] + Spine(f[|f| - 1].children)
  }

  /** The forest with `h` appended as the last child of the `d`-th heading on
      its spine, or as a new last root when `d` is 0. */
  function Graft(f: seq<HeadingNode>, d: nat, h: Heading): seq<HeadingNode>
    requires d <= |Spine(f)|
    decreases f
  {
    if d == 0 then f + [HeadingNode(h, [])]
    else
      var last := f[|f| - 1];
      f[..|f| - 1] + [HeadingNode(last.heading, Graft(last.children, d - 1, h))]
  }

  /** How many headings at the start of `s` have a level below `level`. */
  function KeepLen(s: seq<Heading>, level: int): (k: nat)
    ensures k <= |s|
  {
    if s == [] || s[0].level >= level then 0 else 1 + KeepLen(s[1..], level)
  }

  ghost predicate Ascending(s: seq<Heading>) {
    forall i, j :: 0 <= i < j < |s| ==> s[i].level < s[j].level
  }

  lemma {:induction false} KeepLenAscending(s: seq<Heading>, level: int)
    requires Ascending(s)
    ensures forall j :: 0 <= j < |s| ==> (j < KeepLen(s, level) <==> s[j].level < level)
    decreases |s|
  {
    if s != [] && s[0].level < level {
      KeepLenAscending(s[1..], level);
      forall j | 1 <= j < |s|
        ensures j < KeepLen(s, level) <==> s[j].level < level
      {
        assert s[1..][j - 1] == s[j];
      }
    }
  }

  lemma {:induction false} SpineAscending(f: seq<HeadingNode>)
    requires WellNested(f)
    ensures Ascending(Spine(f))
    ensures Spine(f) != [] ==> Spine(f)[0] == f[|f| - 1].heading
    decreases f
  {
    if f != [] {
      var last := f[|f| - 1];
      assert WellNestedTree(last);
      SpineAscending(last.children);
      var s := Spine(f);
      var rest := Spine(last.children);
      assert s == [last.heading] + rest;
      if rest != [] {
        assert rest[0].level > last.heading.level;
      }
      forall i, j | 0 <= i < j < |s|
        ensures s[i].level < s[j].level
      {
        assert s[j] == rest[j - 1];
        if i > 0 {
          assert s[i] == rest[i - 1];
        }
      }
    }
  }

  /** The stack's pop condition decides KeepLen: when the stack is a prefix
      of the spine of a forest built from a list, at least KeepLen long, its
      top is popped exactly when KeepLen lies below its length. */
  lemma PopStep(hs: seq<Heading>, root: seq<HeadingNode>, stack: seq<Heading>, level: int)
    requires root == Forest(hs)
    requires KeepLen(Spine(root), level) <= |stack| <= |Spine(root)|
    requires stack == Spine(root)[..|stack|]
    ensures |stack| > 0 && stack[|stack| - 1].level >= level ==> KeepLen(Spine(root), level) <= |stack| - 1
    ensures |stack| == 0 || stack[|stack| - 1].level < level ==> |stack| == KeepLen(Spine(root), level)
  {
    ForestNested(hs);
    SpineAscending(root);
    KeepLenAscending(Spine(root), level);
    if |stack| > 0 {
      assert stack[|stack| - 1] == Spine(root)[|stack| - 1];
    }
  }

  lemma {:induction false} SpineGraft(f: seq<HeadingNode>, d: nat, h: Heading)
    requires d <= |Spine(f)|
    ensures Spine(Graft(f, d, h)) == Spine(f)[..d] + [h]
    decreases f
  {
    if d == 0 {
      var g := f + [HeadingNode(h, [])];
      assert g[|g| - 1] == HeadingNode(h, []);
    } else {
      var last := f[|f| - 1];
      SpineGraft(last.children, d - 1, h);
      var g := Graft(f, d, h);
      assert g[|g| - 1] == HeadingNode(last.heading, Graft(last.children, d - 1, h));
      assert Spine(f)[..d] == [last.heading] + Spine(last.children)[..d - 1];
    }
  }

  lemma {:induction false} GraftPrepend(t: HeadingNode, f: seq<HeadingNode>, d: nat, h: Heading)
    requires f != [] && d <= |Spine(f)|
    ensures Spine([t] + f) == Spine(f)
    ensures Graft([t] + f, d, h) == [t] + Graft(f, d, h)
  {
    var g := [t] + f;
    assert g[|g| - 1] == f[|f| - 1];
    if d > 0 {
      assert g[..|g| - 1] == [t] + f[..|f| - 1];
    }
  }

  lemma {:induction false} SubtreeEndSnoc(hs: seq<Heading>, h: Heading, k: nat)
    requires 1 <= k <= |hs|
    ensures SubtreeEnd(hs + [h], k)
            == if SubtreeEnd(hs, k) < |hs| || h.level <= hs[0].level then SubtreeEnd(hs, k) else |hs| + 1
    decreases |hs| - k
  {
    var hs' := hs + [h];
    assert hs'[0] == hs[0];
    if k < |hs| {
      assert hs'[k] == hs[k];
      if hs[k].level > hs[0].level {
        SubtreeEndSnoc(hs, h, k + 1);
      }
    } else {
      assert hs'[k] == h;
    }
  }

  /** The slices of a list with one more heading. */
  lemma SnocSlices(hs: seq<Heading>, h: Heading, e: nat)
    requires 1 <= e <= |hs|
    ensures (hs + [h])[0] == hs[0]
    ensures (hs + [h])[1..e] == hs[1..e]
    ensures (hs + [h])[e..] == hs[e..] + [h]
    ensures (hs + [h])[1..] == hs[1..] + [h]
  {
  }

  lemma SplitAround(hs: seq<Heading>, e: nat)
    requires 1 <= e <= |hs|
    ensures hs == [hs[0]] + hs[1..e] + hs[e..]
  {
  }

  /** Forest(hs) unfolded once: its first tree and the forest of the rest. */
  lemma ForestUnfold(hs: seq<Heading>)
    requires hs != []
    ensures Forest(hs) == [HeadingNode(hs[0], Forest(hs[1..SubtreeEnd(hs, 1)]))] + Forest(hs[SubtreeEnd(hs, 1)..])
  {
  }

  /** Appending a heading to the list grafts it onto the forest of the list
      at the depth of the spine's longest prefix of lower levels. This is the
      step the stack algorithm performs. */
  lemma {:induction false} ForestSnoc(hs: seq<Heading>, h: Heading)
    ensures Forest(hs + [h]) == Graft(Forest(hs), KeepLen(Spine(Forest(hs)), h.level), h)
    decreases |hs|
  {
    if hs == [] {
      assert hs + [h] == [h];
      assert [h][1..1] == [] && [h][1..] == [];
    } else {
      var e := SubtreeEnd(hs, 1);
      SubtreeEndSnoc(hs, h, 1);
      if e < |hs| {
        ForestSnoc(hs[e..], h);
        ForestSnocLaterTree(hs, h);
      } else if h.level <= hs[0].level {
        ForestSnocNewRoot(hs, h);
      } else {
        ForestSnoc(hs[1..], h);
        ForestSnocUnderFirst(hs, h);
      }
    }
  }

  /** ForestSnoc when the list holds more than one tree: the heading goes
      into the trees after the first. */
  lemma {:induction false} ForestSnocLaterTree(hs: seq<Heading>, h: Heading)
    requires hs != [] && SubtreeEnd(hs, 1) < |hs|
    requires SubtreeEnd(hs + [h], 1) == SubtreeEnd(hs, 1)
    requires Forest(hs[SubtreeEnd(hs, 1)..] + [h])
             == Graft(Forest(hs[SubtreeEnd(hs, 1)..]), KeepLen(Spine(Forest(hs[SubtreeEnd(hs, 1)..])), h.level), h)
    ensures Forest(hs + [h]) == Graft(Forest(hs), KeepLen(Spine(Forest(hs)), h.level), h)
  {
    var hs' := hs + [h];
    var e := SubtreeEnd(hs, 1);
    var t := HeadingNode(hs[0], Forest(hs[1..e]));
    ForestUnfold(hs);
    ForestUnfold(hs');
    SnocSlices(hs, h, e);
    var d := KeepLen(Spine(Forest(hs[e..])), h.level);
    GraftPrepend(t, Forest(hs[e..]), d, h);
  }

  /** ForestSnoc when the list is one tree and the heading's level is at most
      its root's: the heading becomes a new root. */
  lemma {:induction false} ForestSnocNewRoot(hs: seq<Heading>, h: Heading)
    requires hs != [] && SubtreeEnd(hs, 1) == |hs| && h.level <= hs[0].level
    requires SubtreeEnd(hs + [h], 1) == |hs|
    ensures Forest(hs + [h]) == Graft(Forest(hs), KeepLen(Spine(Forest(hs)), h.level), h)
  {
    var hs' := hs + [h];
    var e := |hs|;
    ForestUnfold(hs);
    ForestUnfold(hs');
    SnocSlices(hs, h, e);
    assert [h][1..1] == [] && [h][1..] == [];
    assert hs[e..] == [];
  }

  /** A list whose first heading owns all the others forms a single tree. */
  lemma ForestSingleTree(xs: seq<Heading>)
    requires xs != [] && SubtreeEnd(xs, 1) == |xs|
    ensures Forest(xs) == [HeadingNode(xs[0], Forest(xs[1..]))]
  {
    ForestUnfold(xs);
    SlicesToEnd(xs);
  }

  lemma SlicesToEnd(xs: seq<Heading>)
    requires xs != []
    ensures xs[1..|xs|] == xs[1..] && Forest(xs[|xs|..]) == []
  {
    assert xs[|xs|..] == [];
  }

  /** ForestSnoc when the list is one tree and the heading's level is above
      its root's: the heading goes under that root. */
  lemma {:induction false} ForestSnocUnderFirst(hs: seq<Heading>, h: Heading)
    requires hs != [] && SubtreeEnd(hs, 1) == |hs| && h.level > hs[0].level
    requires SubtreeEnd(hs + [h], 1) == |hs| + 1
    requires Forest(hs[1..] + [h]) == Graft(Forest(hs[1..]), KeepLen(Spine(Forest(hs[1..])), h.level), h)
    ensures Forest(hs + [h]) == Graft(Forest(hs), KeepLen(Spine(Forest(hs)), h.level), h)
  {
    var hs' := hs + [h];
    var sub := Forest(hs[1..]);
    var t := HeadingNode(hs[0], sub);
    var d := KeepLen(Spine(sub), h.level);
    ForestSingleTree(hs);
    ForestSingleTree(hs');
    SnocSlices(hs, h, 1);
    SingleTreeSpine(t, h);
    SingleTreeGraft(t, d, h);
  }

  lemma SingleTreeSpine(t: HeadingNode, h: Heading)
    requires t.heading.level < h.level
    ensures KeepLen(Spine([t]), h.level) == 1 + KeepLen(Spine(t.children), h.level)
  {
    assert Spine([t]) == [t.heading] + Spine(t.children);
    assert Spine([t])[1..] == Spine(t.children);
  }

  lemma SingleTreeGraft(t: HeadingNode, d: nat, h: Heading)
    requires d <= |Spine(t.children)|
    ensures 1 + d <= |Spine([t])|
    ensures Graft([t], 1 + d, h) == [HeadingNode(t.heading, Graft(t.children, d, h))]
  {
    assert [t][..0] == [];
  }

  /** One step of the stack algorithm, once the stack is popped down to the
      headings of lower level than `flat[i]`: attaching the heading under the
      top of the stack, or as a new root when the stack is empty, builds the
      forest of the next prefix, and pushing it gives that forest's spine. */
  lemma NestStep(flat: seq<Heading>, i: nat, root: seq<HeadingNode>, stack: seq<Heading>)
    requires i < |flat| && root == Forest(flat[..i])
    requires |stack| == KeepLen(Spine(root), flat[i].level)
    requires stack == Spine(root)[..|stack|]
    ensures Forest(flat[..i + 1])
            == if |stack| > 0 then Graft(root, |stack|, flat[i]) else root + [HeadingNode(flat[i], [])]
    ensures Spine(Forest(flat[..i + 1])) == stack + [flat[i]]
  {
    assert flat[..i + 1] == flat[..i] + [flat[i]];
    ForestSnoc(flat[..i], flat[i]);
    SpineGraft(root, |stack|, flat[i]);
  }

  /** Nests the flat heading list with a stack of the open headings (the
      spine of the forest built so far). */
  method NestHeadings(flat: seq<Heading>) returns (root: seq<HeadingNode>)
    ensures root == Forest(flat)
  {
    if |flat| == 0 {
      return [];
    }
    root := [];
    var stack: seq<Heading> := [];
    for i := 0 to |flat|
      invariant root == Forest(flat[..i])
      invariant stack == Spine(root)
    {
      var heading := flat[i];
      while |stack| > 0 && stack[|stack| - 1].level >= heading.level
        invariant stack == Spine(root)[..|stack|]
        invariant KeepLen(Spine(root), heading.level) <= |stack|
        decreases |stack|
      {
        PopStep(flat[..i], root, stack, heading.level);
        stack := stack[..|stack| - 1];
      }
      PopStep(flat[..i], root, stack, heading.level);
      NestStep(flat, i, root, stack);
      if |stack| > 0 {
        root := Graft(root, |stack|, heading);
      } else {
        root := root + [HeadingNode(heading, [])];
      }
      stack := stack + [heading];
    }
    assert flat[..|flat|] == flat;
  }

  /** The heading hierarchy of the tree at `root`. */
  method ExtractHeadingHierarchy(root: Node, parentLandmark: Option<string>) returns (hierarchy: seq<HeadingNode>)
    ensures hierarchy == Forest(HeadingsFlat(root, parentLandmark))
  {
    var headings := CollectHeadingsFlat(root, parentLandmark, []);
    assert headings == HeadingsFlat(root, parentLandmark);
    hierarchy := NestHeadings(headings);
  }

  /** The hierarchy holds every heading node of the tree exactly once, in
      document order by pre-order, labelled with its nearest enclosing
      landmark, and every child heading has a higher level than its parent. */
  lemma HeadingHierarchyCorrect(root: Node, parentLandmark: Option<string>)
    ensures Flatten(Forest(HeadingsFlat(root, parentLandmark))) == HeadingsOfVisits(Walk(root, []), parentLandmark)
    ensures WellNested(Forest(HeadingsFlat(root, parentLandmark)))
  {
    HeadingsFlatMatchesWalk(root, [], parentLandmark);
    ForestPreorder(HeadingsFlat(root, parentLandmark));
    ForestNested(HeadingsFlat(root, parentLandmark));
  }

  /** Levels 1, 2, 3, 2 nest as one root with two children, the first of
      which has one child. */
  lemma NestingExample(n: Node)
    ensures
      var title := Heading(1, "Title", n, None);
      var a := Heading(2, "Section A", n, None);
      var a1 := Heading(3, "Sub A.1", n, None);
      var b := Heading(2, "Section B", n, None);
      Forest([title, a, a1, b])
      == [HeadingNode(title, [HeadingNode(a, [HeadingNode(a1, [])]), HeadingNode(b, [])])]
  {
    var title := Heading(1, "Title", n, None);
    var a := Heading(2, "Section A", n, None);
    var a1 := Heading(3, "Sub A.1", n, None);
    var b := Heading(2, "Section B", n, None);
    var hs := [title, a, a1, b];
    var sub := [a, a1, b];
    assert SubtreeEnd(hs, 3) == 4;
    assert SubtreeEnd(hs, 1) == 4;
    assert hs[1..] == sub;
    ForestSingleTree(hs);
    assert SubtreeEnd(sub, 1) == 2;
    ForestUnfold(sub);
    assert sub[1..2] == [a1] && sub[2..] == [b];
    assert SubtreeEnd([a1], 1) == 1 && [a1][1..] == [];
    ForestSingleTree([a1]);
    assert SubtreeEnd([b], 1) == 1 && [b][1..] == [];
    ForestSingleTree([b]);
    assert Forest([a1]) == [HeadingNode(a1, [])];
    assert Forest([b]) == [HeadingNode(b, [])];
    assert Forest(sub) == [HeadingNode(a, [HeadingNode(a1, [])]), HeadingNode(b, [])];
    assert Forest(hs) == [HeadingNode(title, Forest(sub))];
  }

  /** Nesting looks at levels only: a heading of a higher level goes under
      the one before it whatever landmark either one sits in. */
  lemma NestingIgnoresLandmarks(x: Heading, y: Heading)
    requires x.level < y.level
    ensures Forest([x, y]) == [HeadingNode(x, [HeadingNode(y, [])])]
  {
    var hs := [x, y];
    assert SubtreeEnd(hs, 1) == 2;
    assert hs[1..] == [y];
    ForestSingleTree(hs);
    assert SubtreeEnd([y], 1) == 1 && [y][1..] == [];
    ForestSingleTree([y]);
  }

  /** A `<header>` holding an h1 followed by a `<main>` holding an h2: the h2,
      labelled MAIN, becomes a child of the h1, labelled BANNER, so the
      hierarchy crosses the landmark boundary. */
  lemma HeadingsCrossLandmarks()
    ensures
      Forest(HeadingsFlat(ExampleBody(), None))
      == [HeadingNode(Heading(1, "Site Title", ExampleH1(), Some("BANNER")),
                      [HeadingNode(Heading(2, "Main Content", ExampleH2(), Some("MAIN")), [])])]
  {
    ExampleHeadingFacts();
    ExampleSectionFacts();
    TwoSectionsNest(ExampleBody(), ExampleHeader(), ExampleMain(), ExampleH1(), ExampleH2(), Some("BANNER"), Some("MAIN"));
  }

  /** Two sibling sections, each holding one heading: the second heading goes
      under the first when its level is higher, whatever the sections' labels. */
  lemma TwoSectionsNest(body: Node, s1: Node, s2: Node, h1: Node, h2: Node, l1: Option<string>, l2: Option<string>)
    requires body.children == [s1, s2] && HeadingLevel(body).None? && LandmarkRole(body).None?
    requires s1.children == [h1] && HeadingLevel(s1).None? && ContextLabel(s1, None) == l1
    requires s2.children == [h2] && HeadingLevel(s2).None? && ContextLabel(s2, None) == l2
    requires h1.children == [] && h1.axName.None? && LandmarkRole(h1).None? && HeadingLevel(h1) == Some(1)
    requires h2.children == [] && h2.axName.None? && LandmarkRole(h2).None? && HeadingLevel(h2) == Some(2)
    ensures Forest(HeadingsFlat(body, None))
            == [HeadingNode(Heading(1, h1.childrenText, h1, l1), [HeadingNode(Heading(2, h2.childrenText, h2, l2), [])])]
  {
    var a := Heading(1, h1.childrenText, h1, l1);
    var b := Heading(2, h2.childrenText, h2, l2);
    LeafHeading(h1, l1, 1);
    LeafHeading(h2, l2, 2);
    SingleChild(s1, h1, None, l1);
    SingleChild(s2, h2, None, l2);
    TwoChildren(body, s1, s2, None);
    assert HeadingsFlat(body, None) == [a, b];
    NestingIgnoresLandmarks(a, b);
  }

  function ExampleH1(): Node { Node(None, None, [], true, "h1", false, 1, "Site Title", []) }
  function ExampleH2(): Node { Node(None, None, [], true, "h2", false, 3, "Main Content", []) }
  function ExampleHeader(): Node { Node(None, None, [], true, "header", false, 2, "", [ExampleH1()]) }
  function ExampleMain(): Node { Node(None, None, [], true, "main", false, 4, "", [ExampleH2()]) }
  function ExampleBody(): Node { Node(None, None, [], true, "body", false, 5, "", [ExampleHeader(), ExampleMain()]) }

  lemma ExampleHeadingFacts()
    ensures LandmarkRole(ExampleH1()).None? && HeadingLevel(ExampleH1()) == Some(1)
    ensures LandmarkRole(ExampleH2()).None? && HeadingLevel(ExampleH2()) == Some(2)
  {
    assert Lower("h1") == "h1" && Lower("h2") == "h2";
  }

  lemma ExampleSectionFacts()
    ensures HeadingLevel(ExampleHeader()).None? && ContextLabel(ExampleHeader(), None) == Some("BANNER")
    ensures HeadingLevel(ExampleMain()).None? && ContextLabel(ExampleMain(), None) == Some("MAIN")
    ensures HeadingLevel(ExampleBody()).None? && LandmarkRole(ExampleBody()).None?
  {
    assert Lower("header") == "header" && Upper("banner") == "BANNER";
    assert Lower("main") == "main" && Upper("main") == "MAIN";
    assert Lower("body") == "body";
  }

  lemma LeafHeading(n: Node, context: Option<string>, level: int)
    requires n.children == [] && n.axName.None? && LandmarkRole(n).None? && HeadingLevel(n) == Some(level)
    ensures HeadingsFlat(n, context) == [Heading(level, n.childrenText, n, context)]
  {
  }

  lemma HeadingsFlatAllOne(c: Node, context: Option<string>)
    ensures HeadingsFlatAll([c], context) == HeadingsFlat(c, context)
  {
    assert [c][..0] == [];
  }

  lemma SingleChild(n: Node, child: Node, current: Option<string>, context: Option<string>)
    requires n.children == [child] && HeadingLevel(n).None? && ContextLabel(n, current) == context
    ensures HeadingsFlat(n, current) == HeadingsFlat(child, context)
  {
    HeadingsFlatAllOne(child, context);
  }

  lemma TwoChildren(n: Node, c1: Node, c2: Node, current: Option<string>)
    requires n.children == [c1, c2] && HeadingLevel(n).None? && LandmarkRole(n).None?
    ensures HeadingsFlat(n, current) == HeadingsFlat(c1, current) + HeadingsFlat(c2, current)
  {
    assert [c1, c2][..1] == [c1];
    HeadingsFlatAllOne(c1, current);
  }
}
