/**
 * The filtered DOM tree that the outline analysis runs over (a `SimplifiedNode`
 * together with the facts of its underlying DOM node and accessibility record
 * that the analysis reads), and a reference pre-order walk of that tree which
 * the analyses are specified against.
 */
module SimplifiedTree {
  import opened Wrappers

  /** One property of a node's accessibility record. `intValue` is the value
      converted with `int(...)`: None when the value is missing or does not
      convert. */
  datatype AxProperty = AxProperty(name: string, intValue: Option<int>)

  /** A node of the simplified tree. `axRole` and `axName` are None when the
      node has no accessibility record or the record has no such entry;
      `childrenText` is the node's collected descendant text. */
  datatype Node = Node(
    axRole: Option<string>,
    axName: Option<string>,
    axProperties: seq<AxProperty>,
    isElement: bool,
    tagName: string,
    isInteractive: bool,
    backendNodeId: int,
    childrenText: string,
    children: seq<Node>)

  function LowerChar(c: char): char {
    if 'A' <= c <= 'Z' then (c as int + 32) as char else c
  }

  function UpperChar(c: char): char {
    if 'a' <= c <= 'z' then (c as int - 32) as char else c
  }

  /** ASCII lower-casing of a string. */
  function Lower(s: string): string {
    seq(|s|, i requires 0 <= i < |s| => LowerChar(s[i]))
  }

  /** ASCII upper-casing of a string. */
  function Upper(s: string): string {
    seq(|s|, i requires 0 <= i < |s| => UpperChar(s[i]))
  }

  /** The accessibility role, lower-cased, when the node has a non-empty one. */
  function AxRole(n: Node): Option<string> {
    if n.axRole.Some? && n.axRole.value != "" then Some(Lower(n.axRole.value)) else None
  }

  /** One step of a pre-order walk: a node and the path of nodes from the
      walk's root down to (not including) it. */
  datatype Visit = Visit(node: Node, ancestors: seq<Node>)

  /** Every node of the subtree at `n`, in document (pre-)order, each with its
      ancestors; `ancestors` are those of `n` itself. */
  function Walk(n: Node, ancestors: seq<Node>): seq<Visit>
    decreases n
  {
    [Visit(n, ancestors)] + WalkAll(n.children, ancestors + [n])
  }

  /** The walks of sibling subtrees, one after another. */
  function WalkAll(ns: seq<Node>, ancestors: seq<Node>): seq<Visit>
    decreases ns
  {
    if ns == [] then [] else WalkAll(ns[..|ns| - 1], ancestors) + Walk(ns[|ns| - 1], ancestors)
  }
}
