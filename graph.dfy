/**
 * The business-process configuration the parser fills in (BpConfig), kept
 * abstract: nodes live in an arena and refer to their children by index,
 * a name index says which node a name currently denotes, and the root
 * names are kept in the order they were added. The forward references
 * waiting for a definition (the parser's missingNodes) are kept here too.
 */
module Graph {
  import opened Outcomes
  import opened Header

  /** The operator of a process node: a symbol, or "at least `min` of". */
  datatype Operator = Op(symbol: char) | AtLeast(min: nat)

  /** What a node is: a process (BpNode) or one of the leaves. */
  datatype Kind =
    | Process(op: Operator)
    | HostLeaf(host: string)
    | ServiceLeaf(host: string, service: string)
    | ImportedLeaf(configName: string, nodeName: string)

  datatype Node = Node(
    name: string,
    kind: Kind,
    children: seq<nat>,
    alias: Option<string>,
    display: Option<int>,
    infoCommand: Option<string>,
    infoUrl: Option<string>,
    overrides: map<string, map<int, int>>)

  /** A node with no children and no display data. */
  function NewNode(name: string, kind: Kind): Node {
    Node(name, kind, [], None, None, None, None, map[])
  }

  datatype Config = Config(
    name: string,
    metadata: Metadata,
    nodes: seq<Node>,
    index: map<string, nat>,
    roots: seq<string>)

  function EmptyConfig(name: string, metadata: Metadata): Config {
    Config(name, metadata, [], map[], [])
  }

  /** Every child index points into the arena. */
  predicate ChildrenIn(nodes: seq<Node>) {
    forall i, k :: 0 <= i < |nodes| && 0 <= k < |nodes[i].children| ==> nodes[i].children[k] < |nodes|
  }

  /** Names and children point into the arena; every root is a defined name. */
  predicate Valid(c: Config) {
    && (forall n :: n in c.index ==> c.index[n] < |c.nodes|)
    && ChildrenIn(c.nodes)
    && (forall r :: r in c.roots ==> r in c.index)
  }

  /** BpConfig::hasNode. */
  predicate HasNode(c: Config, name: string) {
    name in c.index
  }

  /** Stores a new node at the end of the arena; its index is the old arena size. */
  function Append(c: Config, n: Node): (r: Config)
    requires forall k :: 0 <= k < |n.children| ==> n.children[k] <= |c.nodes|
    ensures r.nodes == c.nodes + [n] && r.index == c.index && r.roots == c.roots
    ensures Valid(c) ==> Valid(r)
  {
    c.(nodes := c.nodes + [n])
  }

  /** BpConfig::addNode: the name now denotes node `i`, replacing any earlier definition. */
  function AddNode(c: Config, name: string, i: nat): (r: Config)
    requires i < |c.nodes|
    ensures r.index.Keys == c.index.Keys + {name} && r.index[name] == i
    ensures forall n :: n in c.index && n != name ==> r.index[n] == c.index[n]
    ensures r.nodes == c.nodes && r.roots == c.roots
    ensures Valid(c) ==> Valid(r)
  {
    c.(index := c.index[name := i])
  }

  /** BpNode::addChild: node `p` gets child `ch` at the end of its children. */
  function Link(c: Config, p: nat, ch: nat): (r: Config)
    requires p < |c.nodes| && ch < |c.nodes|
    ensures |r.nodes| == |c.nodes| && r.index == c.index && r.roots == c.roots
    ensures r.nodes[p] == c.nodes[p].(children := c.nodes[p].children + [ch])
    ensures forall q :: 0 <= q < |c.nodes| && q != p ==> r.nodes[q] == c.nodes[q]
    ensures Valid(c) ==> Valid(r)
  {
    var n := c.nodes[p];
    c.(nodes := c.nodes[p := n.(children := n.children + [ch])])
  }

  /** Replaces node `i` by `n`, which has the same children. */
  function Update(c: Config, i: nat, n: Node): (r: Config)
    requires i < |c.nodes| && n.children == c.nodes[i].children
    ensures |r.nodes| == |c.nodes| && r.nodes[i] == n && r.index == c.index && r.roots == c.roots
    ensures forall q :: 0 <= q < |c.nodes| && q != i ==> r.nodes[q] == c.nodes[q]
    ensures Valid(c) ==> Valid(r)
  {
    c.(nodes := c.nodes[i := n])
  }

  /**
   * BpConfig::getBpNode: the node the name denotes, or else a new `&`
   * process of that name, registered under it.
   */
  function GetBpNode(c: Config, name: string): (r: (Config, nat))
    ensures r.1 < |r.0.nodes| && name in r.0.index && r.0.index[name] == r.1
    ensures Valid(c) && name in c.index ==> r.0 == c
    ensures name !in c.index ==>
      && r.1 == |c.nodes|
      && r.0.nodes == c.nodes + [NewNode(name, Process(Op('&')))]
      && r.0.index == c.index[name := r.1] && r.0.roots == c.roots
    ensures Valid(c) ==> Valid(r.0)
  {
    if name in c.index && c.index[name] < |c.nodes| then (c, c.index[name])
    else
      var i := |c.nodes|;
      (AddNode(Append(c, NewNode(name, Process(Op('&')))), name, i), i)
  }

  /** BpConfig::addRootNode: the name becomes a root, once. */
  function AddRoot(c: Config, name: string): (r: Config)
    ensures r.nodes == c.nodes && r.index == c.index
    ensures forall n :: n in r.roots <==> n in c.roots || n == name
    ensures name in c.roots ==> r.roots == c.roots
    ensures name !in c.roots ==> r.roots == c.roots + [name]
    ensures Valid(c) && name in c.index ==> Valid(r)
  {
    if name in c.roots then c else c.(roots := c.roots + [name])
  }

  /** A name referred to before its definition, and the nodes waiting for it, in order. */
  datatype Pending = Pending(name: string, parents: seq<nat>)

  function Names(ps: seq<Pending>): seq<string> {
    if ps == [] then [] else [ps[0].name] + Names(ps[1..])
  }

  /** The parents waiting for `name`, oldest first. */
  function Waiting(ps: seq<Pending>, name: string): seq<nat> {
    if ps == [] then [] else if ps[0].name == name then ps[0].parents else Waiting(ps[1..], name)
  }

  /** Every waiting parent points into an arena of `size` nodes. */
  predicate ParentsIn(ps: seq<Pending>, size: nat) {
    forall i, k :: 0 <= i < |ps| && 0 <= k < |ps[i].parents| ==> ps[i].parents[k] < size
  }

  /**
   * `missingNodes[name][] = parent`: the parent joins the end of the list
   * for that name; a new name is added after all names seen before.
   */
  function AddPending(ps: seq<Pending>, name: string, parent: nat): (r: seq<Pending>)
    ensures Waiting(r, name) == Waiting(ps, name) + [parent]
    ensures forall n :: n != name ==> Waiting(r, n) == Waiting(ps, n)
    ensures Names(r) == if name in Names(ps) then Names(ps) else Names(ps) + [name]
  {
    if ps == [] then [Pending(name, [parent])]
    else if ps[0].name == name then [ps[0].(parents := ps[0].parents + [parent])] + ps[1..]
    else [ps[0]] + AddPending(ps[1..], name, parent)
  }

  /** Adding a parent that points into the arena keeps every waiting parent in it. */
  lemma {:induction false} AddPendingParentsIn(ps: seq<Pending>, name: string, parent: nat, size: nat)
    requires ParentsIn(ps, size) && parent < size
    ensures ParentsIn(AddPending(ps, name, parent), size)
  {
    if ps != [] && ps[0].name != name {
      AddPendingParentsIn(ps[1..], name, parent, size);
      var r := AddPending(ps, name, parent);
      assert r == [ps[0]] + AddPending(ps[1..], name, parent);
    }
  }
}
