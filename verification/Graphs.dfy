/** The graph and the FunctionDef, as values. */
module Graphs {
  import opened Text

  datatype Option<+T> = None | Some(value: T)

  datatype DataType = DataType(id: nat, isRef: bool)

  /** One output argument of an op, with the types of the tensors it stands for. */
  datatype OutputArg = OutputArg(name: string, types: seq<DataType>)

  /** An op definition together with the attributes that fix its arity. */
  datatype Op = Op(kind: string, attrs: map<string, string>, numInputs: nat, outputs: seq<OutputArg>, stateful: bool)

  /** Output `index` of node `node`. */
  datatype Tensor = Tensor(node: nat, index: nat)

  datatype Edge = DataEdge(src: Tensor, dstInput: nat) | ControlEdge(srcNode: nat)

  /** A parsed entry of `requested_inputs()`. */
  datatype TensorId = DataId(name: string, index: nat) | ControlId(name: string)

  datatype Node = Node(
    name: string,
    op: Op,
    device: string,
    assignedDevice: string,
    inEdges: seq<Edge>,
    requested: seq<TensorId>)

  /** Nodes by id; ids of removed nodes are missing from the map. */
  datatype Graph = Graph(numIds: nat, nodes: map<nat, Node>)

  datatype ArgDef = ArgDef(name: string, dtype: DataType)

  /** In `input`, data inputs come first and control inputs, marked '^', follow. */
  datatype NodeDef = NodeDef(name: string, op: Op, device: string, input: seq<string>)

  datatype FunctionDef = FunctionDef(
    inputArgs: seq<ArgDef>,
    outputArgs: seq<ArgDef>,
    nodes: seq<NodeDef>,
    ret: map<string, string>,
    isStateful: bool)

  const SOURCE_ID: nat := 0
  const FIRST_OP_ID: nat := 2

  /** The first output index of the j-th output argument (`NameRangesForNode`). */
  function Start(outs: seq<OutputArg>, j: nat): nat
    requires j <= |outs|
  {
    if j == 0 then 0 else Start(outs, j - 1) + |outs[j - 1].types|
  }

  function NumOutputs(op: Op): nat {
    Start(op.outputs, |op.outputs|)
  }

  ghost predicate At(outs: seq<OutputArg>, index: nat, j: nat, p: nat) {
    j < |outs| && p < |outs[j].types| && index == Start(outs, j) + p
  }

  lemma {:induction false} StartMonotone(outs: seq<OutputArg>, i: nat, j: nat)
    requires i <= j <= |outs|
    ensures Start(outs, i) <= Start(outs, j)
    decreases j
  {
    if i < j {
      StartMonotone(outs, i, j - 1);
    }
  }

  /** The argument ranges partition the output indices. */
  lemma AtUnique(outs: seq<OutputArg>, index: nat, j: nat, p: nat, j': nat, p': nat)
    requires At(outs, index, j, p) && At(outs, index, j', p')
    ensures j == j' && p == p'
  {
    if j < j' {
      StartMonotone(outs, j + 1, j');
    } else if j' < j {
      StartMonotone(outs, j' + 1, j);
    }
  }

  /** The argument that output `index` belongs to and its position in it. */
  function FindArg(outs: seq<OutputArg>, index: nat, n: nat): (r: (nat, nat))
    requires n <= |outs| && index < Start(outs, n)
    ensures At(outs, index, r.0, r.1)
  {
    if Start(outs, n - 1) <= index then (n - 1, index - Start(outs, n - 1)) else FindArg(outs, index, n - 1)
  }

  function OutputType(op: Op, index: nat): DataType
    requires index < NumOutputs(op)
  {
    var (j, p) := FindArg(op.outputs, index, |op.outputs|);
    op.outputs[j].types[p]
  }

  /** Output arguments follow each other without gaps, and tensor `p` of the j-th one has
      the p-th type listed for it. */
  lemma OutputTypeAt(op: Op, j: nat, p: nat)
    requires j < |op.outputs| && p < |op.outputs[j].types|
    ensures Start(op.outputs, 0) == 0 && Start(op.outputs, j + 1) == Start(op.outputs, j) + |op.outputs[j].types|
    ensures Start(op.outputs, j) + p < NumOutputs(op)
    ensures OutputType(op, Start(op.outputs, j) + p) == op.outputs[j].types[p]
  {
    StartMonotone(op.outputs, j + 1, |op.outputs|);
    var index := Start(op.outputs, j) + p;
    var (j', p') := FindArg(op.outputs, index, |op.outputs|);
    AtUnique(op.outputs, index, j, p, j', p');
  }

  ghost predicate ValidOp(op: Op) {
    && (forall j :: 0 <= j < |op.outputs| ==> ':' !in op.outputs[j].name)
    && (forall i, j :: 0 <= i < j < |op.outputs| ==> op.outputs[i].name != op.outputs[j].name)
  }

  predicate ValidTensor(g: Graph, t: Tensor) {
    t.node in g.nodes && t.index < NumOutputs(g.nodes[t.node].op)
  }

  ghost predicate ValidNode(g: Graph, n: Node) {
    && n.name != "" && n.name[0] != '^' && ':' !in n.name && ValidOp(n.op)
    && forall e :: e in n.inEdges ==>
                     match e
                     case DataEdge(src, dst) => ValidTensor(g, src) && dst < n.op.numInputs
                     case ControlEdge(src) => src in g.nodes
  }

  /** What the graph library guarantees of every graph: unique, well-formed node names,
      edges between existing outputs and inputs. */
  ghost predicate WellFormed(g: Graph) {
    && (forall id :: id in g.nodes ==> id < g.numIds && ValidNode(g, g.nodes[id]))
    && (forall a, b :: a in g.nodes && b in g.nodes && g.nodes[a].name == g.nodes[b].name ==> a == b)
  }

  /** The data edge into input `i`; edges from the Source node are skipped. */
  function EdgeInto(edges: seq<Edge>, i: nat): (r: Option<Tensor>)
  {
    if edges == [] then None
    else
      var e := edges[|edges| - 1];
      if e.DataEdge? && e.src.node != SOURCE_ID && e.dstInput == i then Some(e.src)
      else EdgeInto(edges[..|edges| - 1], i)
  }

  /** Position `p` holds a data edge into input `i`, from a node other than the Source. */
  ghost predicate Feeds(edges: seq<Edge>, p: int, i: nat) {
    0 <= p < |edges| && edges[p].DataEdge? && edges[p].dstInput == i && edges[p].src.node != SOURCE_ID
  }

  /** `r` is the source of the last data edge into input `i`, or None if there is no such
      edge. */
  ghost predicate LastFeed(edges: seq<Edge>, i: nat, r: Option<Tensor>) {
    match r
    case None => forall p :: !Feeds(edges, p, i)
    case Some(t) => exists p :: Feeds(edges, p, i) && edges[p].src == t && forall q :: Feeds(edges, q, i) ==> q <= p
  }

  lemma LastFeedUnique(edges: seq<Edge>, i: nat, r: Option<Tensor>, r': Option<Tensor>)
    requires LastFeed(edges, i, r) && LastFeed(edges, i, r')
    ensures r == r'
  {
  }

  lemma {:induction false} EdgeIntoExactly(edges: seq<Edge>, i: nat)
    ensures LastFeed(edges, i, EdgeInto(edges, i))
  {
    if edges != [] {
      var n := |edges| - 1;
      var front, r := edges[..n], EdgeInto(edges, i);
      EdgeIntoExactly(front, i);
      assert forall p :: p != n ==> (Feeds(edges, p, i) <==> Feeds(front, p, i));
      if Feeds(edges, n, i) {
        assert edges[n].src == r.value;
      } else if r.Some? {
        var p :| Feeds(front, p, i) && front[p].src == r.value && forall q :: Feeds(front, q, i) ==> q <= p;
        assert Feeds(edges, p, i) && edges[p].src == r.value;
      }
    }
  }

  /** The sources of the control edges, in edge order; the Source node is skipped. */
  function ControlSources(edges: seq<Edge>): (r: seq<nat>)
  {
    if edges == [] then []
    else
      var e := edges[|edges| - 1];
      ControlSources(edges[..|edges| - 1]) + if e.ControlEdge? && e.srcNode != SOURCE_ID then [e.srcNode] else []
  }

  /** Position `p` holds a control edge from a node other than the Source. */
  ghost predicate Controls(edges: seq<Edge>, p: int) {
    0 <= p < |edges| && edges[p].ControlEdge? && edges[p].srcNode != SOURCE_ID
  }

  /** `pos` lists all positions of control edges in ascending order, and `r` their sources. */
  ghost predicate ListsControls(edges: seq<Edge>, pos: seq<int>, r: seq<nat>) {
    && (forall p :: p in pos <==> Controls(edges, p)) && (forall k, l :: 0 <= k < l < |pos| ==> pos[k] < pos[l])
    && |r| == |pos| && (forall k :: 0 <= k < |pos| ==> Controls(edges, pos[k]) && r[k] == edges[pos[k]].srcNode)
  }

  lemma ListsControlsSnoc(edges: seq<Edge>, e: Edge, pos: seq<int>, r: seq<nat>)
    requires ListsControls(edges, pos, r)
    ensures var more := e.ControlEdge? && e.srcNode != SOURCE_ID;
            more ==> ListsControls(edges + [e], pos + [|edges|], r + [e.srcNode])
    ensures var more := e.ControlEdge? && e.srcNode != SOURCE_ID;
            !more ==> ListsControls(edges + [e], pos, r)
  {
    var n := |edges|;
    assert forall p :: Controls(edges + [e], p) <==> Controls(edges, p) || (p == n && Controls(edges + [e], n));
    assert forall k :: 0 <= k < |pos| ==> (edges + [e])[pos[k]] == edges[pos[k]] && pos[k] < n;
    assert forall p :: p in pos + [n] <==> p in pos || p == n;
  }

  lemma {:induction false} ControlSourcesExactly(edges: seq<Edge>) returns (pos: seq<int>)
    ensures ListsControls(edges, pos, ControlSources(edges))
  {
    if edges == [] {
      pos := [];
    } else {
      var n := |edges| - 1;
      var front, e, r := edges[..n], edges[n], ControlSources(edges);
      var before := ControlSourcesExactly(front);
      assert edges == front + [e] && r == ControlSources(front) + r[|ControlSources(front)|..];
      hide ListsControls;
      ListsControlsSnoc(front, e, before, ControlSources(front));
      pos := if e.ControlEdge? && e.srcNode != SOURCE_ID then before + [n] else before;
    }
  }

  ghost predicate IsNamed(g: Graph, id: nat, name: string) {
    id in g.nodes && g.nodes[id].name == name
  }

  /** The tensor that input `i` of `n` reads: an edge, or for a back edge that exists
      only in the NodeDef, the requested tensor. */
  ghost function InputOf(g: Graph, n: Node, i: nat): Option<Tensor> {
    match EdgeInto(n.inEdges, i)
    case Some(t) => Some(t)
    case None =>
      if i < |n.requested| && n.requested[i].DataId? && exists id :: IsNamed(g, id, n.requested[i].name) then
        var id :| IsNamed(g, id, n.requested[i].name);
        Some(Tensor(id, n.requested[i].index))
      else None
  }

  /** The requested input `i` names tensor `t`. */
  ghost predicate Requests(g: Graph, n: Node, i: nat, t: Tensor) {
    && i < |n.requested| && n.requested[i].DataId?
    && n.requested[i].index == t.index && IsNamed(g, t.node, n.requested[i].name)
  }

  /** Input `i` reads the source of the last edge into it and, only if there is no edge,
      the tensor requested there. */
  lemma InputOfExactly(g: Graph, n: Node, i: nat, t: Tensor)
    requires WellFormed(g)
    ensures InputOf(g, n, i) == Some(t) <==>
            LastFeed(n.inEdges, i, Some(t)) || (LastFeed(n.inEdges, i, None) && Requests(g, n, i, t))
  {
    hide EdgeInto;
    var r := EdgeInto(n.inEdges, i);
    EdgeIntoExactly(n.inEdges, i);
    if LastFeed(n.inEdges, i, Some(t)) {
      LastFeedUnique(n.inEdges, i, r, Some(t));
    }
    if LastFeed(n.inEdges, i, None) {
      LastFeedUnique(n.inEdges, i, r, None);
    }
  }

  /** The first position of `x`. */
  ghost function IndexOf<T>(s: seq<T>, x: T): (i: nat)
    requires x in s
    ensures i < |s| && s[i] == x && forall j :: 0 <= j < i ==> s[j] != x
  {
    var front := s[..|s| - 1];
    if x in front then IndexOf(front, x) else |s| - 1
  }

  /** The last position of `x`. */
  ghost function LastIndexOf<T>(s: seq<T>, x: T): (i: nat)
    requires x in s
    ensures i < |s| && s[i] == x && forall j :: i < j < |s| ==> s[j] != x
  {
    if s[|s| - 1] == x then |s| - 1 else LastIndexOf(s[..|s| - 1], x)
  }

  ghost predicate Distinct<T>(s: seq<T>) {
    forall i, j :: 0 <= i < j < |s| ==> s[i] != s[j]
  }
}
