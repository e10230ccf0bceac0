/** What a FunctionDef made from a subgraph must look like: the relation between the
    graph, the chosen inputs, outputs and body, and the emitted definition. */
module FunctionSpec {
  import opened Graphs
  import opened Text

  /** A tensor the function can read: one of its inputs or an output of a body node. */
  ghost predicate Available(g: Graph, inputs: seq<Tensor>, body: seq<nat>, t: Tensor) {
    ValidTensor(g, t) && (t in inputs || t.node in body)
  }

  /** A node that may be the source of a control edge into the body. */
  ghost predicate Controllable(inputs: seq<Tensor>, body: seq<nat>, id: nat) {
    id in body || exists i :: 0 <= i < |inputs| && inputs[i].node == id
  }

  ghost function OutName(op: Op, nodeName: string, index: nat): string
    requires index < NumOutputs(op)
  {
    var (j, p) := FindArg(op.outputs, index, |op.outputs|);
    NestedName(nodeName, op.outputs[j].name, p)
  }

  /** The name of tensor `t` inside the function. An input wins over the node that
      computes the same tensor, and of several names for one node the first counts. */
  ghost function Renamed(g: Graph, inputs: seq<Tensor>, body: seq<nat>,
                         argNames: seq<string>, nodeNames: seq<string>, t: Tensor): string
    requires |argNames| == |inputs| && |nodeNames| == |body|
    requires Available(g, inputs, body, t)
  {
    if t in inputs then argNames[IndexOf(inputs, t)]
    else OutName(g.nodes[t.node].op, nodeNames[IndexOf(body, t.node)], t.index)
  }

  /** The last listed input that is an output of node `id`. */
  ghost function LastFrom(inputs: seq<Tensor>, id: nat): (r: nat)
    requires exists i :: 0 <= i < |inputs| && inputs[i].node == id
    ensures r < |inputs| && inputs[r].node == id
  {
    if inputs[|inputs| - 1].node == id then |inputs| - 1 else LastFrom(inputs[..|inputs| - 1], id)
  }

  ghost function ControlName(inputs: seq<Tensor>, body: seq<nat>,
                             argNames: seq<string>, nodeNames: seq<string>, id: nat): string
    requires |argNames| == |inputs| && |nodeNames| == |body|
    requires Controllable(inputs, body, id)
  {
    if id in body then nodeNames[LastIndexOf(body, id)] else argNames[LastFrom(inputs, id)]
  }

  /** Every input of the node is available in the function. */
  ghost predicate InputsAvailable(g: Graph, inputs: seq<Tensor>, body: seq<nat>, n: Node) {
    && (forall i :: 0 <= i < n.op.numInputs ==>
                      InputOf(g, n, i).Some? && Available(g, inputs, body, InputOf(g, n, i).value))
    && (forall c :: 0 <= c < |ControlSources(n.inEdges)| ==>
                      Controllable(inputs, body, ControlSources(n.inEdges)[c]))
  }

  /** `d` is node `n`, renamed, with its inputs rewritten. */
  ghost predicate Emitted(g: Graph, inputs: seq<Tensor>, body: seq<nat>,
                          argNames: seq<string>, nodeNames: seq<string>, n: Node, nodeName: string, d: NodeDef)
    requires |argNames| == |inputs| && |nodeNames| == |body|
  {
    var controls := ControlSources(n.inEdges);
    && InputsAvailable(g, inputs, body, n)
    && d.name == nodeName && d.op == n.op
    && d.device == (if n.assignedDevice != "" then n.assignedDevice else n.device)
    && |d.input| == n.op.numInputs + |controls|
    && (forall i :: 0 <= i < n.op.numInputs ==>
                      d.input[i] == Renamed(g, inputs, body, argNames, nodeNames, InputOf(g, n, i).value))
    && (forall c :: 0 <= c < |controls| ==>
                      d.input[n.op.numInputs + c] ==
                      "^" + ControlName(inputs, body, argNames, nodeNames, controls[c]))
  }

  ghost function ArgNames(args: seq<ArgDef>): (r: seq<string>)
    ensures |r| == |args| && forall i :: 0 <= i < |r| ==> r[i] == args[i].name
  {
    seq(|args|, i requires 0 <= i < |args| => args[i].name)
  }

  ghost function DefNames(defs: seq<NodeDef>): (r: seq<string>)
    ensures |r| == |defs| && forall i :: 0 <= i < |r| ==> r[i] == defs[i].name
  {
    seq(|defs|, i requires 0 <= i < |defs| => defs[i].name)
  }

  /** Input argument and node names are pairwise different and free of colons. */
  ghost predicate SeparateNames(argNames: seq<string>, nodeNames: seq<string>) {
    && Distinct(argNames) && Distinct(nodeNames)
    && (forall i, k :: 0 <= i < |argNames| && 0 <= k < |nodeNames| ==> argNames[i] != nodeNames[k])
    && (forall i :: 0 <= i < |argNames| ==> IsArgName(argNames[i]))
    && (forall k :: 0 <= k < |nodeNames| ==> nodeNames[k] != "" && ':' !in nodeNames[k])
  }

  ghost predicate ArgsOf(g: Graph, tensors: seq<Tensor>, args: seq<ArgDef>) {
    && |args| == |tensors|
    && forall i :: 0 <= i < |args| ==>
                     ValidTensor(g, tensors[i]) &&
                     args[i].dtype == OutputType(g.nodes[tensors[i].node].op, tensors[i].index)
  }

  /** `f` is the function with these inputs, outputs and body nodes, where `nodeNames` are
      the names chosen for the entries of the body. A node listed twice is chosen two
      names and is emitted under the last, while its outputs go by the first. */
  ghost predicate TranslatesAs(g: Graph, inputs: seq<Tensor>, outputs: seq<Tensor>, body: seq<nat>, f: FunctionDef,
                               nodeNames: seq<string>)
  {
    var argNames, outNames := ArgNames(f.inputArgs), ArgNames(f.outputArgs);
    && ArgsOf(g, inputs, f.inputArgs) && ArgsOf(g, outputs, f.outputArgs)
    && |nodeNames| == |f.nodes| == |body|
    && SeparateNames(argNames, nodeNames) && Distinct(outNames)
    && (forall k :: 0 <= k < |body| ==>
                      body[k] in g.nodes &&
                      Emitted(g, inputs, body, argNames, nodeNames, g.nodes[body[k]],
                              nodeNames[LastIndexOf(body, body[k])], f.nodes[k]))
    && f.ret.Keys == (set i | 0 <= i < |outNames| :: outNames[i])
    && (forall r :: 0 <= r < |outputs| ==>
                      && Available(g, inputs, body, outputs[r])
                      && f.ret[outNames[r]] == Renamed(g, inputs, body, argNames, nodeNames, outputs[r]))
    && f.isStateful == (exists k :: 0 <= k < |body| && g.nodes[body[k]].op.stateful)
  }

  /** The same with the names of the emitted nodes. */
  ghost predicate Translates(g: Graph, inputs: seq<Tensor>, outputs: seq<Tensor>, body: seq<nat>, f: FunctionDef) {
    TranslatesAs(g, inputs, outputs, body, f, DefNames(f.nodes))
  }

  /** Without repetitions the chosen names are the names of the emitted nodes; with them
      names of emitted nodes repeat. */
  lemma EmittedNames(g: Graph, inputs: seq<Tensor>, outputs: seq<Tensor>, body: seq<nat>, f: FunctionDef,
                     nodeNames: seq<string>)
    requires TranslatesAs(g, inputs, outputs, body, f, nodeNames)
    ensures Distinct(body) ==> DefNames(f.nodes) == nodeNames && Translates(g, inputs, outputs, body, f)
    ensures Distinct(DefNames(f.nodes)) <==> Distinct(body)
  {
    hide Renamed, ControlName, InputsAvailable;
    forall k | 0 <= k < |body| ensures DefNames(f.nodes)[k] == nodeNames[LastIndexOf(body, body[k])] {
      assert Emitted(g, inputs, body, ArgNames(f.inputArgs), nodeNames, g.nodes[body[k]],
                     nodeNames[LastIndexOf(body, body[k])], f.nodes[k]);
    }
    hide TranslatesAs, Emitted;
    if Distinct(body) {
      assert forall k :: 0 <= k < |body| ==> LastIndexOf(body, body[k]) == k;
      assert DefNames(f.nodes) == nodeNames;
      NamesAreDistinct(g, inputs, outputs, body, f, nodeNames);
    } else {
      var i, j :| 0 <= i < j < |body| && body[i] == body[j];
      assert DefNames(f.nodes)[i] == DefNames(f.nodes)[j];
    }
  }

  lemma NamesAreDistinct(g: Graph, inputs: seq<Tensor>, outputs: seq<Tensor>, body: seq<nat>, f: FunctionDef,
                         nodeNames: seq<string>)
    requires TranslatesAs(g, inputs, outputs, body, f, nodeNames)
    ensures |nodeNames| == |f.nodes| == |body| && Distinct(nodeNames)
  {
  }
}
