/** Meaning preservation: a FunctionDef evaluated by name computes what the graph
    computes when the listed input tensors are replaced by the arguments. */
module FunctionMeaning {
  import opened Graphs
  import opened Text
  import opened FunctionSpec

  /** What a kernel computes; an uninterpreted function of the op and its input values. */
  type Kernels<!V> = (Op, seq<V>) -> seq<V>

  /** Runs one kernel, undefined while an input is undefined. */
  ghost function Apply<V>(sem: Kernels<V>, op: Op, vs: seq<Option<V>>, index: nat): Option<V> {
    if forall i :: 0 <= i < |vs| ==> vs[i].Some? then
      var out := sem(op, seq(|vs|, i requires 0 <= i < |vs| => vs[i].value));
      if index < |out| then Some(out[index]) else None
    else None
  }

  /** Tensor `t` of the graph, with `inputs` overridden by `args`, unfolding at most
      `depth` nodes deep. The whole graph is available, not only the body. */
  ghost function GraphValue<V>(g: Graph, sem: Kernels<V>, inputs: seq<Tensor>, args: seq<V>, t: Tensor,
                               depth: nat): Option<V>
    requires |args| == |inputs|
    decreases depth, 0
  {
    if t in inputs then Some(args[IndexOf(inputs, t)])
    else if depth == 0 || t.node !in g.nodes then None
    else
      var n := g.nodes[t.node];
      Apply(sem, n.op, seq(n.op.numInputs, i requires 0 <= i < n.op.numInputs => GraphInput(g, sem, inputs, args, n, i,
                depth - 1)), t.index)
  }

  ghost function GraphInput<V>(g: Graph, sem: Kernels<V>, inputs: seq<Tensor>, args: seq<V>, n: Node, i: nat,
                               depth: nat): Option<V>
    requires |args| == |inputs|
    decreases depth, 1
  {
    match InputOf(g, n, i)
    case Some(t) => GraphValue(g, sem, inputs, args, t, depth)
    case None => None
  }

  /** What a tensor name in a FunctionDef can stand for. */
  datatype Source = FromArg(arg: nat) | FromNode(node: nat, index: nat)

  /** The entries of the name index that instantiation builds: `arg` and `arg:0` for an
      input argument; `node` for a node without outputs; `node:out` for every output
      argument of a node and `node:out:p` for every tensor of it. */
  datatype Item = ArgBase(arg: nat) | ArgFlat(arg: nat) | NodePlain(node: nat) | OutBase(node: nat, out: nat)
      | OutFlat(node: nat, out: nat, pos: nat)

  predicate IsItem(f: FunctionDef, item: Item) {
    match item
    case ArgBase(i) => i < |f.inputArgs|
    case ArgFlat(i) => i < |f.inputArgs|
    case NodePlain(k) => k < |f.nodes| && f.nodes[k].op.outputs == []
    case OutBase(k, j) => k < |f.nodes| && j < |f.nodes[k].op.outputs|
    case OutFlat(k, j, p) => k < |f.nodes| && j < |f.nodes[k].op.outputs| && p < |f.nodes[k].op.outputs[j].types|
  }

  /** The argument or node an entry belongs to, by name. */
  function Owner(f: FunctionDef, item: Item): string
    requires IsItem(f, item)
  {
    if item.ArgBase? || item.ArgFlat? then f.inputArgs[item.arg].name else f.nodes[item.node].name
  }

  function Tail(f: FunctionDef, item: Item): string
    requires IsItem(f, item)
  {
    match item
    case ArgBase(_) => ""
    case ArgFlat(_) => ":" + Decimal(0)
    case NodePlain(_) => ""
    case OutBase(k, j) => ":" + f.nodes[k].op.outputs[j].name
    case OutFlat(k, j, p) => ":" + (f.nodes[k].op.outputs[j].name + ":" + Decimal(p))
  }

  /** The entry is indexed under `s`. */
  ghost predicate Inserts(f: FunctionDef, item: Item, s: string) {
    IsItem(f, item) && s == Owner(f, item) + Tail(f, item)
  }

  /** The one tensor an entry stands for; lists of other lengths have none. */
  function TensorOf(f: FunctionDef, item: Item): Option<Source>
    requires IsItem(f, item)
  {
    match item
    case ArgBase(i) => Some(FromArg(i))
    case ArgFlat(i) => Some(FromArg(i))
    case NodePlain(_) => None
    case OutBase(k, j) =>
      if |f.nodes[k].op.outputs[j].types| == 1 then Some(FromNode(k, Start(f.nodes[k].op.outputs, j))) else None
    case OutFlat(k, j, p) => Some(FromNode(k, Start(f.nodes[k].op.outputs, j) + p))
  }

  ghost predicate Names(f: FunctionDef, s: string, src: Source) {
    exists item :: Inserts(f, item, s) && TensorOf(f, item) == Some(src)
  }

  ghost function Resolve(f: FunctionDef, s: string): (r: Option<Source>)
    ensures r.Some? ==> Names(f, s, r.value)
    ensures r.None? ==> forall src :: !Names(f, s, src)
  {
    if exists src :: Names(f, s, src) then
      var src :| Names(f, s, src);
      Some(src)
    else None
  }

  /** The tensor named `s` of a function called with `args`. */
  ghost function FunctionValue<V>(f: FunctionDef, sem: Kernels<V>, args: seq<V>, s: string, depth: nat): Option<V>
    requires |args| == |f.inputArgs|
    decreases depth, 0
  {
    match Resolve(f, s)
    case None => None
    case Some(FromArg(i)) => Some(args[i])
    case Some(FromNode(k, index)) =>
      if depth == 0 then None
      else
        var d := f.nodes[k];
        Apply(sem, d.op, seq(d.op.numInputs, i requires 0 <= i < d.op.numInputs => FunctionInput(f, sem, args, d, i,
                  depth - 1)), index)
  }

  ghost function FunctionInput<V>(f: FunctionDef, sem: Kernels<V>, args: seq<V>, d: NodeDef, i: nat,
                                  depth: nat): Option<V>
    requires |args| == |f.inputArgs|
    decreases depth, 1
  {
    if i < |d.input| then FunctionValue(f, sem, args, d.input[i], depth) else None
  }

  /** The value the function returns for its r-th output argument. */
  ghost function ReturnValue<V>(f: FunctionDef, sem: Kernels<V>, args: seq<V>, r: nat, depth: nat): Option<V>
    requires |args| == |f.inputArgs| && r < |f.outputArgs|
  {
    if f.outputArgs[r].name in f.ret then FunctionValue(f, sem, args, f.ret[f.outputArgs[r].name], depth) else None
  }

  // ---- Names are unambiguous ----

  lemma ArgNameHasNoColon(s: string)
    requires IsArgName(s)
    ensures ':' !in s
  {
  }

  ghost predicate PlainNames(f: FunctionDef) {
    && SeparateNames(ArgNames(f.inputArgs), DefNames(f.nodes))
    && forall k :: 0 <= k < |f.nodes| ==> ValidOp(f.nodes[k].op)
  }

  lemma OwnerIsPlain(f: FunctionDef, item: Item)
    requires PlainNames(f) && IsItem(f, item)
    ensures ':' !in Owner(f, item) && (Tail(f, item) == "" || Tail(f, item)[0] == ':')
  {
    if item.ArgBase? || item.ArgFlat? {
      assert Owner(f, item) == ArgNames(f.inputArgs)[item.arg];
      ArgNameHasNoColon(Owner(f, item));
    } else {
      assert Owner(f, item) == DefNames(f.nodes)[item.node];
    }
  }

  /** Entries whose owners have one name belong to one argument or one node. */
  lemma SameOwner(f: FunctionDef, a: Item, b: Item)
    requires PlainNames(f) && IsItem(f, a) && IsItem(f, b) && Owner(f, a) == Owner(f, b)
    ensures (a.ArgBase? || a.ArgFlat?) == (b.ArgBase? || b.ArgFlat?)
    ensures if a.ArgBase? || a.ArgFlat? then a.arg == b.arg else a.node == b.node
  {
    var x := if a.ArgBase? || a.ArgFlat? then ArgNames(f.inputArgs)[a.arg] else DefNames(f.nodes)[a.node];
    var y := if b.ArgBase? || b.ArgFlat? then ArgNames(f.inputArgs)[b.arg] else DefNames(f.nodes)[b.node];
    assert x == Owner(f, a) && y == Owner(f, b);
  }

  lemma SameTail(f: FunctionDef, a: Item, b: Item)
    requires IsItem(f, a) && IsItem(f, b) && Tail(f, a) == Tail(f, b)
    requires !a.ArgBase? && !a.ArgFlat? && !b.ArgBase? && !b.ArgFlat? && a.node == b.node && ValidOp(f.nodes[a.node].op)
    ensures a == b
  {
    if a.NodePlain? || b.NodePlain? {
      return;
    }
    var outs := f.nodes[a.node].op.outputs;
    var o, o' := outs[a.out].name, outs[b.out].name;
    var x, y := Tail(f, a)[1..], Tail(f, b)[1..];
    assert x == if a.OutBase? then o else o + ":" + Decimal(a.pos);
    assert y == if b.OutBase? then o' else o' + ":" + Decimal(b.pos);
    assert (a.OutFlat? ==> x[|o|] == ':') && (a.OutBase? ==> ':' !in x);
    assert (b.OutFlat? ==> y[|o'|] == ':') && (b.OutBase? ==> ':' !in y);
    assert a.OutFlat? == b.OutFlat?;
    if a.OutFlat? {
      FlatNameInjective(o, a.pos, o', b.pos);
    }
  }

  /** No name is indexed twice: instantiating the function reports no duplicate. */
  lemma IndexedOnce(f: FunctionDef, s: string, a: Item, b: Item)
    requires PlainNames(f) && Inserts(f, a, s) && Inserts(f, b, s)
    ensures a == b
  {
    OwnerIsPlain(f, a);
    OwnerIsPlain(f, b);
    SplitAtFirstColon(Owner(f, a), Tail(f, a), Owner(f, b), Tail(f, b));
    SameOwner(f, a, b);
    if !a.ArgBase? && !a.ArgFlat? {
      SameTail(f, a, b);
    }
  }

  /** A name stands for one tensor at most. */
  lemma NamesUnambiguous(f: FunctionDef, s: string, a: Source, b: Source)
    requires PlainNames(f)
    requires Names(f, s, a) && Names(f, s, b)
    ensures a == b
  {
    var x :| Inserts(f, x, s) && TensorOf(f, x) == Some(a);
    var y :| Inserts(f, y, s) && TensorOf(f, y) == Some(b);
    IndexedOnce(f, s, x, y);
  }

  // ---- Meaning preservation ----

  /** The name given to a tensor resolves to that tensor. */
  lemma RenamedResolves(g: Graph, inputs: seq<Tensor>, outputs: seq<Tensor>, body: seq<nat>, f: FunctionDef, t: Tensor)
    requires WellFormed(g) && Distinct(inputs) && Distinct(body)
    requires Translates(g, inputs, outputs, body, f) && Available(g, inputs, body, t)
    ensures Resolve(f, Renamed(g, inputs, body, ArgNames(f.inputArgs), DefNames(f.nodes), t)) ==
            Some(if t in inputs then FromArg(IndexOf(inputs, t)) else FromNode(IndexOf(body, t.node), t.index))
    ensures PlainNames(f)
  {
    hide FlatName, NestedName, WellFormed, InputsAvailable, ControlName;
    EmittedOps(g, inputs, outputs, body, f, DefNames(f.nodes));
    var s := Renamed(g, inputs, body, ArgNames(f.inputArgs), DefNames(f.nodes), t);
    var src := if t in inputs then FromArg(IndexOf(inputs, t)) else FromNode(IndexOf(body, t.node), t.index);
    if t in inputs {
      assert Inserts(f, ArgBase(IndexOf(inputs, t)), s);
    } else {
      var _ := OutNameIsIndexed(f, g.nodes[t.node].op, IndexOf(body, t.node), t.index);
    }
    assert Names(f, s, src);
    NamesUnambiguous(f, s, src, Resolve(f, s).value);
  }

  lemma EmittedOps(g: Graph, inputs: seq<Tensor>, outputs: seq<Tensor>, body: seq<nat>, f: FunctionDef,
                   nodeNames: seq<string>)
    requires WellFormed(g) && TranslatesAs(g, inputs, outputs, body, f, nodeNames)
    ensures |f.inputArgs| == |inputs| && |nodeNames| == |f.nodes| == |body| &&
            SeparateNames(ArgNames(f.inputArgs), nodeNames)
    ensures forall k :: 0 <= k < |body| ==>
              && body[k] in g.nodes && f.nodes[k].op == g.nodes[body[k]].op && ValidOp(f.nodes[k].op)
              && f.nodes[k].name == nodeNames[LastIndexOf(body, body[k])]
  {
    forall k | 0 <= k < |body|
      ensures f.nodes[k].op == g.nodes[body[k]].op && ValidOp(f.nodes[k].op) &&
              f.nodes[k].name == nodeNames[LastIndexOf(body, body[k])]
    {
      assert Emitted(g, inputs, body, ArgNames(f.inputArgs), nodeNames, g.nodes[body[k]],
                     nodeNames[LastIndexOf(body, body[k])], f.nodes[k]);
      assert ValidNode(g, g.nodes[body[k]]);
    }
  }

  /** The entry for an output of an emitted node. */
  lemma OutNameIsIndexed(f: FunctionDef, op: Op, k: nat, index: nat) returns (item: Item)
    requires k < |f.nodes| && f.nodes[k].op == op && index < NumOutputs(op)
    ensures Inserts(f, item, OutName(op, f.nodes[k].name, index)) && TensorOf(f, item) == Some(FromNode(k, index))
  {
    var (j, p) := FindArg(op.outputs, index, |op.outputs|);
    item := OutFlat(k, j, p);
    var name, out, digits := f.nodes[k].name, op.outputs[j].name, Decimal(p);
    assert name + ":" + out + ":" + digits == name + (":" + (out + ":" + digits));
  }

  /** For every body, repetitions included, the name of an available tensor resolves if
      and only if the tensor is an input or its node is listed once. */
  lemma ResolvesExactly(g: Graph, inputs: seq<Tensor>, outputs: seq<Tensor>, body: seq<nat>, f: FunctionDef,
                        nodeNames: seq<string>, t: Tensor)
    requires WellFormed(g) && Distinct(inputs) && TranslatesAs(g, inputs, outputs, body, f, nodeNames)
    requires Available(g, inputs, body, t)
    ensures |nodeNames| == |body| && |f.inputArgs| == |inputs|
    ensures Resolve(f, Renamed(g, inputs, body, ArgNames(f.inputArgs), nodeNames, t)).Some? <==>
            t in inputs || IndexOf(body, t.node) == LastIndexOf(body, t.node)
  {
    EmittedOps(g, inputs, outputs, body, f, nodeNames);
    hide *;
    if t in inputs {
      InputResolves(g, inputs, body, f, nodeNames, t);
    } else {
      AvailableNode(g, inputs, body, t);
      var op, first := g.nodes[t.node].op, IndexOf(body, t.node);
      NodeNamedFirst(g, inputs, body, f, nodeNames, t);
      if first == LastIndexOf(body, t.node) {
        var item := OutNameIsIndexed(f, op, first, t.index);
        ItemResolves(f, item, OutName(op, nodeNames[first], t.index));
      } else {
        FirstNameResolvesNot(f, body, nodeNames, op, first, t.index);
      }
    }
  }

  lemma AvailableNode(g: Graph, inputs: seq<Tensor>, body: seq<nat>, t: Tensor)
    requires Available(g, inputs, body, t) && t !in inputs
    ensures t.node in body && t.node in g.nodes && t.index < NumOutputs(g.nodes[t.node].op)
  {
  }

  lemma NodeNamedFirst(g: Graph, inputs: seq<Tensor>, body: seq<nat>, f: FunctionDef, nodeNames: seq<string>, t: Tensor)
    requires Available(g, inputs, body, t) && t !in inputs && |f.inputArgs| == |inputs| && |nodeNames| == |body|
    ensures Renamed(g, inputs, body, ArgNames(f.inputArgs), nodeNames, t) ==
            OutName(g.nodes[t.node].op, nodeNames[IndexOf(body, t.node)], t.index)
  {
  }

  lemma ItemResolves(f: FunctionDef, item: Item, s: string)
    requires Inserts(f, item, s) && TensorOf(f, item).Some?
    ensures Resolve(f, s).Some?
  {
    assert Names(f, s, TensorOf(f, item).value);
  }

  lemma InputResolves(g: Graph, inputs: seq<Tensor>, body: seq<nat>, f: FunctionDef, nodeNames: seq<string>, t: Tensor)
    requires Available(g, inputs, body, t) && t in inputs && |f.inputArgs| == |inputs| && |nodeNames| == |body|
    ensures Resolve(f, Renamed(g, inputs, body, ArgNames(f.inputArgs), nodeNames, t)).Some?
  {
    var item := ArgBase(IndexOf(inputs, t));
    assert ArgNames(f.inputArgs)[item.arg] + "" == f.inputArgs[item.arg].name;
    ItemResolves(f, item, Renamed(g, inputs, body, ArgNames(f.inputArgs), nodeNames, t));
  }

  lemma FirstNameResolvesNot(f: FunctionDef, body: seq<nat>, nodeNames: seq<string>, op: Op, first: nat, index: nat)
    requires |nodeNames| == |f.nodes| == |body| && SeparateNames(ArgNames(f.inputArgs), nodeNames)
    requires forall k :: 0 <= k < |body| ==> f.nodes[k].name == nodeNames[LastIndexOf(body, body[k])]
    requires first < |body| && LastIndexOf(body, body[first]) != first && index < NumOutputs(op)
    ensures Resolve(f, OutName(op, nodeNames[first], index)).None?
  {
    hide OutName, LastIndexOf, SeparateNames;
    var s := OutName(op, nodeNames[first], index);
    if Resolve(f, s).Some? {
      var item :| Inserts(f, item, s) && TensorOf(f, item) == Some(Resolve(f, s).value);
      FirstNameIsUnused(f, body, nodeNames, op, first, index, item);
    }
  }

  /** Nothing is indexed under the first name of a node that was listed again. */
  lemma FirstNameIsUnused(f: FunctionDef, body: seq<nat>, nodeNames: seq<string>, op: Op, first: nat, index: nat,
                          item: Item)
    requires |nodeNames| == |f.nodes| == |body| && SeparateNames(ArgNames(f.inputArgs), nodeNames)
    requires forall k :: 0 <= k < |body| ==> f.nodes[k].name == nodeNames[LastIndexOf(body, body[k])]
    requires first < |body| && LastIndexOf(body, body[first]) != first && index < NumOutputs(op) && IsItem(f, item)
    ensures !Inserts(f, item, OutName(op, nodeNames[first], index))
  {
    hide OutName, LastIndexOf, SeparateNames;
    var name, owner := nodeNames[first], Owner(f, item);
    var rest := OutNameSplits(op, name, index);
    OwnerIsNot(f, body, nodeNames, first, item);
    if owner + Tail(f, item) == name + rest {
      SplitAtFirstColon(owner, Tail(f, item), name, rest);
    }
  }

  lemma OutNameSplits(op: Op, name: string, index: nat) returns (rest: string)
    requires index < NumOutputs(op)
    ensures OutName(op, name, index) == name + rest && rest != "" && rest[0] == ':'
  {
    var (j, p) := FindArg(op.outputs, index, |op.outputs|);
    var out, digits := op.outputs[j].name, Decimal(p);
    rest := ":" + (out + ":" + digits);
    assert name + ":" + out + ":" + digits == name + rest;
  }

  lemma OwnerIsNot(f: FunctionDef, body: seq<nat>, nodeNames: seq<string>, first: nat, item: Item)
    requires |nodeNames| == |f.nodes| == |body| && SeparateNames(ArgNames(f.inputArgs), nodeNames)
    requires forall k :: 0 <= k < |body| ==> f.nodes[k].name == nodeNames[LastIndexOf(body, body[k])]
    requires first < |body| && LastIndexOf(body, body[first]) != first && IsItem(f, item)
    ensures Owner(f, item) != nodeNames[first] && ':' !in Owner(f, item) && ':' !in nodeNames[first]
    ensures Tail(f, item) == "" || Tail(f, item)[0] == ':'
  {
    var owner := Owner(f, item);
    if item.ArgBase? || item.ArgFlat? {
      assert owner == ArgNames(f.inputArgs)[item.arg];
      ArgNameHasNoColon(owner);
    } else {
      assert owner == nodeNames[LastIndexOf(body, body[item.node])];
    }
  }

  /** Data input `i` of `d` is the new name of what `n` reads there, and that is available. */
  ghost predicate ReadsRenamed(g: Graph, inputs: seq<Tensor>, body: seq<nat>, f: FunctionDef, n: Node, d: NodeDef,
                               i: nat)
    requires |f.inputArgs| == |inputs| && |f.nodes| == |body|
  {
    && i < |d.input| && InputOf(g, n, i).Some? && Available(g, inputs, body, InputOf(g, n, i).value)
    && d.input[i] == Renamed(g, inputs, body, ArgNames(f.inputArgs), DefNames(f.nodes), InputOf(g, n, i).value)
  }

  lemma BodyNode(g: Graph, inputs: seq<Tensor>, outputs: seq<Tensor>, body: seq<nat>, f: FunctionDef, k: nat)
    requires Translates(g, inputs, outputs, body, f) && k < |body|
    requires |f.inputArgs| == |inputs| && |f.nodes| == |body|
    ensures body[k] in g.nodes && f.nodes[k].op == g.nodes[body[k]].op
    ensures forall i: nat :: i < g.nodes[body[k]].op.numInputs ==>
            ReadsRenamed(g, inputs, body, f, g.nodes[body[k]], f.nodes[k], i)
  {
    hide InputOf, Renamed, Available;
    var argNames, nodeNames := ArgNames(f.inputArgs), DefNames(f.nodes);
    assert Emitted(g, inputs, body, argNames, nodeNames, g.nodes[body[k]], nodeNames[LastIndexOf(body, body[k])],
                   f.nodes[k]);
  }

  /** At every unfolding depth an available tensor has one value, in the graph and, under
      its new name, in the function. */
  lemma {:induction false} SameValue<V>(g: Graph, sem: Kernels<V>, inputs: seq<Tensor>, outputs: seq<Tensor>,
                                        body: seq<nat>,
                                        f: FunctionDef, args: seq<V>, t: Tensor, depth: nat)
    requires WellFormed(g) && Distinct(inputs) && Distinct(body)
    requires Translates(g, inputs, outputs, body, f) && |args| == |inputs|
    requires Available(g, inputs, body, t)
    ensures FunctionValue(f, sem, args, Renamed(g, inputs, body, ArgNames(f.inputArgs), DefNames(f.nodes), t), depth) ==
            GraphValue(g, sem, inputs, args, t, depth)
    decreases depth
  {
    hide *;
    ArgumentCount(g, inputs, outputs, body, f);
    if t in inputs || depth == 0 {
      SameLeaf(g, sem, inputs, outputs, body, f, args, t, depth);
    } else {
      var s := Renamed(g, inputs, body, ArgNames(f.inputArgs), DefNames(f.nodes), t);
      var k := ProducerOf(g, inputs, outputs, body, f, t);
      var n, d, below := g.nodes[t.node], f.nodes[k], depth - 1;
      forall i: nat | i < n.op.numInputs
        ensures FunctionInput(f, sem, args, d, i, below) == GraphInput(g, sem, inputs, args, n, i, below)
      {
        ReadsUnfold(g, inputs, body, f, n, d, i);
        SameValue(g, sem, inputs, outputs, body, f, args, InputOf(g, n, i).value, below);
        InputsUnfold(g, sem, inputs, f, args, n, d, i, below);
      }
      SameKernel(g, sem, inputs, f, args, t, s, k, below);
    }
  }

  /** Arguments, and everything at depth zero. */
  lemma SameLeaf<V>(g: Graph, sem: Kernels<V>, inputs: seq<Tensor>, outputs: seq<Tensor>, body: seq<nat>,
                    f: FunctionDef, args: seq<V>, t: Tensor, depth: nat)
    requires WellFormed(g) && Distinct(inputs) && Distinct(body) && Translates(g, inputs, outputs, body, f)
    requires |args| == |inputs| == |f.inputArgs| && Available(g, inputs, body, t) && (t in inputs || depth == 0)
    ensures FunctionValue(f, sem, args, Renamed(g, inputs, body, ArgNames(f.inputArgs), DefNames(f.nodes), t), depth) ==
            GraphValue(g, sem, inputs, args, t, depth)
  {
    hide Translates, Renamed, Resolve, WellFormed, Distinct, PlainNames;
    RenamedResolves(g, inputs, outputs, body, f, t);
  }

  /** The emitted node that a tensor's new name leads to, and what it reads. */
  lemma ProducerOf(g: Graph, inputs: seq<Tensor>, outputs: seq<Tensor>, body: seq<nat>, f: FunctionDef,
                   t: Tensor) returns (k: nat)
    requires WellFormed(g) && Distinct(inputs) && Distinct(body) && Translates(g, inputs, outputs, body, f)
    requires |f.inputArgs| == |inputs| && |f.nodes| == |body|
    requires Available(g, inputs, body, t) && t !in inputs
    ensures k < |body| && body[k] == t.node && t.node in g.nodes && f.nodes[k].op == g.nodes[t.node].op
    ensures Resolve(f, Renamed(g, inputs, body, ArgNames(f.inputArgs), DefNames(f.nodes), t)) ==
            Some(FromNode(k, t.index))
    ensures forall i: nat :: i < g.nodes[t.node].op.numInputs ==>
            ReadsRenamed(g, inputs, body, f, g.nodes[t.node], f.nodes[k], i)
  {
    hide Translates, Renamed, Resolve, WellFormed, Distinct, PlainNames, ReadsRenamed;
    RenamedResolves(g, inputs, outputs, body, f, t);
    k := IndexOf(body, t.node);
    BodyNode(g, inputs, outputs, body, f, k);
  }

  lemma ReadsUnfold(g: Graph, inputs: seq<Tensor>, body: seq<nat>, f: FunctionDef, n: Node, d: NodeDef, i: nat)
    requires |f.inputArgs| == |inputs| && |f.nodes| == |body| && ReadsRenamed(g, inputs, body, f, n, d, i)
    ensures i < |d.input| && InputOf(g, n, i).Some? && Available(g, inputs, body, InputOf(g, n, i).value)
    ensures d.input[i] == Renamed(g, inputs, body, ArgNames(f.inputArgs), DefNames(f.nodes), InputOf(g, n, i).value)
  {
  }

  lemma InputsUnfold<V>(g: Graph, sem: Kernels<V>, inputs: seq<Tensor>, f: FunctionDef, args: seq<V>, n: Node,
                        d: NodeDef, i: nat, depth: nat)
    requires |args| == |inputs| == |f.inputArgs|
    ensures i < |d.input| ==> FunctionInput(f, sem, args, d, i, depth) == FunctionValue(f, sem, args, d.input[i], depth)
    ensures InputOf(g, n, i).Some? ==>
              GraphInput(g, sem, inputs, args, n, i, depth) ==
                GraphValue(g, sem, inputs, args, InputOf(g, n, i).value, depth)
  {
  }

  lemma ArgumentCount(g: Graph, inputs: seq<Tensor>, outputs: seq<Tensor>, body: seq<nat>, f: FunctionDef)
    requires Translates(g, inputs, outputs, body, f)
    ensures |f.inputArgs| == |inputs| && |f.nodes| == |body|
  {
  }

  /** One kernel on equal inputs. */
  lemma SameKernel<V>(g: Graph, sem: Kernels<V>, inputs: seq<Tensor>, f: FunctionDef, args: seq<V>, t: Tensor,
                      s: string, k: nat, below: nat)
    requires |args| == |inputs| == |f.inputArgs| && t !in inputs && t.node in g.nodes && k < |f.nodes|
    requires Resolve(f, s) == Some(FromNode(k, t.index)) && f.nodes[k].op == g.nodes[t.node].op
    requires forall i: nat :: i < g.nodes[t.node].op.numInputs ==>
                           FunctionInput(f, sem, args, f.nodes[k], i, below) ==
                             GraphInput(g, sem, inputs, args, g.nodes[t.node], i, below)
    ensures FunctionValue(f, sem, args, s, below + 1) == GraphValue(g, sem, inputs, args, t, below + 1)
  {
    hide FunctionInput, GraphInput, Resolve;
    var n, d := g.nodes[t.node], f.nodes[k];
    var vs := seq(n.op.numInputs, i requires 0 <= i < n.op.numInputs => GraphInput(g, sem, inputs, args, n, i, below));
    var ws := seq(d.op.numInputs, i requires 0 <= i < d.op.numInputs => FunctionInput(f, sem, args, d, i, below));
    assert vs == ws;
  }

  /** The function returns the graph's output tensors, for every kernel semantics, every
      argument assignment and every unfolding depth, cyclic graphs included. */
  lemma FunctionPreservesMeaning<V>(g: Graph, sem: Kernels<V>, inputs: seq<Tensor>, outputs: seq<Tensor>,
                                    body: seq<nat>,
                                    f: FunctionDef, args: seq<V>, r: nat, depth: nat)
    requires WellFormed(g) && Distinct(inputs) && Distinct(body)
    requires Translates(g, inputs, outputs, body, f) && |args| == |inputs| && r < |outputs|
    ensures ReturnValue(f, sem, args, r, depth) == GraphValue(g, sem, inputs, args, outputs[r], depth)
  {
    assert ArgNames(f.outputArgs)[r] in f.ret.Keys;
    SameValue(g, sem, inputs, outputs, body, f, args, outputs[r], depth);
  }

  // ---- Acyclic bodies ----

  /** `rank` falls along every data input of a body node that is not overridden. */
  ghost predicate Ranked(g: Graph, inputs: seq<Tensor>, body: seq<nat>, rank: nat -> nat) {
    forall k, i :: 0 <= k < |body| && body[k] in g.nodes && 0 <= i < g.nodes[body[k]].op.numInputs ==>
      match InputOf(g, g.nodes[body[k]], i)
      case Some(t) => t in inputs || rank(t.node) < rank(body[k])
      case None => true
  }

  ghost predicate FullOutputs<V(!new)>(sem: Kernels<V>) {
    forall op, vs :: |sem(op, vs)| == NumOutputs(op)
  }

  ghost predicate BodyReads(g: Graph, inputs: seq<Tensor>, body: seq<nat>, rank: nat -> nat, n: Node, id: nat, i: nat) {
    match InputOf(g, n, i)
    case Some(t) => Available(g, inputs, body, t) && (t in inputs || rank(t.node) < rank(id))
    case None => false
  }

  lemma {:induction false} RankedIsDefined<V(!new)>(g: Graph, sem: Kernels<V>, inputs: seq<Tensor>, body: seq<nat>,
                                                    args: seq<V>, rank: nat -> nat, t: Tensor, depth: nat)
    requires |args| == |inputs| && FullOutputs(sem)
    requires forall id, i :: id in body && id in g.nodes && 0 <= i < g.nodes[id].op.numInputs ==>
                               BodyReads(g, inputs, body, rank, g.nodes[id], id, i)
    requires Available(g, inputs, body, t) && rank(t.node) < depth
    ensures GraphValue(g, sem, inputs, args, t, depth).Some?
    decreases depth
  {
    if t !in inputs {
      var n, below := g.nodes[t.node], depth - 1;
      forall i | 0 <= i < n.op.numInputs ensures GraphInput(g, sem, inputs, args, n, i, below).Some? {
        assert BodyReads(g, inputs, body, rank, n, t.node, i);
        var u := InputOf(g, n, i).value;
        if u !in inputs {
          RankedIsDefined(g, sem, inputs, body, args, rank, u, below);
        }
      }
    }
  }

  /** On an acyclic body the unfolding ends: the returned value exists and is the graph's. */
  lemma AcyclicFunctionMeaning<V(!new)>(g: Graph, sem: Kernels<V>, inputs: seq<Tensor>, outputs: seq<Tensor>,
                                        body: seq<nat>,
                                        f: FunctionDef, args: seq<V>, rank: nat -> nat, r: nat, depth: nat)
    requires WellFormed(g) && Distinct(inputs) && Distinct(body) && FullOutputs(sem)
    requires Translates(g, inputs, outputs, body, f) && |args| == |inputs| && r < |outputs|
    requires Ranked(g, inputs, body, rank) && rank(outputs[r].node) < depth
    ensures ReturnValue(f, sem, args, r, depth).Some?
    ensures ReturnValue(f, sem, args, r, depth) == GraphValue(g, sem, inputs, args, outputs[r], depth)
  {
    FunctionPreservesMeaning(g, sem, inputs, outputs, body, f, args, r, depth);
    forall id, i | id in body && id in g.nodes && 0 <= i < g.nodes[id].op.numInputs
      ensures BodyReads(g, inputs, body, rank, g.nodes[id], id, i)
    {
      var k := IndexOf(body, id);
      assert Emitted(g, inputs, body, ArgNames(f.inputArgs), DefNames(f.nodes), g.nodes[body[k]],
                     DefNames(f.nodes)[LastIndexOf(body, body[k])], f.nodes[k]);
    }
    RankedIsDefined(g, sem, inputs, body, args, rank, outputs[r], depth);
  }

  // ---- Closedness ----

  /** Every data input of an emitted node names an argument or an existing output of an
      emitted node. */
  lemma FunctionIsClosed(g: Graph, inputs: seq<Tensor>, outputs: seq<Tensor>, body: seq<nat>, f: FunctionDef, k: nat,
                         i: nat)
    requires WellFormed(g) && Distinct(inputs) && Distinct(body)
    requires Translates(g, inputs, outputs, body, f)
    requires k < |f.nodes| && i < f.nodes[k].op.numInputs
    ensures i < |f.nodes[k].input| && Resolve(f, f.nodes[k].input[i]).Some?
  {
    hide Resolve, Renamed, InputOf, WellFormed, Distinct, Translates;
    ArgumentCount(g, inputs, outputs, body, f);
    BodyNode(g, inputs, outputs, body, f, k);
    assert ReadsRenamed(g, inputs, body, f, g.nodes[body[k]], f.nodes[k], i);
    RenamedResolves(g, inputs, outputs, body, f, InputOf(g, g.nodes[body[k]], i).value);
  }

  // ---- Control inputs ----

  /** The search for a control input stops at such an entry: the name itself, or the name
      and a colon in front. */
  ghost predicate Finds(f: FunctionDef, item: Item, key: string, s: string) {
    Inserts(f, item, key) && (key == s || s + ":" <= key)
  }

  lemma FoundByOwner(f: FunctionDef, item: Item, key: string, s: string)
    requires PlainNames(f) && Finds(f, item, key, s) && ':' !in s
    ensures Owner(f, item) == s
  {
    OwnerIsPlain(f, item);
    var rest := if key == s then "" else key[|s|..];
    assert key == s + rest;
    SplitAtFirstColon(Owner(f, item), Tail(f, item), s, rest);
  }

  /** The entries of the node with id `id`, or of the last argument it supplies. */
  ghost predicate BelongsTo(inputs: seq<Tensor>, body: seq<nat>, item: Item, id: nat)
    requires Controllable(inputs, body, id)
  {
    if id in body then !item.ArgBase? && !item.ArgFlat? && item.node == IndexOf(body, id)
    else (item.ArgBase? || item.ArgFlat?) && item.arg == LastFrom(inputs, id)
  }

  /** An entry under the plain name of a node or an argument exists. */
  ghost function FirstItem(f: FunctionDef, inputs: seq<Tensor>, body: seq<nat>, id: nat): Item
    requires Controllable(inputs, body, id) && |f.nodes| == |body|
  {
    if id !in body then ArgBase(LastFrom(inputs, id))
    else
      var k := IndexOf(body, id);
      if f.nodes[k].op.outputs == [] then NodePlain(k) else OutBase(k, 0)
  }

  /** A control input written for a source leads back to it: the search finds an entry,
      and whatever it finds belongs to the emitted source or to its last argument. */
  lemma ControlLeadsBack(g: Graph, inputs: seq<Tensor>, outputs: seq<Tensor>, body: seq<nat>, f: FunctionDef, id: nat)
    requires WellFormed(g) && Distinct(inputs) && Distinct(body) && Translates(g, inputs, outputs, body, f)
    requires Controllable(inputs, body, id) && |f.inputArgs| == |inputs| && |f.nodes| == |body|
    ensures var s := ControlName(inputs, body, ArgNames(f.inputArgs), DefNames(f.nodes), id);
            && (exists item, key :: Finds(f, item, key, s))
            && (forall item, key :: Finds(f, item, key, s) ==> BelongsTo(inputs, body, item, id))
  {
    hide WellFormed, TranslatesAs;
    EmittedOps(g, inputs, outputs, body, f, DefNames(f.nodes));
    var s := ControlName(inputs, body, ArgNames(f.inputArgs), DefNames(f.nodes), id);
    var first := FirstItem(f, inputs, body, id);
    assert id in body ==> LastIndexOf(body, id) == IndexOf(body, id);
    assert IsItem(f, first) && Owner(f, first) == s;
    assert Finds(f, first, s + Tail(f, first), s);
    OwnerIsPlain(f, first);
    forall item, key | Finds(f, item, key, s) ensures BelongsTo(inputs, body, item, id) {
      FoundByOwner(f, item, key, s);
      SameOwner(f, item, first);
    }
  }

  /** The control inputs of an emitted node are those names, in edge order. */
  lemma ControlInputs(g: Graph, inputs: seq<Tensor>, outputs: seq<Tensor>, body: seq<nat>, f: FunctionDef, k: nat,
                      c: nat)
    requires Translates(g, inputs, outputs, body, f) && |f.inputArgs| == |inputs| && |f.nodes| == |body| && k < |body|
    requires body[k] in g.nodes && c < |ControlSources(g.nodes[body[k]].inEdges)|
    ensures var id, d := ControlSources(g.nodes[body[k]].inEdges)[c], f.nodes[k];
            && Controllable(inputs, body, id) && d.op.numInputs + c < |d.input|
            && d.input[d.op.numInputs + c] == "^" +
               ControlName(inputs, body, ArgNames(f.inputArgs), DefNames(f.nodes), id)
  {
    hide ControlSources, ControlName, Renamed;
    var nodeNames := DefNames(f.nodes);
    assert Emitted(g, inputs, body, ArgNames(f.inputArgs), nodeNames, g.nodes[body[k]],
                   nodeNames[LastIndexOf(body, body[k])], f.nodes[k]);
  }

  // ---- Operands ----

  /** Operands keep their places: data input `i` of an emitted node leads to the source of
      the last edge into input `i` of the node it was made of. */
  lemma OperandsInOrder(g: Graph, inputs: seq<Tensor>, outputs: seq<Tensor>, body: seq<nat>, f: FunctionDef, k: nat,
                        i: nat, t: Tensor)
    requires WellFormed(g) && Distinct(inputs) && Distinct(body) && Translates(g, inputs, outputs, body, f)
    requires |f.inputArgs| == |inputs| && |f.nodes| == |body| && k < |body| && body[k] in g.nodes
    requires i < g.nodes[body[k]].op.numInputs && LastFeed(g.nodes[body[k]].inEdges, i, Some(t))
    ensures Available(g, inputs, body, t) && i < |f.nodes[k].input|
    ensures Resolve(f, f.nodes[k].input[i]) ==
            Some(if t in inputs then FromArg(IndexOf(inputs, t)) else FromNode(IndexOf(body, t.node), t.index))
  {
    hide Resolve, Renamed, InputOf, WellFormed, Distinct, Translates, LastFeed, Available, IndexOf;
    var n := g.nodes[body[k]];
    InputOfExactly(g, n, i, t);
    BodyNode(g, inputs, outputs, body, f, k);
    ReadsUnfold(g, inputs, body, f, n, f.nodes[k], i);
    RenamedResolves(g, inputs, outputs, body, f, t);
    AvailableUnfolds(g, inputs, body, t);
  }

  /** An emitted node keeps its op and attributes, and runs where it was assigned or, if it
      was not, where its definition asks for. */
  lemma NodesKeepOpAndDevice(g: Graph, inputs: seq<Tensor>, outputs: seq<Tensor>, body: seq<nat>, f: FunctionDef,
                             k: nat)
    requires Translates(g, inputs, outputs, body, f) && k < |body|
    ensures |f.nodes| == |body| && body[k] in g.nodes
    ensures var n, d := g.nodes[body[k]], f.nodes[k];
            && d.op.kind == n.op.kind && d.op.attrs == n.op.attrs
            && (n.assignedDevice != "" ==> d.device == n.assignedDevice)
            && (n.assignedDevice == "" ==> d.device == n.device)
  {
    hide Renamed, ControlName, InputsAvailable;
    var nodeNames := DefNames(f.nodes);
    assert Emitted(g, inputs, body, ArgNames(f.inputArgs), nodeNames, g.nodes[body[k]],
                   nodeNames[LastIndexOf(body, body[k])], f.nodes[k]);
  }

  lemma AvailableUnfolds(g: Graph, inputs: seq<Tensor>, body: seq<nat>, t: Tensor)
    requires Available(g, inputs, body, t)
    ensures t in inputs || t.node in body
  {
  }
}
