/** The graph-to-function compiler: names are chosen, tensors renamed, edges rewritten
    and returns remapped, one loop each. */
module FunctionCompiler {
  import opened Graphs
  import opened Text
  import opened NodeNames
  import opened FunctionSpec

  datatype Error =
    | NoSuchOutput | ReferenceType | RepeatedInput | SeveralOutputs
    | RepeatedOutputName | MissingInputEdge | InputNotAvailable | ControlOutsideBody | OutputNotAvailable

  datatype Result<+T> = Ok(value: T) | Failed(error: Error)

  function Key(g: Graph, t: Tensor): string
    requires t.node in g.nodes
  {
    FlatName(g.nodes[t.node].name, t.index)
  }

  lemma KeyInjective(g: Graph, t: Tensor, u: Tensor)
    requires WellFormed(g) && t.node in g.nodes && u.node in g.nodes && Key(g, t) == Key(g, u)
    ensures t == u
  {
    FlatNameInjective(g.nodes[t.node].name, t.index, g.nodes[u.node].name, u.index);
  }

  // ---- tensor_renaming ----

  /** `ren` holds exactly the available tensors, under their flat names, and maps each to
      its name in the function. */
  ghost predicate Renames(g: Graph, inputs: seq<Tensor>, argNames: seq<string>, body: seq<nat>, nodeNames: seq<string>,
                          ren: map<string, string>)
  {
    && |argNames| == |inputs| && |nodeNames| == |body|
    && (forall i :: 0 <= i < |inputs| ==> ValidTensor(g, inputs[i]))
    && (forall k :: 0 <= k < |body| ==> body[k] in g.nodes)
    && (forall i :: 0 <= i < |inputs| ==> Key(g, inputs[i]) in ren && ren[Key(g, inputs[i])] == argNames[i])
    && (forall k, i: nat :: 0 <= k < |body| && i < NumOutputs(g.nodes[body[k]].op) ==>
          && FlatName(g.nodes[body[k]].name, i) in ren
          && (Tensor(body[k], i) !in inputs ==>
                ren[FlatName(g.nodes[body[k]].name, i)] ==
                  OutName(g.nodes[body[k]].op, nodeNames[IndexOf(body, body[k])], i)))
    && (forall s :: s in ren ==> exists t :: Available(g, inputs, body, t) && s == Key(g, t))
  }

  lemma RenamesAvailable(g: Graph, inputs: seq<Tensor>, argNames: seq<string>, body: seq<nat>, nodeNames: seq<string>,
                         ren: map<string, string>, t: Tensor)
    requires WellFormed(g) && Renames(g, inputs, argNames, body, nodeNames, ren) && t.node in g.nodes
    ensures Key(g, t) in ren <==> Available(g, inputs, body, t)
    ensures Key(g, t) in ren ==> ren[Key(g, t)] == Renamed(g, inputs, body, argNames, nodeNames, t)
  {
    hide FlatName, WellFormed, OutName;
    if Key(g, t) in ren {
      var u :| Available(g, inputs, body, u) && Key(g, t) == Key(g, u);
      KeyInjective(g, t, u);
    }
    if Available(g, inputs, body, t) {
      if t in inputs {
        assert inputs[IndexOf(inputs, t)] == t;
      } else {
        var k := IndexOf(body, t.node);
        assert Tensor(body[k], t.index) == t;
        assert FlatName(g.nodes[body[k]].name, t.index) == Key(g, t);
      }
    }
  }

  /** `ren'` is `ren` with the first `done` outputs of the node added where they are new. */
  ghost predicate Extended(ren: map<string, string>, ren': map<string, string>, n: Node, nodeName: string, done: nat)
    requires done <= NumOutputs(n.op)
  {
    && (forall s :: s in ren ==> s in ren' && ren'[s] == ren[s])
    && (forall i: nat :: i < done ==>
          && FlatName(n.name, i) in ren'
          && (FlatName(n.name, i) !in ren ==> ren'[FlatName(n.name, i)] == OutName(n.op, nodeName, i)))
    && (forall s :: s in ren' ==> s in ren || exists i: nat :: i < done && s == FlatName(n.name, i))
  }

  lemma ExtendedStep(ren: map<string, string>, before: map<string, string>, after: map<string, string>,
                     n: Node, nodeName: string, j: nat, p: nat)
    requires j < |n.op.outputs| && p < |n.op.outputs[j].types|
    requires Start(n.op.outputs, j) + p < NumOutputs(n.op)
    requires Extended(ren, before, n, nodeName, Start(n.op.outputs, j) + p)
    requires after == if FlatName(n.name, Start(n.op.outputs, j) + p) in before then before
                      else before[FlatName(n.name, Start(n.op.outputs, j) + p) :=
                                    NestedName(nodeName, n.op.outputs[j].name, p)]
    ensures Extended(ren, after, n, nodeName, Start(n.op.outputs, j) + p + 1)
  {
    hide FlatName, NestedName, OutName, Start;
    var i := Start(n.op.outputs, j) + p;
    var key := FlatName(n.name, i);
    OutNameAt(n.op, nodeName, j, p);
    forall m: nat | m < i && FlatName(n.name, m) == key ensures false {
      FlatNameInjective(n.name, m, n.name, i);
    }
    assert key in before ==> key in ren;
  }

  lemma OutNameAt(op: Op, nodeName: string, j: nat, p: nat)
    requires j < |op.outputs| && p < |op.outputs[j].types| && Start(op.outputs, j) + p < NumOutputs(op)
    ensures OutName(op, nodeName, Start(op.outputs, j) + p) == NestedName(nodeName, op.outputs[j].name, p)
  {
    hide NestedName;
    var i := Start(op.outputs, j) + p;
    var (j', p') := FindArg(op.outputs, i, |op.outputs|);
    AtUnique(op.outputs, i, j, p, j', p');
  }

  /** Adds every output of one body node to the renaming. */
  method RenameOutputs(n: Node, nodeName: string, ren: map<string, string>) returns (ren': map<string, string>)
    ensures Extended(ren, ren', n, nodeName, NumOutputs(n.op))
  {
    hide FlatName, NestedName, OutName;
    ren' := ren;
    var outs := n.op.outputs;
    for j := 0 to |outs|
      invariant Start(outs, j) <= NumOutputs(n.op)
      invariant Extended(ren, ren', n, nodeName, Start(outs, j))
    {
      StartMonotone(outs, j + 1, |outs|);
      var start := Start(outs, j);
      hide Extended;
      for p := 0 to |outs[j].types|
        invariant Extended(ren, ren', n, nodeName, start + p)
      {
        ghost var before := ren';
        var original := FlatName(n.name, start + p);
        if original !in ren' {
          ren' := ren'[original := NestedName(nodeName, outs[j].name, p)];
        }
        ExtendedStep(ren, before, ren', n, nodeName, j, p);
      }
    }
  }

  lemma RenamesStep(g: Graph, inputs: seq<Tensor>, argNames: seq<string>, body: seq<nat>, nodeNames: seq<string>,
                    ren: map<string, string>, id: nat, nodeName: string, ren': map<string, string>)
    requires WellFormed(g) && Renames(g, inputs, argNames, body, nodeNames, ren)
    requires id in g.nodes
    requires Extended(ren, ren', g.nodes[id], nodeName, NumOutputs(g.nodes[id].op))
    ensures Renames(g, inputs, argNames, body + [id], nodeNames + [nodeName], ren')
  {
    hide OutName, FlatName, NumOutputs, Extended;
    var body', nodeNames' := body + [id], nodeNames + [nodeName];
    ExtendedKeeps(ren, ren', g.nodes[id], nodeName);
    forall s | s in ren' ensures exists t :: Available(g, inputs, body', t) && s == Key(g, t) {
      ExtendedKey(g, inputs, argNames, body, nodeNames, ren, id, nodeName, ren', s);
    }
    forall k, i: nat | 0 <= k < |body'| && i < NumOutputs(g.nodes[body'[k]].op)
      ensures FlatName(g.nodes[body'[k]].name, i) in ren'
      ensures Tensor(body'[k], i) !in inputs ==>
                ren'[FlatName(g.nodes[body'[k]].name, i)] ==
                  OutName(g.nodes[body'[k]].op, nodeNames'[IndexOf(body', body'[k])], i)
    {
      ExtendedName(g, inputs, argNames, body, nodeNames, ren, id, nodeName, ren', body'[k], i);
    }
  }

  lemma ExtendedKeeps(ren: map<string, string>, ren': map<string, string>, n: Node, nodeName: string)
    requires Extended(ren, ren', n, nodeName, NumOutputs(n.op))
    ensures forall s :: s in ren ==> s in ren' && ren'[s] == ren[s]
  {
  }

  lemma ExtendedKey(g: Graph, inputs: seq<Tensor>, argNames: seq<string>, body: seq<nat>, nodeNames: seq<string>,
                    ren: map<string, string>, id: nat, nodeName: string, ren': map<string, string>, s: string)
    requires Renames(g, inputs, argNames, body, nodeNames, ren) && id in g.nodes && s in ren'
    requires Extended(ren, ren', g.nodes[id], nodeName, NumOutputs(g.nodes[id].op))
    ensures exists t :: Available(g, inputs, body + [id], t) && s == Key(g, t)
  {
    hide OutName, FlatName, NumOutputs;
    var n := g.nodes[id];
    if s in ren {
      var t :| Available(g, inputs, body, t) && s == Key(g, t);
      assert Available(g, inputs, body + [id], t);
    } else {
      var i: nat :| i < NumOutputs(n.op) && s == FlatName(n.name, i);
      assert Available(g, inputs, body + [id], Tensor(id, i)) && s == Key(g, Tensor(id, i));
    }
  }

  lemma ExtendedName(g: Graph, inputs: seq<Tensor>, argNames: seq<string>, body: seq<nat>, nodeNames: seq<string>,
                     ren: map<string, string>, id: nat, nodeName: string, ren': map<string, string>, x: nat, i: nat)
    requires WellFormed(g) && Renames(g, inputs, argNames, body, nodeNames, ren) && id in g.nodes
    requires Extended(ren, ren', g.nodes[id], nodeName, NumOutputs(g.nodes[id].op))
    requires (x in body || x == id) && x in g.nodes && i < NumOutputs(g.nodes[x].op)
    ensures FlatName(g.nodes[x].name, i) in ren'
    ensures x in body + [id] && IndexOf(body + [id], x) <= |body|
    ensures Tensor(x, i) !in inputs ==>
              ren'[FlatName(g.nodes[x].name, i)] ==
                OutName(g.nodes[x].op, (nodeNames + [nodeName])[IndexOf(body + [id], x)], i)
  {
    hide OutName, FlatName, NumOutputs, IndexOf;
    var body' := body + [id];
    assert body'[|body|] == id;
    if x in body {
      var first := IndexOf(body, x);
      assert body'[first] == x && body[first] == x;
      assert IndexOf(body', x) == first by { assert forall k :: 0 <= k < |body| ==> body'[k] == body[k]; }
      assert FlatName(g.nodes[body[first]].name, i) in ren;
    } else {
      RenamesAvailable(g, inputs, argNames, body, nodeNames, ren, Tensor(id, i));
      assert IndexOf(body', x) == |body| by { assert forall k :: 0 <= k < |body| ==> body'[k] == body[k]; }
    }
  }

  // ---- name_mapping_ ----

  /** What looking a node up finds: body nodes their new name, other input nodes the
      name of the last argument they supply. */
  ghost predicate Mapped(g: Graph, inputs: seq<Tensor>, argNames: seq<string>, body: seq<nat>, nodeNames: seq<string>,
                         mapping: map<string, string>)
  {
    && |argNames| == |inputs| && |nodeNames| == |body|
    && (forall id :: id in g.nodes ==>
          (g.nodes[id].name in mapping <==> Controllable(inputs, body, id)))
    && (forall id :: id in g.nodes && Controllable(inputs, body, id) ==>
          mapping[g.nodes[id].name] == ControlName(inputs, body, argNames, nodeNames, id))
  }

  lemma MappedInput(g: Graph, inputs: seq<Tensor>, argNames: seq<string>, mapping: map<string, string>, t: Tensor,
                    name: string)
    requires WellFormed(g) && Mapped(g, inputs, argNames, [], [], mapping) && t.node in g.nodes
    ensures Mapped(g, inputs + [t], argNames + [name], [], [], mapping[g.nodes[t.node].name := name])
  {
    var inputs', argNames', mapping' := inputs + [t], argNames + [name], mapping[g.nodes[t.node].name := name];
    assert inputs'[..|inputs|] == inputs;
    forall id | id in g.nodes
      ensures g.nodes[id].name in mapping' <==> Controllable(inputs', [], id)
      ensures Controllable(inputs', [], id) ==>
                mapping'[g.nodes[id].name] == ControlName(inputs', [], argNames', [], id)
    {
      if id == t.node {
        assert inputs'[|inputs|].node == id;
      } else {
        assert Controllable(inputs', [], id) <==> Controllable(inputs, [], id) by {
          assert forall i :: 0 <= i < |inputs| ==> inputs'[i] == inputs[i];
        }
      }
    }
  }

  lemma MappedBody(g: Graph, inputs: seq<Tensor>, argNames: seq<string>, body: seq<nat>, nodeNames: seq<string>,
                   mapping: map<string, string>, id: nat, name: string)
    requires WellFormed(g) && Mapped(g, inputs, argNames, body, nodeNames, mapping)
    requires id in g.nodes
    ensures Mapped(g, inputs, argNames, body + [id], nodeNames + [name], mapping[g.nodes[id].name := name])
  {
    var body', names', mapping' := body + [id], nodeNames + [name], mapping[g.nodes[id].name := name];
    forall x | x in g.nodes
      ensures g.nodes[x].name in mapping' <==> Controllable(inputs, body', x)
      ensures Controllable(inputs, body', x) ==>
                mapping'[g.nodes[x].name] == ControlName(inputs, body', argNames, names', x)
    {
      assert x in body' <==> x in body || x == id;
      if x in body' {
        assert LastIndexOf(body', x) == if x == id then |body| else LastIndexOf(body, x);
      }
    }
  }

  // ---- Signature ----

  method FillOutputs(g: Graph, outputs: seq<Tensor>, outputNames: seq<string>, names: NodeNameMapping)
    returns (ok: bool, args: seq<ArgDef>)
    requires forall i :: 0 <= i < |outputs| ==> ValidTensor(g, outputs[i])
    requires outputNames == [] || |outputNames| == |outputs|
    requires names.Valid() && names.used == {} && names.mapping == map[]
    modifies names
    ensures names.Valid() && names.mapping == map[]
    ensures ok <==> Distinct(outputNames)
    ensures ok ==> ArgsOf(g, outputs, args) && Distinct(ArgNames(args))
    ensures ok && outputNames != [] ==> ArgNames(args) == outputNames
    ensures ok && outputNames == [] ==> forall i :: 0 <= i < |args| ==> IsArgName(args[i].name)
  {
    hide ArgNames, IsArgName, IsNormalized, IsFirstFree, OutputType, ArgsOf;
    args := [];
    ghost var chosen: seq<string> := [];
    NoArgs(g);
    for i := 0 to |outputs|
      invariant names.Valid() && names.mapping == map[]
      invariant |args| == |chosen| == i && ArgsOf(g, outputs[..i], args) && ArgNames(args) == chosen && Distinct(chosen)
      invariant forall s :: s in names.used <==> s in chosen
      invariant outputNames != [] ==> chosen == outputNames[..i]
      invariant outputNames == [] ==> forall k :: 0 <= k < i ==> IsArgName(args[k].name)
    {
      var name;
      if outputNames != [] {
        name := outputNames[i];
        var unused := names.UseOutputName(name);
        if !unused {
          RepeatedName(outputNames, i);
          return false, args;
        }
      } else {
        name := names.GetOutputName(g.nodes[outputs[i].node].name);
      }
      var arg := ArgDef(name, OutputType(g.nodes[outputs[i].node].op, outputs[i].index));
      ArgsSnoc(g, outputs, i, args, arg);
      args := args + [arg];
      chosen := chosen + [name];
    }
    assert outputs[..|outputs|] == outputs && outputNames[..|outputNames|] == outputNames;
    ok := true;
  }

  lemma NoArgs(g: Graph)
    ensures ArgsOf(g, [], []) && ArgNames([]) == []
  {
  }

  lemma RepeatedName(names: seq<string>, i: nat)
    requires i < |names| && names[i] in names[..i]
    ensures !Distinct(names)
  {
    var k :| 0 <= k < i && names[..i][k] == names[i];
    assert names[k] == names[i];
  }

  lemma ArgsSnoc(g: Graph, tensors: seq<Tensor>, i: nat, args: seq<ArgDef>, arg: ArgDef)
    requires i < |tensors| && ArgsOf(g, tensors[..i], args) && ValidTensor(g, tensors[i])
    requires arg.dtype == OutputType(g.nodes[tensors[i].node].op, tensors[i].index)
    ensures ArgsOf(g, tensors[..i + 1], args + [arg])
    ensures ArgNames(args + [arg]) == ArgNames(args) + [arg.name]
  {
    hide OutputType;
    assert tensors[..i + 1] == tensors[..i] + [tensors[i]];
  }

  method FillInputs(g: Graph, inputs: seq<Tensor>, names: NodeNameMapping)
    returns (args: seq<ArgDef>, ren: map<string, string>)
    requires WellFormed(g) && Distinct(inputs)
    requires forall i :: 0 <= i < |inputs| ==> ValidTensor(g, inputs[i])
    requires names.Valid() && names.mapping == map[]
    modifies names
    ensures names.Valid() && ArgsOf(g, inputs, args)
    ensures SeparateNames(ArgNames(args), []) && forall i :: 0 <= i < |args| ==> args[i].name in names.used
    ensures Renames(g, inputs, ArgNames(args), [], [], ren)
    ensures Mapped(g, inputs, ArgNames(args), [], [], names.mapping)
  {
    hide FlatName, Renames, Mapped, SeparateNames;
    EmptySignature(g);
    args, ren := [], map[];
    for i := 0 to |inputs|
      invariant names.Valid() && |args| == i && ArgsOf(g, inputs[..i], args)
      invariant SeparateNames(ArgNames(args), []) && forall k :: 0 <= k < i ==> args[k].name in names.used
      invariant Renames(g, inputs[..i], ArgNames(args), [], [], ren)
      invariant Mapped(g, inputs[..i], ArgNames(args), [], [], names.mapping)
    {
      var t := inputs[i];
      ghost var before, mapping := args, names.mapping;
      var name := names.GetInputName(g.nodes[t.node].name);
      args := args + [ArgDef(name, OutputType(g.nodes[t.node].op, t.index))];
      assert inputs[..i + 1] == inputs[..i] + [t] && ArgNames(args) == ArgNames(before) + [name];
      MappedInput(g, inputs[..i], ArgNames(before), mapping, t, name);
      SeparateArg(ArgNames(before), name);
      RenamesInput(g, inputs[..i], ArgNames(before), ren, t, name);
      ren := ren[Key(g, t) := name];
    }
    assert inputs[..|inputs|] == inputs;
  }

  lemma EmptySignature(g: Graph)
    ensures Renames(g, [], [], [], [], map[]) && Mapped(g, [], [], [], [], map[]) && SeparateNames([], [])
    ensures ArgNames([]) == []
  {
  }

  lemma SeparateArg(argNames: seq<string>, name: string)
    requires SeparateNames(argNames, []) && name !in argNames && IsArgName(name)
    ensures SeparateNames(argNames + [name], [])
  {
  }

  lemma SeparateNode(argNames: seq<string>, nodeNames: seq<string>, name: string)
    requires SeparateNames(argNames, nodeNames) && name !in argNames && name !in nodeNames
    requires name != "" && ':' !in name
    ensures SeparateNames(argNames, nodeNames + [name])
  {
  }

  lemma RenamesInput(g: Graph, inputs: seq<Tensor>, argNames: seq<string>, ren: map<string, string>, t: Tensor,
                     name: string)
    requires WellFormed(g) && Renames(g, inputs, argNames, [], [], ren)
    requires ValidTensor(g, t) && t !in inputs
    ensures Renames(g, inputs + [t], argNames + [name], [], [], ren[Key(g, t) := name])
  {
    hide FlatName, NestedName;
    var inputs', ren' := inputs + [t], ren[Key(g, t) := name];
    forall i | 0 <= i < |inputs| ensures Key(g, inputs[i]) != Key(g, t) {
      if Key(g, inputs[i]) == Key(g, t) {
        KeyInjective(g, inputs[i], t);
      }
    }
    forall s | s in ren' ensures exists u :: Available(g, inputs', [], u) && s == Key(g, u) {
      if s == Key(g, t) {
        assert Available(g, inputs', [], t);
      } else {
        var u :| Available(g, inputs, [], u) && s == Key(g, u);
        assert Available(g, inputs', [], u);
      }
    }
  }

  // ---- Body ----

  method RenameBody(g: Graph, inputs: seq<Tensor>, ghost argNames: seq<string>, body: seq<nat>,
                    names: NodeNameMapping, ren: map<string, string>)
    returns (ghost nodeNames: seq<string>, ren': map<string, string>)
    requires WellFormed(g) && forall k :: 0 <= k < |body| ==> body[k] in g.nodes
    requires names.Valid() && SeparateNames(argNames, [])
    requires forall i :: 0 <= i < |argNames| ==> argNames[i] in names.used
    requires Renames(g, inputs, argNames, [], [], ren) && Mapped(g, inputs, argNames, [], [], names.mapping)
    modifies names
    ensures names.Valid() && |nodeNames| == |body| && SeparateNames(argNames, nodeNames)
    ensures Renames(g, inputs, argNames, body, nodeNames, ren')
    ensures Mapped(g, inputs, argNames, body, nodeNames, names.mapping)
  {
    hide FlatName, Renames, Mapped, SeparateNames;
    nodeNames, ren' := [], ren;
    for k := 0 to |body|
      invariant names.Valid() && |nodeNames| == k && SeparateNames(argNames, nodeNames)
      invariant forall i :: 0 <= i < |argNames| ==> argNames[i] in names.used
      invariant forall i :: 0 <= i < |nodeNames| ==> nodeNames[i] in names.used
      invariant Renames(g, inputs, argNames, body[..k], nodeNames, ren')
      invariant Mapped(g, inputs, argNames, body[..k], nodeNames, names.mapping)
    {
      var n := g.nodes[body[k]];
      ghost var mapping := names.mapping;
      var nodeName := names.Uniquify(n.name);
      assert ValidNode(g, n) && nodeName != "" && ':' !in nodeName;
      SeparateNode(argNames, nodeNames, nodeName);
      ghost var before := ren';
      ren' := RenameOutputs(n, nodeName, ren');
      MappedBody(g, inputs, argNames, body[..k], nodeNames, mapping, body[k], nodeName);
      RenamesStep(g, inputs, argNames, body[..k], nodeNames, before, body[k], nodeName, ren');
      assert body[..k + 1] == body[..k] + [body[k]];
      nodeNames := nodeNames + [nodeName];
    }
    assert body[..|body|] == body;
  }

  /** Sorts the incoming edges into data slots and control sources. */
  method CollectInputs(n: Node) returns (slots: seq<Option<Tensor>>, controls: seq<nat>)
    requires forall e :: e in n.inEdges && e.DataEdge? ==> e.dstInput < n.op.numInputs
    ensures |slots| == n.op.numInputs && forall i :: 0 <= i < |slots| ==> slots[i] == EdgeInto(n.inEdges, i)
    ensures forall i: nat :: i < |slots| ==> LastFeed(n.inEdges, i, slots[i])
    ensures controls == ControlSources(n.inEdges) && exists pos :: ListsControls(n.inEdges, pos, controls)
  {
    slots, controls := seq(n.op.numInputs, _ => None), [];
    for m := 0 to |n.inEdges|
      invariant |slots| == n.op.numInputs && forall i :: 0 <= i < |slots| ==> slots[i] == EdgeInto(n.inEdges[..m], i)
      invariant controls == ControlSources(n.inEdges[..m])
    {
      var e := n.inEdges[m];
      assert n.inEdges[..m + 1][..m] == n.inEdges[..m];
      match e
      case ControlEdge(src) =>
        if src != SOURCE_ID {
          controls := controls + [src];
        }
      case DataEdge(src, dst) =>
        if src.node != SOURCE_ID {
          slots := slots[dst := Some(src)];
        }
    }
    assert n.inEdges[..|n.inEdges|] == n.inEdges;
    hide EdgeInto, ControlSources, LastFeed, ListsControls;
    forall i: nat | i < |slots| ensures LastFeed(n.inEdges, i, slots[i]) {
      EdgeIntoExactly(n.inEdges, i);
    }
    ghost var pos := ControlSourcesExactly(n.inEdges);
  }

  /** A requested tensor is found under its flat name exactly if it is available. */
  lemma RequestedInput(g: Graph, inputs: seq<Tensor>, argNames: seq<string>, body: seq<nat>, nodeNames: seq<string>,
                       ren: map<string, string>, n: Node, i: nat)
    requires WellFormed(g) && Renames(g, inputs, argNames, body, nodeNames, ren)
    requires i < |n.requested| && n.requested[i].DataId? && EdgeInto(n.inEdges, i).None?
    ensures var key := FlatName(n.requested[i].name, n.requested[i].index);
            && (key in ren <==> InputOf(g, n, i).Some? && Available(g, inputs, body, InputOf(g, n, i).value))
            && (key in ren ==> ren[key] == Renamed(g, inputs, body, argNames, nodeNames, InputOf(g, n, i).value))
  {
    hide FlatName, NestedName;
    var id := n.requested[i];
    var key := FlatName(id.name, id.index);
    if key in ren {
      var t :| Available(g, inputs, body, t) && key == Key(g, t);
      FlatNameInjective(id.name, id.index, g.nodes[t.node].name, t.index);
      assert IsNamed(g, t.node, id.name);
    }
    if InputOf(g, n, i).Some? {
      RenamesAvailable(g, inputs, argNames, body, nodeNames, ren, InputOf(g, n, i).value);
    }
  }

  lemma ControlIsNoTensor(g: Graph, inputs: seq<Tensor>, argNames: seq<string>, body: seq<nat>, nodeNames: seq<string>,
                          ren: map<string, string>, name: string)
    requires WellFormed(g) && Renames(g, inputs, argNames, body, nodeNames, ren)
    ensures "^" + name !in ren
  {
    forall t: Tensor | t.node in g.nodes ensures Key(g, t) != "^" + name {
      assert ValidNode(g, g.nodes[t.node]) && Key(g, t)[0] == g.nodes[t.node].name[0];
    }
  }

  lemma {:induction false} EdgeIntoValid(g: Graph, edges: seq<Edge>, i: nat)
    requires forall e :: e in edges && e.DataEdge? ==> ValidTensor(g, e.src)
    ensures EdgeInto(edges, i).Some? ==> ValidTensor(g, EdgeInto(edges, i).value)
  {
    if edges != [] {
      EdgeIntoValid(g, edges[..|edges| - 1], i);
    }
  }

  lemma {:induction false} ControlSourcesValid(g: Graph, edges: seq<Edge>)
    requires forall e :: e in edges && e.ControlEdge? ==> e.srcNode in g.nodes
    ensures forall c :: c in ControlSources(edges) ==> c in g.nodes
  {
    if edges != [] {
      ControlSourcesValid(g, edges[..|edges| - 1]);
    }
  }

  /** The name of one data input, or the reason there is none. */
  method DataInput(g: Graph, n: Node, slot: Option<Tensor>, i: nat, ren: map<string, string>,
                   ghost inputs: seq<Tensor>, ghost argNames: seq<string>,
                   ghost body: seq<nat>, ghost nodeNames: seq<string>)
    returns (r: Result<string>)
    requires WellFormed(g) && ValidNode(g, n) && Renames(g, inputs, argNames, body, nodeNames, ren)
    requires slot == EdgeInto(n.inEdges, i)
    ensures r.Ok? <==> InputOf(g, n, i).Some? && Available(g, inputs, body, InputOf(g, n, i).value)
    ensures r.Ok? ==> r.value == Renamed(g, inputs, body, argNames, nodeNames, InputOf(g, n, i).value)
    ensures r.Failed? ==> r.error == if slot.None? && i >= |n.requested| then MissingInputEdge else InputNotAvailable
  {
    var original;
    match slot {
      case None =>
        if i >= |n.requested| {
          return Failed(MissingInputEdge);
        }
        match n.requested[i] {
          case DataId(name, index) =>
            RequestedInput(g, inputs, argNames, body, nodeNames, ren, n, i);
            original := FlatName(name, index);
          case ControlId(name) =>
            ControlIsNoTensor(g, inputs, argNames, body, nodeNames, ren, name);
            original := "^" + name;
        }
      case Some(t) =>
        EdgeIntoValid(g, n.inEdges, i);
        RenamesAvailable(g, inputs, argNames, body, nodeNames, ren, t);
        original := Key(g, t);
    }
    if original !in ren {
      return Failed(InputNotAvailable);
    }
    return Ok(ren[original]);
  }

  lemma ControlIsMapped(g: Graph, inputs: seq<Tensor>, argNames: seq<string>, body: seq<nat>, nodeNames: seq<string>,
                        mapping: map<string, string>, id: nat)
    requires Mapped(g, inputs, argNames, body, nodeNames, mapping) && SeparateNames(argNames, nodeNames) &&
             id in g.nodes
    ensures g.nodes[id].name in mapping <==> Controllable(inputs, body, id)
    ensures Controllable(inputs, body, id) ==>
              && mapping[g.nodes[id].name] == ControlName(inputs, body, argNames, nodeNames, id)
              && mapping[g.nodes[id].name] != ""
  {
  }

  /** Everything the loops before have established about the chosen names. */
  ghost predicate Named(g: Graph, inputs: seq<Tensor>, argNames: seq<string>, body: seq<nat>, nodeNames: seq<string>,
                        mapping: map<string, string>, ren: map<string, string>)
  {
    && WellFormed(g) && |argNames| == |inputs| && |nodeNames| == |body| && SeparateNames(argNames, nodeNames)
    && Renames(g, inputs, argNames, body, nodeNames, ren) && Mapped(g, inputs, argNames, body, nodeNames, mapping)
  }

  /** Rewrites one body node. It fails exactly if an input or a control source of the
      node is neither in the body nor among the inputs. */
  method EmitNode(g: Graph, id: nat, names: NodeNameMapping, ren: map<string, string>,
                  ghost inputs: seq<Tensor>, ghost argNames: seq<string>,
                  ghost body: seq<nat>, ghost nodeNames: seq<string>)
    returns (r: Result<NodeDef>)
    requires Named(g, inputs, argNames, body, nodeNames, names.mapping, ren) && id in g.nodes && id in body
    ensures r.Ok? <==> InputsAvailable(g, inputs, body, g.nodes[id])
    ensures r.Ok? ==> Emitted(g, inputs, body, argNames, nodeNames, g.nodes[id], nodeNames[LastIndexOf(body, id)],
                              r.value)
  {
    hide Renames, Mapped, SeparateNames, Renamed, InputOf, EdgeInto, ControlSources, LastFeed, ListsControls;
    var n := g.nodes[id];
    assert ValidNode(g, n);
    ControlIsMapped(g, inputs, argNames, body, nodeNames, names.mapping, id);
    var name := names.Lookup(n.name);
    var device := if n.assignedDevice != "" then n.assignedDevice else n.device;
    var slots, controls := CollectInputs(n);
    var input := [];
    for i := 0 to |slots|
      invariant |input| == i
      invariant forall k :: 0 <= k < i ==>
                  && InputOf(g, n, k).Some? && Available(g, inputs, body, InputOf(g, n, k).value)
                  && input[k] == Renamed(g, inputs, body, argNames, nodeNames, InputOf(g, n, k).value)
    {
      var s := DataInput(g, n, slots[i], i, ren, inputs, argNames, body, nodeNames);
      if s.Failed? {
        return Failed(s.error);
      }
      input := input + [s.value];
    }
    ghost var data := input;
    ControlSourcesValid(g, n.inEdges);
    for c := 0 to |controls|
      invariant |input| == |data| + c && input[..|data|] == data
      invariant forall k :: 0 <= k < c ==>
                  && Controllable(inputs, body, controls[k])
                  && input[|data| + k] == "^" + ControlName(inputs, body, argNames, nodeNames, controls[k])
    {
      ControlIsMapped(g, inputs, argNames, body, nodeNames, names.mapping, controls[c]);
      var normalized := names.Lookup(g.nodes[controls[c]].name);
      if normalized == "" {
        return Failed(ControlOutsideBody);
      }
      input := input + ["^" + normalized];
    }
    assert forall k :: 0 <= k < |data| ==> input[k] == data[k];
    return Ok(NodeDef(name, n.op, device, input));
  }

  ghost predicate BodyAvailable(g: Graph, inputs: seq<Tensor>, body: seq<nat>, n: nat)
    requires n <= |body|
  {
    forall k :: 0 <= k < n ==> body[k] in g.nodes && InputsAvailable(g, inputs, body, g.nodes[body[k]])
  }

  /** Emits the body in order; the function is stateful if one of its nodes is. */
  method FillFunctionBody(g: Graph, body: seq<nat>, names: NodeNameMapping, ren: map<string, string>,
                          ghost inputs: seq<Tensor>, ghost argNames: seq<string>, ghost nodeNames: seq<string>)
    returns (r: Result<seq<NodeDef>>, stateful: bool)
    requires Named(g, inputs, argNames, body, nodeNames, names.mapping, ren)
    requires forall k :: 0 <= k < |body| ==> body[k] in g.nodes
    ensures r.Ok? <==> BodyAvailable(g, inputs, body, |body|)
    ensures r.Ok? ==>
              && |r.value| == |body|
              && (forall k :: 0 <= k < |body| ==>
                    Emitted(g, inputs, body, argNames, nodeNames, g.nodes[body[k]],
                            nodeNames[LastIndexOf(body, body[k])], r.value[k]))
              && stateful == exists k :: 0 <= k < |body| && g.nodes[body[k]].op.stateful
  {
    hide Renames, Mapped, SeparateNames, Emitted, InputsAvailable, WellFormed;
    var nodes: seq<NodeDef> := [];
    stateful := false;
    for k := 0 to |body|
      invariant |nodes| == k && BodyAvailable(g, inputs, body, k)
      invariant forall m :: 0 <= m < k ==>
                  Emitted(g, inputs, body, argNames, nodeNames, g.nodes[body[m]],
                          nodeNames[LastIndexOf(body, body[m])], nodes[m])
      invariant stateful == exists m :: 0 <= m < k && g.nodes[body[m]].op.stateful
    {
      var d := EmitNode(g, body[k], names, ren, inputs, argNames, body, nodeNames);
      if d.Failed? {
        return Failed(d.error), stateful;
      }
      nodes := nodes + [d.value];
      if g.nodes[body[k]].op.stateful {
        stateful := true;
      }
    }
    r := Ok(nodes);
  }

  ghost predicate OutputsAvailable(g: Graph, inputs: seq<Tensor>, body: seq<nat>, outputs: seq<Tensor>) {
    forall i :: 0 <= i < |outputs| ==> Available(g, inputs, body, outputs[i])
  }

  method RemapReturns(g: Graph, outputs: seq<Tensor>, outArgs: seq<ArgDef>, ren: map<string, string>,
                      ghost mapping: map<string, string>,
                      ghost inputs: seq<Tensor>, ghost argNames: seq<string>,
                      ghost body: seq<nat>, ghost nodeNames: seq<string>)
    returns (r: Result<map<string, string>>)
    requires Named(g, inputs, argNames, body, nodeNames, mapping, ren)
    requires ArgsOf(g, outputs, outArgs) && Distinct(ArgNames(outArgs))
    ensures r.Ok? <==> OutputsAvailable(g, inputs, body, outputs)
    ensures r.Ok? ==>
              && r.value.Keys == (set i | 0 <= i < |outArgs| :: ArgNames(outArgs)[i])
              && (forall i :: 0 <= i < |outArgs| ==>
                    r.value[ArgNames(outArgs)[i]] == Renamed(g, inputs, body, argNames, nodeNames, outputs[i]))
  {
    hide Renames, Mapped, SeparateNames, Renamed, FlatName, WellFormed;
    var ret: map<string, string> := map[];
    for i := 0 to |outArgs|
      invariant forall k :: 0 <= k < i ==> Available(g, inputs, body, outputs[k])
      invariant ret.Keys == set k | 0 <= k < i :: ArgNames(outArgs)[k]
      invariant forall k :: 0 <= k < i ==>
                  ret[ArgNames(outArgs)[k]] == Renamed(g, inputs, body, argNames, nodeNames, outputs[k])
    {
      RenamesAvailable(g, inputs, argNames, body, nodeNames, ren, outputs[i]);
      var value := Key(g, outputs[i]);
      if value !in ren {
        return Failed(OutputNotAvailable);
      }
      ret := ret[outArgs[i].name := ren[value]];
      assert ArgNames(outArgs)[i] == outArgs[i].name;
    }
    r := Ok(ret);
  }

  /** The conversion. It succeeds exactly if given output names do not repeat and every
      tensor the body and the outputs read is available; then the result is the function.
      A node listed twice is not noticed. */
  method GraphToFunctionDef(g: Graph, body: seq<nat>, inputs: seq<Tensor>, outputs: seq<Tensor>,
                            outputNames: seq<string>)
    returns (r: Result<FunctionDef>)
    requires WellFormed(g) && Distinct(inputs)
    requires forall k :: 0 <= k < |body| ==> body[k] in g.nodes
    requires forall i :: 0 <= i < |inputs| ==> ValidTensor(g, inputs[i])
    requires forall i :: 0 <= i < |outputs| ==> ValidTensor(g, outputs[i])
    requires outputNames == [] || |outputNames| == |outputs|
    ensures r.Ok? <==>
            && Distinct(outputNames)
            && BodyAvailable(g, inputs, body, |body|) && OutputsAvailable(g, inputs, body, outputs)
    ensures r.Ok? ==> exists nodeNames :: TranslatesAs(g, inputs, outputs, body, r.value, nodeNames)
    ensures r.Ok? ==> (Distinct(body) ==> Translates(g, inputs, outputs, body, r.value))
    ensures r.Ok? ==> (Distinct(DefNames(r.value.nodes)) <==> Distinct(body))
    ensures r.Ok? && outputNames != [] ==> ArgNames(r.value.outputArgs) == outputNames
    ensures r.Ok? && outputNames == [] ==>
              forall i :: 0 <= i < |r.value.outputArgs| ==> IsArgName(r.value.outputArgs[i].name)
  {
    hide Renames, Mapped, SeparateNames, Emitted, InputsAvailable, WellFormed, IsArgName;
    var names := new NodeNameMapping();
    var ok, outArgs := FillOutputs(g, outputs, outputNames, names);
    if !ok {
      return Failed(RepeatedOutputName);
    }
    var inArgs, ren := FillInputs(g, inputs, names);
    ghost var argNames := ArgNames(inArgs);
    ghost var nodeNames;
    nodeNames, ren := RenameBody(g, inputs, argNames, body, names, ren);
    var nodes, stateful := FillFunctionBody(g, body, names, ren, inputs, argNames, nodeNames);
    if nodes.Failed? {
      return Failed(nodes.error);
    }
    var ret := RemapReturns(g, outputs, outArgs, ren, names.mapping, inputs, argNames, body, nodeNames);
    if ret.Failed? {
      return Failed(ret.error);
    }
    r := Ok(FunctionDef(inArgs, outArgs, nodes.value, ret.value, stateful));
    assert TranslatesAs(g, inputs, outputs, body, r.value, nodeNames);
    EmittedNames(g, inputs, outputs, body, r.value, nodeNames);
  }

  // ---- Arguments of the call ----

  ghost predicate Referenced(inputs: seq<Tensor>, id: nat) {
    exists i :: 0 <= i < |inputs| && inputs[i].node == id
  }

  /** An output that exists and is not a reference. */
  predicate Usable(g: Graph, t: Tensor) {
    ValidTensor(g, t) && !OutputType(g.nodes[t.node].op, t.index).isRef
  }

  /** Checks the inputs, and groups their indices by node. */
  method ProcessInputs(g: Graph, inputs: seq<Tensor>) returns (r: Result<map<nat, seq<nat>>>)
    requires forall i :: 0 <= i < |inputs| ==> inputs[i].node in g.nodes
    ensures r.Ok? <==> Distinct(inputs) && forall i :: 0 <= i < |inputs| ==> Usable(g, inputs[i])
    ensures r.Ok? ==> forall id :: id in r.value <==> Referenced(inputs, id)
    ensures r.Ok? ==> forall id, j: nat :: id in r.value ==> (j in r.value[id] <==> Tensor(id, j) in inputs)
  {
    hide Usable, Groups, Distinct;
    var nodes: map<nat, seq<nat>> := map[];
    NothingGrouped();
    for i := 0 to |inputs|
      invariant Distinct(inputs[..i]) && forall k :: 0 <= k < i ==> Usable(g, inputs[k])
      invariant Groups(nodes, inputs[..i])
    {
      var t := inputs[i];
      assert inputs[..i + 1] == inputs[..i] + [t];
      var ok := CheckOutput(g, t);
      if ok.Failed? {
        return Failed(ok.error);
      }
      GroupSnoc(nodes, inputs[..i], t);
      DistinctSnoc(inputs, i);
      if t.node !in nodes {
        nodes := nodes[t.node := [t.index]];
      } else {
        var indices := nodes[t.node];
        if t.index in indices {
          return Failed(RepeatedInput);
        }
        nodes := nodes[t.node := indices + [t.index]];
      }
    }
    assert inputs[..|inputs|] == inputs;
    GroupsUnfold(nodes, inputs);
    r := Ok(nodes);
  }

  /** The indices listed for each node of `inputs`. */
  ghost predicate Groups(nodes: map<nat, seq<nat>>, inputs: seq<Tensor>) {
    && (forall id :: id in nodes <==> Referenced(inputs, id))
    && (forall id, j: nat :: id in nodes ==> (j in nodes[id] <==> Tensor(id, j) in inputs))
  }

  lemma NothingGrouped()
    ensures Groups(map[], []) && Distinct<Tensor>([])
  {
  }

  lemma GroupsUnfold(nodes: map<nat, seq<nat>>, inputs: seq<Tensor>)
    requires Groups(nodes, inputs)
    ensures forall id :: id in nodes <==> Referenced(inputs, id)
    ensures forall id, j: nat :: id in nodes ==> (j in nodes[id] <==> Tensor(id, j) in inputs)
  {
  }

  lemma GroupSnoc(nodes: map<nat, seq<nat>>, inputs: seq<Tensor>, t: Tensor)
    requires Groups(nodes, inputs)
    ensures t.node in nodes && t.index in nodes[t.node] <==> t in inputs
    ensures t.node !in nodes ==> Groups(nodes[t.node := [t.index]], inputs + [t])
    ensures t.node in nodes ==> Groups(nodes[t.node := nodes[t.node] + [t.index]], inputs + [t])
  {
    ReferencedSnoc(inputs, t);
    assert Tensor(t.node, t.index) == t;
    assert t in inputs ==> Referenced(inputs, t.node);
    assert forall j: nat :: Tensor(t.node, j) in inputs ==> Referenced(inputs, t.node);
    hide Referenced;
    assert forall u :: u in inputs + [t] <==> u in inputs || u == t;
  }

  lemma DistinctSnoc(inputs: seq<Tensor>, i: nat)
    requires i < |inputs| && Distinct(inputs[..i])
    ensures inputs[i] in inputs[..i] ==> !Distinct(inputs)
    ensures inputs[i] !in inputs[..i] ==> Distinct(inputs[..i + 1])
  {
    if inputs[i] in inputs[..i] {
      var k :| 0 <= k < i && inputs[..i][k] == inputs[i];
      assert inputs[k] == inputs[i];
    }
  }

  lemma ReferencedSnoc(inputs: seq<Tensor>, t: Tensor)
    ensures forall id :: Referenced(inputs + [t], id) <==> Referenced(inputs, id) || id == t.node
  {
    forall id ensures Referenced(inputs + [t], id) <==> Referenced(inputs, id) || id == t.node {
      assert (inputs + [t])[|inputs|] == t;
      if Referenced(inputs, id) {
        var i :| 0 <= i < |inputs| && inputs[i].node == id;
        assert (inputs + [t])[i].node == id;
      }
    }
  }

  method CheckOutput(g: Graph, t: Tensor) returns (r: Result<()>)
    requires t.node in g.nodes
    ensures r.Ok? <==> Usable(g, t)
    ensures r.Failed? ==> r.error == if ValidTensor(g, t) then ReferenceType else NoSuchOutput
  {
    if t.index >= NumOutputs(g.nodes[t.node].op) {
      return Failed(NoSuchOutput);
    }
    if OutputType(g.nodes[t.node].op, t.index).isRef {
      return Failed(ReferenceType);
    }
    return Ok(());
  }

  method ProcessOutputs(g: Graph, outputs: seq<Tensor>) returns (r: Result<()>)
    requires forall i :: 0 <= i < |outputs| ==> outputs[i].node in g.nodes
    ensures r.Ok? <==> forall i :: 0 <= i < |outputs| ==> Usable(g, outputs[i])
  {
    for i := 0 to |outputs|
      invariant forall k :: 0 <= k < i ==> Usable(g, outputs[k])
    {
      var ok := CheckOutput(g, outputs[i]);
      if ok.Failed? {
        return ok;
      }
    }
    r := Ok(());
  }

  /** The body of the function: the given operations, or without them all operations of
      the graph that are not referenced in the inputs, in id order. */
  ghost predicate IsBody(g: Graph, opers: Option<seq<nat>>, inputs: seq<Tensor>, body: seq<nat>) {
    match opers
    case Some(ids) => body == ids
    case None =>
      && (forall i, j :: 0 <= i < j < |body| ==> body[i] < body[j])
      && (forall id :: id in body <==> id in g.nodes && FIRST_OP_ID <= id < g.numIds && !Referenced(inputs, id))
  }

  ghost predicate SingleOutputInputs(g: Graph, inputs: seq<Tensor>) {
    forall id :: id in g.nodes && FIRST_OP_ID <= id < g.numIds && Referenced(inputs, id) ==>
      NumOutputs(g.nodes[id].op) == 1
  }

  method ComputeBodyNodes(g: Graph, opers: Option<seq<nat>>, inputs: seq<Tensor>, inputNodes: map<nat, seq<nat>>)
    returns (r: Result<seq<nat>>)
    requires forall id :: id in inputNodes <==> Referenced(inputs, id)
    ensures r.Ok? <==> opers.None? ==> SingleOutputInputs(g, inputs)
    ensures r.Ok? ==> IsBody(g, opers, inputs, r.value)
  {
    hide Referenced;
    if opers.Some? {
      return Ok(opers.value);
    }
    var body: seq<nat> := [];
    for id := 0 to g.numIds
      invariant forall k :: 0 <= k < |body| ==> body[k] < id
      invariant forall i, j :: 0 <= i < j < |body| ==> body[i] < body[j]
      invariant forall x :: x in body <==> x in g.nodes && FIRST_OP_ID <= x < id && !Referenced(inputs, x)
      invariant forall x :: x in g.nodes && FIRST_OP_ID <= x < id && Referenced(inputs, x) ==>
                NumOutputs(g.nodes[x].op) == 1
    {
      if id >= FIRST_OP_ID && id in g.nodes {
        if id !in inputNodes {
          body := body + [id];
        } else if NumOutputs(g.nodes[id].op) != 1 {
          return Failed(SeveralOutputs);
        }
      }
    }
    r := Ok(body);
  }

  /** When a call with these arguments succeeds. */
  ghost predicate Convertible(g: Graph, opers: Option<seq<nat>>, inputs: seq<Tensor>, outputs: seq<Tensor>,
                              outputNames: seq<string>, body: seq<nat>) {
    && Distinct(inputs) && (forall i :: 0 <= i < |inputs| ==> Usable(g, inputs[i]))
    && (forall i :: 0 <= i < |outputs| ==> Usable(g, outputs[i]))
    && (opers.None? ==> SingleOutputInputs(g, inputs))
    && Distinct(outputNames) && BodyAvailable(g, inputs, body, |body|) && OutputsAvailable(g, inputs, body, outputs)
  }

  /** The whole call, with its exact success condition. */
  method GraphToFunction(g: Graph, opers: Option<seq<nat>>, inputs: seq<Tensor>, outputs: seq<Tensor>,
                         outputNames: seq<string>)
    returns (r: Result<FunctionDef>)
    requires WellFormed(g)
    requires opers.Some? ==> forall k :: 0 <= k < |opers.value| ==> opers.value[k] in g.nodes
    requires forall i :: 0 <= i < |inputs| ==> inputs[i].node in g.nodes
    requires forall i :: 0 <= i < |outputs| ==> outputs[i].node in g.nodes
    requires outputNames == [] || |outputNames| == |outputs|
    ensures forall body: seq<nat> :: IsBody(g, opers, inputs, body) ==>
              (r.Ok? <==> Convertible(g, opers, inputs, outputs, outputNames, body))
    ensures r.Ok? ==> exists body: seq<nat>, nodeNames: seq<string> ::
              && IsBody(g, opers, inputs, body)
              && TranslatesAs(g, inputs, outputs, body, r.value, nodeNames)
              && (Distinct(body) ==> Translates(g, inputs, outputs, body, r.value))
              && (Distinct(DefNames(r.value.nodes)) <==> Distinct(body))
  {
    hide WellFormed, Usable, Translates, TranslatesAs, BodyAvailable, OutputsAvailable, SingleOutputInputs;
    var inputNodes := ProcessInputs(g, inputs);
    if inputNodes.Failed? {
      return Failed(inputNodes.error);
    }
    var checked := ProcessOutputs(g, outputs);
    if checked.Failed? {
      return Failed(checked.error);
    }
    var body := ComputeBodyNodes(g, opers, inputs, inputNodes.value);
    if body.Failed? {
      return Failed(body.error);
    }
    UsableIsValid(g, inputs);
    UsableIsValid(g, outputs);
    forall other: seq<nat> | IsBody(g, opers, inputs, other) ensures other == body.value {
      BodyUnique(g, opers, inputs, other, body.value);
    }
    r := GraphToFunctionDef(g, body.value, inputs, outputs, outputNames);
  }

  const CONSTANT := Op("Const", map[], 0, [OutputArg("output", [DataType(1, false)])], false)

  /** One constant, listed twice. */
  ghost const ONE_CONSTANT := Graph(3, map[2 := Node("c", CONSTANT, "", "", [], [])])

  /** An operation listed twice is not refused. */
  lemma RepeatedIsConvertible()
    ensures WellFormed(ONE_CONSTANT) && !Distinct([2, 2]) && IsBody(ONE_CONSTANT, Some([2, 2]), [], [2, 2])
    ensures Convertible(ONE_CONSTANT, Some([2, 2]), [], [Tensor(2, 0)], [], [2, 2])
  {
    var g, body: seq<nat> := ONE_CONSTANT, [2, 2];
    assert !Distinct(body) by { assert body[0] == body[1]; }
    assert NumOutputs(CONSTANT) == 1 by {
      assert Start(CONSTANT.outputs, 0) == 0;
    }
    assert OutputType(CONSTANT, 0) == DataType(1, false);
    assert Usable(g, Tensor(2, 0)) && Available(g, [], body, Tensor(2, 0));
    assert ControlSources([]) == [] && InputsAvailable(g, [], body, g.nodes[2]);
  }

  /** A body that is not given holds every operation the inputs do not mention, and neither
      the Source nor the Sink, which have the ids 0 and 1. */
  lemma ImpliedBody(g: Graph, inputs: seq<Tensor>, body: seq<nat>)
    requires WellFormed(g) && IsBody(g, None, inputs, body)
    ensures 0 !in body && 1 !in body
    ensures forall id :: id in g.nodes && id >= 2 ==>
              (id in body <==> forall i :: 0 <= i < |inputs| ==> inputs[i].node != id)
  {
  }

  lemma UsableIsValid(g: Graph, ts: seq<Tensor>)
    requires forall i :: 0 <= i < |ts| ==> Usable(g, ts[i])
    ensures forall i :: 0 <= i < |ts| ==> ValidTensor(g, ts[i])
  {
  }

  /** The body is determined by the call. */
  lemma BodyUnique(g: Graph, opers: Option<seq<nat>>, inputs: seq<Tensor>, a: seq<nat>, b: seq<nat>)
    requires IsBody(g, opers, inputs, a) && IsBody(g, opers, inputs, b)
    ensures a == b
  {
    if opers.None? {
      AscendingUnique(a, b);
    }
  }

  ghost predicate Ascending(s: seq<nat>) {
    forall i, j :: 0 <= i < j < |s| ==> s[i] < s[j]
  }

  /** The last element is the largest, and what is before it are the others. */
  lemma AscendingLast(s: seq<nat>)
    requires Ascending(s) && s != []
    ensures var x, front := s[|s| - 1], s[..|s| - 1];
            && s == front + [x] && Ascending(front) && x in s
            && forall y :: y in front <==> y in s && y < x
    ensures forall y :: y in s ==> y <= s[|s| - 1]
  {
    var x, front := s[|s| - 1], s[..|s| - 1];
    forall y | y in s ensures y in front || y == x {
      var i :| 0 <= i < |s| && s[i] == y;
      assert i < |front| ==> front[i] == y;
    }
  }

  lemma {:induction false} AscendingUnique(a: seq<nat>, b: seq<nat>)
    requires Ascending(a) && Ascending(b) && forall x :: x in a <==> x in b
    ensures a == b
  {
    assert (a != [] ==> a[0] in b) && (b != [] ==> b[0] in a);
    if a != [] {
      hide Ascending;
      AscendingLast(a);
      AscendingLast(b);
      AscendingUnique(a[..|a| - 1], b[..|b| - 1]);
    }
  }
}
