/** The driver `translateInto`: unfold the flow with the rule-table
    acceptor, translate every DAG node with its first admitting rule,
    persist expensive shared outputs, and hand leaf outputs to their sinks. */
module FlowTranslator {
  import opened Wrappers
  import opened Operators
  import opened TranslationTable
  import opened Acceptors

  /** The storage level outputs are persisted with; opaque here. */
  datatype StorageLevel = StorageLevel(name: string)

  /** How an output was marked for persisting: its new name and level. */
  datatype Persisted = Persisted(name: string, level: StorageLevel)

  /** The dataset a translator produced for an operator; the translator's
      work itself is opaque, so the dataset records who made it from what. */
  datatype Dataset = Dataset(source: Operator, translator: Translator, persisted: Option<Persisted>)

  /** The data handed to a sink for writing out. */
  datatype SinkHandoff = SinkHandoff(sink: Sink, data: Dataset)

  /** Why `translateInto` stopped: the unfolder rejected the flow, rule
      selection failed for a node, or a leaf with a sink had no recorded
      output (`requireNonNull` throws). In the last case the sinks of the
      earlier leaves have already been written: `written` holds those writes. */
  datatype DriverError =
    | InvalidFlow
    | SelectionFailed(error: TranslateError)
    | MissingOutput(op: Operator, written: seq<SinkHandoff>)

  /** What the sink loop produces: the returned sinks and the handoffs. */
  datatype Collected = Collected(sinks: seq<Sink>, handoffs: seq<SinkHandoff>)

  /** What a successful translation leaves behind: the executor context's
      outputs by operator, the sink handoffs, and the returned sinks. */
  datatype Translated = Translated(
    outputs: map<Operator, Dataset>,
    handoffs: seq<SinkHandoff>,
    sinks: seq<Sink>)

  /** The persist decision: the output has more than one consumer and the
      operator carries the EXPENSIVE hint. */
  predicate ShouldPersist(node: Node)
    ensures ShouldPersist(node) ==> node.children >= 2
    ensures Expensive !in node.op.hints ==> !ShouldPersist(node)
    ensures node.children >= 2 && Expensive in node.op.hints ==> ShouldPersist(node)
  {
    node.children > 1 && Expensive in node.op.hints
  }

  /** Whether a node's operator has an output sink. */
  predicate HasSink(node: Node)
  {
    node.op.sink.Some?
  }

  /** The operators of the leaves that have a sink, in leaf order. */
  function SinkLeaves(leaves: seq<Node>): (ops: seq<Operator>)
    ensures |ops| <= |leaves|
    ensures forall op :: op in ops <==> exists i :: 0 <= i < |leaves| && HasSink(leaves[i]) && leaves[i].op == op
    ensures forall k :: 0 <= k < |ops| ==> ops[k].sink.Some?
    ensures |leaves| == 1 ==> ops == (if HasSink(leaves[0]) then [leaves[0].op] else [])
  {
    if |leaves| == 0 then []
    else (if HasSink(leaves[0]) then [leaves[0].op] else []) + SinkLeaves(leaves[1..])
  }

  /** No operator is held by two nodes, as in a DAG. */
  predicate DistinctOperators(nodes: seq<Node>)
  {
    forall i, j :: 0 <= i < j < |nodes| ==> nodes[i].op != nodes[j].op
  }

  /** What `translateInto` records for the operators of `nodes`: every
      operator has an output, produced by the translator of its selected
      rule and persisted, under the operator's name with a "-persisted"
      suffix, exactly when its node is shared and expensive. */
  ghost predicate OutputsRecorded(
    t: Table, ctx: AcceptorContext, level: StorageLevel, nodes: seq<Node>, outputs: map<Operator, Dataset>)
  {
    && (forall i :: 0 <= i < |nodes| ==> nodes[i].op in outputs)
    && (forall op :: op in outputs ==>
          exists i :: 0 <= i < |nodes| && nodes[i].op == op && RecordedFor(t, ctx, level, nodes[i], outputs[op]))
  }

  /** The dataset recorded for a node's operator: made from that operator by
      its selected rule's translator, and persisted under the operator's
      name with a "-persisted" suffix exactly when the node is shared and
      expensive. */
  ghost predicate RecordedFor(t: Table, ctx: AcceptorContext, level: StorageLevel, node: Node, d: Dataset)
  {
    && d.source == node.op
    && SelectRule(t, node.op, ctx).Success?
    && d.translator == SelectRule(t, node.op, ctx).value.translator
    && (d.persisted.Some? <==> ShouldPersist(node))
    && (d.persisted.Some? ==> d.persisted.value == Persisted(node.op.name + "-persisted", level))
  }

  /** The translation loop of `translateInto`: nodes in traversal order,
      each with its first admitting rule; the first node without one stops
      the loop with its selection error. */
  method TranslateNodes(t: Table, ctx: AcceptorContext, level: StorageLevel, nodes: seq<Node>)
    returns (r: Result<map<Operator, Dataset>, TranslateError>)
    ensures r.Success? <==> forall i :: 0 <= i < |nodes| ==> SelectRule(t, nodes[i].op, ctx).Success?
    ensures r.Failure? ==>
              exists i :: 0 <= i < |nodes|
                && SelectRule(t, nodes[i].op, ctx) == Failure(r.error)
                && forall j :: 0 <= j < i ==> SelectRule(t, nodes[j].op, ctx).Success?
    ensures r.Success? ==> OutputsRecorded(t, ctx, level, nodes, r.value)
    ensures r.Success? && DistinctOperators(nodes) ==> PersistedPerNode(nodes, r.value)
  {
    var outputs: map<Operator, Dataset> := map[];
    var i := 0;
    while i < |nodes|
      invariant 0 <= i <= |nodes|
      invariant forall j :: 0 <= j < i ==> SelectRule(t, nodes[j].op, ctx).Success?
      invariant OutputsRecorded(t, ctx, level, nodes[..i], outputs)
    {
      var node := nodes[i];
      var op := node.op;
      var selected := SelectRule(t, op, ctx);
      if selected.Failure? {
        return Failure(selected.error);
      }
      var persisted := None;
      if node.children > 1 && Expensive in op.hints {
        persisted := Some(Persisted(op.name + "-persisted", level));
      }
      var out := Dataset(op, selected.value.translator, persisted);
      OutputsRecordedStep(t, ctx, level, nodes, i, outputs, out);
      outputs := outputs[op := out];
      i := i + 1;
    }
    assert nodes[..i] == nodes;
    if DistinctOperators(nodes) {
      PersistFollowsOwnNode(t, ctx, level, nodes, outputs);
    }
    return Success(outputs);
  }

  /** Every node's output is recorded and persisted exactly when that very
      node is shared and expensive. */
  ghost predicate PersistedPerNode(nodes: seq<Node>, outputs: map<Operator, Dataset>)
  {
    forall i :: 0 <= i < |nodes| ==>
      nodes[i].op in outputs && (outputs[nodes[i].op].persisted.Some? <==> ShouldPersist(nodes[i]))
  }

  /** When no two nodes hold the same operator, the node that recorded an
      operator's output is the operator's only node, so each node's own
      persist decision is the one recorded. */
  lemma PersistFollowsOwnNode(
    t: Table, ctx: AcceptorContext, level: StorageLevel, nodes: seq<Node>, outputs: map<Operator, Dataset>)
    requires OutputsRecorded(t, ctx, level, nodes, outputs)
    requires DistinctOperators(nodes)
    ensures PersistedPerNode(nodes, outputs)
  {
    forall i | 0 <= i < |nodes|
      ensures outputs[nodes[i].op].persisted.Some? <==> ShouldPersist(nodes[i])
    {
      var op := nodes[i].op;
      var j :| 0 <= j < |nodes| && nodes[j].op == op && RecordedFor(t, ctx, level, nodes[j], outputs[op]);
      assert !(j < i) && !(i < j);
    }
  }

  /** Recording the output of node `i` extends what is recorded for the
      first `i` nodes to the first `i + 1`. */
  lemma OutputsRecordedStep(
    t: Table, ctx: AcceptorContext, level: StorageLevel, nodes: seq<Node>, i: nat,
    outputs: map<Operator, Dataset>, out: Dataset)
    requires i < |nodes|
    requires OutputsRecorded(t, ctx, level, nodes[..i], outputs)
    requires SelectRule(t, nodes[i].op, ctx).Success?
    requires out.source == nodes[i].op
    requires out.translator == SelectRule(t, nodes[i].op, ctx).value.translator
    requires out.persisted == (if ShouldPersist(nodes[i])
                               then Some(Persisted(nodes[i].op.name + "-persisted", level)) else None)
    ensures OutputsRecorded(t, ctx, level, nodes[..i + 1], outputs[nodes[i].op := out])
  {
    var prefix := nodes[..i + 1];
    var outputs' := outputs[nodes[i].op := out];
    assert prefix[i] == nodes[i];
    forall j | 0 <= j < |prefix|
      ensures prefix[j].op in outputs'
    {
      if j < i {
        assert prefix[j] == nodes[..i][j];
      }
    }
    assert RecordedFor(t, ctx, level, prefix[i], out);
    forall o | o in outputs'
      ensures exists j :: 0 <= j < |prefix| && prefix[j].op == o && RecordedFor(t, ctx, level, prefix[j], outputs'[o])
    {
      if o != nodes[i].op {
        var j :| 0 <= j < i && nodes[..i][j].op == o && RecordedFor(t, ctx, level, nodes[..i][j], outputs[o]);
        assert prefix[j] == nodes[..i][j];
      }
    }
  }

  /** The first `|handoffs|` operators of `ops` have recorded outputs, and
      each output was handed to its operator's sink, in that order. */
  ghost predicate WrittenInOrder(ops: seq<Operator>, outputs: map<Operator, Dataset>, handoffs: seq<SinkHandoff>)
  {
    && |handoffs| <= |ops|
    && forall k :: 0 <= k < |handoffs| ==>
         && ops[k] in outputs
         && ops[k].sink.Some?
         && handoffs[k] == SinkHandoff(ops[k].sink.value, outputs[ops[k]])
  }

  /** The leaves with a sink hand their outputs over, in leaf order, and
      their sinks are what `translateInto` returns. */
  ghost predicate SinksHandedOff(
    leaves: seq<Node>, outputs: map<Operator, Dataset>, sinks: seq<Sink>, handoffs: seq<SinkHandoff>)
  {
    var ops := SinkLeaves(leaves);
    && |sinks| == |ops| == |handoffs|
    && WrittenInOrder(ops, outputs, handoffs)
    && forall k :: 0 <= k < |ops| ==> sinks[k] == ops[k].sink.value
  }

  /** The sink loop of `translateInto`: every leaf whose operator has an
      output sink contributes its sink and hands its recorded output to it.
      The first such leaf without a recorded output stops the loop, after
      the writes for the sink leaves before it. */
  method CollectSinks(leaves: seq<Node>, outputs: map<Operator, Dataset>)
    returns (r: Result<Collected, DriverError>)
    ensures r.Success? <==> forall op :: op in SinkLeaves(leaves) ==> op in outputs
    ensures r.Failure? ==>
              && r.error.MissingOutput?
              && |r.error.written| < |SinkLeaves(leaves)|
              && SinkLeaves(leaves)[|r.error.written|] == r.error.op
              && r.error.op !in outputs
              && WrittenInOrder(SinkLeaves(leaves), outputs, r.error.written)
    ensures r.Success? ==> SinksHandedOff(leaves, outputs, r.value.sinks, r.value.handoffs)
  {
    var sinks := [];
    var handoffs := [];
    var n := 0;
    while n < |leaves|
      invariant 0 <= n <= |leaves|
      invariant SinksHandedOff(leaves[..n], outputs, sinks, handoffs)
    {
      var op := leaves[n].op;
      SinkLeavesSnoc(leaves, n);
      if op.sink.Some? {
        if op !in outputs {
          FirstMissingOutput(leaves, n, outputs, handoffs);
          return Failure(MissingOutput(op, handoffs));
        }
        var sink := op.sink.value;
        sinks := sinks + [sink];
        handoffs := handoffs + [SinkHandoff(sink, outputs[op])];
      }
      n := n + 1;
    }
    assert leaves[..n] == leaves;
    return Success(Collected(sinks, handoffs));
  }

  /** A sink leaf without an output, reached after the writes for the sink
      leaves before it, is the first sink leaf without an output, and those
      writes are the first ones of the whole leaf sequence. */
  lemma FirstMissingOutput(leaves: seq<Node>, n: nat, outputs: map<Operator, Dataset>, handoffs: seq<SinkHandoff>)
    requires n < |leaves| && HasSink(leaves[n]) && leaves[n].op !in outputs
    requires |handoffs| == |SinkLeaves(leaves[..n])|
    requires WrittenInOrder(SinkLeaves(leaves[..n]), outputs, handoffs)
    ensures |handoffs| < |SinkLeaves(leaves)|
    ensures SinkLeaves(leaves)[|handoffs|] == leaves[n].op
    ensures WrittenInOrder(SinkLeaves(leaves), outputs, handoffs)
  {
    SinkLeavesSnoc(leaves, n);
    SinkLeavesSplit(leaves, n + 1);
    var before := SinkLeaves(leaves[..n]);
    var all := SinkLeaves(leaves);
    assert all == before + [leaves[n].op] + SinkLeaves(leaves[n + 1..]);
    assert forall k :: 0 <= k < |handoffs| ==> all[k] == before[k];
  }

  /** Whether every node's operator has a rule that admits it. */
  ghost predicate AllSelect(t: Table, ctx: AcceptorContext, nodes: seq<Node>)
  {
    forall i :: 0 <= i < |nodes| ==> SelectRule(t, nodes[i].op, ctx).Success?
  }

  /** Whether every leaf with a sink holds an operator of some DAG node. */
  ghost predicate SinkLeavesInDag(dag: Dag)
  {
    forall op :: op in SinkLeaves(dag.leaves) ==> exists i :: 0 <= i < |dag.nodes| && dag.nodes[i].op == op
  }

  /** `translateInto`. The flow unfolder is opaque: `unfold` maps the
      acceptance decision to the DAG, or to nothing when it rejects the
      flow. The unfolder's context and the selection context are built from
      the same comparator map, so they are one value here. Selection fails
      exactly when some node has no admitting rule, never when the unfolder
      kept only accepted operators. A leaf with a sink whose operator is no
      node of the DAG has no recorded output. On success every operator's
      output is recorded and every leaf with a sink hands its output over. */
  method TranslateInto(
    t: Table, order: seq<JClass>, comparators: map<JClass, Comparator>,
    level: StorageLevel, unfold: (Operator -> bool) -> Option<Dag>)
    returns (r: Result<Translated, DriverError>)
    requires IsEnumeration(order, t)
    ensures var u := unfold(DagAcceptor(t, order, AcceptorContext(comparators)));
            (r.Failure? && r.error.InvalidFlow?) <==> u.None?
    ensures var ctx := AcceptorContext(comparators);
            var u := unfold(DagAcceptor(t, order, ctx));
            r.Success? <==> u.Some? && AllSelect(t, ctx, u.value.nodes) && SinkLeavesInDag(u.value)
    ensures var ctx := AcceptorContext(comparators);
            var u := unfold(DagAcceptor(t, order, ctx));
            (r.Failure? && r.error.SelectionFailed?) <==> u.Some? && !AllSelect(t, ctx, u.value.nodes)
    ensures var ctx := AcceptorContext(comparators);
            var u := unfold(DagAcceptor(t, order, ctx));
            r.Failure? && r.error.SelectionFailed? ==>
              && u.Some?
              && exists i :: 0 <= i < |u.value.nodes|
                   && SelectRule(t, u.value.nodes[i].op, ctx) == Failure(r.error.error)
                   && forall j :: 0 <= j < i ==> SelectRule(t, u.value.nodes[j].op, ctx).Success?
    ensures var ctx := AcceptorContext(comparators);
            var u := unfold(DagAcceptor(t, order, ctx));
            r.Failure? && r.error.MissingOutput? ==>
              && u.Some?
              && SinkWritesBefore(t, ctx, u.value, r.error.op, r.error.written)
    ensures var ctx := AcceptorContext(comparators);
            var u := unfold(DagAcceptor(t, order, ctx));
            u.Some? && (forall i :: 0 <= i < |u.value.nodes| ==> DagAcceptor(t, order, ctx)(u.value.nodes[i].op)) ==>
              AllSelect(t, ctx, u.value.nodes)
    ensures var ctx := AcceptorContext(comparators);
            var u := unfold(DagAcceptor(t, order, ctx));
            r.Success? ==>
              && u.Some?
              && OutputsRecorded(t, ctx, level, u.value.nodes, r.value.outputs)
              && SinksHandedOff(u.value.leaves, r.value.outputs, r.value.sinks, r.value.handoffs)
              && (DistinctOperators(u.value.nodes) ==> PersistedPerNode(u.value.nodes, r.value.outputs))
  {
    var context := AcceptorContext(comparators);
    var unfolded := unfold(DagAcceptor(t, order, context));
    if unfolded.None? {
      return Failure(InvalidFlow);
    }
    var dag := unfolded.value;
    var nodes := dag.nodes;
    forall i | 0 <= i < |nodes|
      ensures DagAcceptor(t, order, context)(nodes[i].op) <==> SelectRule(t, nodes[i].op, context).Success?
    {
      AcceptedIffTranslatable(t, order, context, nodes[i].op);
    }
    var translated := TranslateNodes(t, context, level, nodes);
    if translated.Failure? {
      return Failure(SelectionFailed(translated.error));
    }
    var outputs := translated.value;
    OutputsCoverExactlyNodes(t, context, level, nodes, outputs);
    var collected := CollectSinks(dag.leaves, outputs);
    if collected.Failure? {
      MissingOutputExplained(t, context, level, dag, outputs, collected.error.op, collected.error.written);
      return Failure(collected.error);
    }
    return Success(Translated(outputs, collected.value.handoffs, collected.value.sinks));
  }

  /** What a sink-loop failure at `op` means for the DAG: `op` is the first
      leaf with a sink that no node holds, and the writes before it handed
      each earlier sink the output its operator's selected translator made. */
  ghost predicate SinkWritesBefore(t: Table, ctx: AcceptorContext, dag: Dag, op: Operator, written: seq<SinkHandoff>)
  {
    var ops := SinkLeaves(dag.leaves);
    && |written| < |ops|
    && ops[|written|] == op
    && (forall i :: 0 <= i < |dag.nodes| ==> dag.nodes[i].op != op)
    && forall k :: 0 <= k < |written| ==>
         && ops[k].sink.Some?
         && written[k].sink == ops[k].sink.value
         && written[k].data.source == ops[k]
         && SelectRule(t, ops[k], ctx).Success?
         && written[k].data.translator == SelectRule(t, ops[k], ctx).value.translator
  }

  /** A sink-loop failure over the recorded outputs of a DAG's nodes is
      explained by the DAG alone. */
  lemma MissingOutputExplained(
    t: Table, ctx: AcceptorContext, level: StorageLevel, dag: Dag, outputs: map<Operator, Dataset>,
    op: Operator, written: seq<SinkHandoff>)
    requires OutputsRecorded(t, ctx, level, dag.nodes, outputs)
    requires forall o :: o in outputs <==> exists i :: 0 <= i < |dag.nodes| && dag.nodes[i].op == o
    requires |written| < |SinkLeaves(dag.leaves)|
    requires SinkLeaves(dag.leaves)[|written|] == op
    requires op !in outputs
    requires WrittenInOrder(SinkLeaves(dag.leaves), outputs, written)
    ensures SinkWritesBefore(t, ctx, dag, op, written)
  {
    var ops := SinkLeaves(dag.leaves);
    forall k | 0 <= k < |written|
      ensures && written[k].data.source == ops[k]
              && SelectRule(t, ops[k], ctx).Success?
              && written[k].data.translator == SelectRule(t, ops[k], ctx).value.translator
    {
      assert ops[k] in outputs;
    }
  }

  /** The recorded outputs are those of the DAG's operators and no others. */
  lemma OutputsCoverExactlyNodes(
    t: Table, ctx: AcceptorContext, level: StorageLevel, nodes: seq<Node>, outputs: map<Operator, Dataset>)
    requires OutputsRecorded(t, ctx, level, nodes, outputs)
    ensures forall op :: op in outputs <==> exists i :: 0 <= i < |nodes| && nodes[i].op == op
  {
  }

  /** Extending the scanned prefix by one leaf extends the prefix's sink
      leaves by that leaf's operator when it has a sink. */
  lemma {:induction false} SinkLeavesSnoc(leaves: seq<Node>, n: nat)
    requires n < |leaves|
    ensures SinkLeaves(leaves[..n + 1]) ==
            SinkLeaves(leaves[..n]) + (if HasSink(leaves[n]) then [leaves[n].op] else [])
  {
    SinkLeavesConcat(leaves[..n], [leaves[n]]);
    assert leaves[..n + 1] == leaves[..n] + [leaves[n]];
  }

  /** The sink leaves of the whole sequence begin with those of any prefix. */
  lemma {:induction false} SinkLeavesSplit(leaves: seq<Node>, n: nat)
    requires n <= |leaves|
    ensures SinkLeaves(leaves) == SinkLeaves(leaves[..n]) + SinkLeaves(leaves[n..])
  {
    SinkLeavesConcat(leaves[..n], leaves[n..]);
    assert leaves == leaves[..n] + leaves[n..];
  }

  /** The sink leaves of a concatenation are those of each part in turn. */
  lemma {:induction false} SinkLeavesConcat(a: seq<Node>, b: seq<Node>)
    ensures SinkLeaves(a + b) == SinkLeaves(a) + SinkLeaves(b)
    decreases |a|
  {
    if |a| == 0 {
      assert a + b == b;
    } else {
      assert (a + b)[1..] == a[1..] + b;
      SinkLeavesConcat(a[1..], b);
    }
  }
}
