/** The acceptors derived from the rule table, their index by class, and
    the decision `flowToDag` hands to the flow unfolder: which operators
    stay in the DAG as they are. */
module Acceptors {
  import opened Wrappers
  import opened Operators
  import opened TranslationTable

  /** `TranslateAcceptor`: a fixed operator class and the optional
      predicate of the rule it was made from. */
  datatype TranslateAcceptor = TranslateAcceptor(typ: JClass, accept: Option<Predicate>)

  /** Acceptors grouped by their class. */
  type AcceptorIndex = map<JClass, seq<TranslateAcceptor>>

  /** `TranslateAcceptor.test`: the operator's class is exactly the
      acceptor's class, and the predicate is absent or holds. */
  predicate AcceptorTest(acc: TranslateAcceptor, op: Operator, ctx: AcceptorContext)
    ensures AcceptorTest(acc, op, ctx) ==> op.cls == acc.typ
    ensures acc.accept.None? ==> (AcceptorTest(acc, op, ctx) <==> op.cls == acc.typ)
    ensures acc.accept.Some? && !acc.accept.value(op, ctx) ==> !AcceptorTest(acc, op, ctx)
  {
    acc.typ == op.cls && (acc.accept.None? || acc.accept.value(op, ctx))
  }

  /** An acceptor made from a rule of class `c` says yes exactly when the
      operator is of class `c` and the rule admits it. */
  lemma AcceptorAgreesWithRule(c: JClass, rule: Translation, op: Operator, ctx: AcceptorContext)
    ensures AcceptorTest(TranslateAcceptor(c, rule.accept), op, ctx) <==> op.cls == c && Admits(rule, op, ctx)
  {
  }

  /** The acceptors made from one class's rules, in the rules' order. */
  function AcceptorsFor(c: JClass, rules: seq<Translation>): (accs: seq<TranslateAcceptor>)
    ensures |accs| == |rules|
    ensures forall i :: 0 <= i < |rules| ==> accs[i] == TranslateAcceptor(c, rules[i].accept)
  {
    seq(|rules|, i requires 0 <= i < |rules| => TranslateAcceptor(c, rules[i].accept))
  }

  /** The acceptors of class `c` in `accs`, in their order there. */
  function OfType(accs: seq<TranslateAcceptor>, c: JClass): (r: seq<TranslateAcceptor>)
    ensures |r| <= |accs|
  {
    if |accs| == 0 then []
    else
      var last := accs[|accs| - 1];
      OfType(accs[..|accs| - 1], c) + (if last.typ == c then [last] else [])
  }

  /** Filtering by class distributes over concatenation. */
  lemma {:induction false} OfTypeConcat(a: seq<TranslateAcceptor>, b: seq<TranslateAcceptor>, c: JClass)
    ensures OfType(a + b, c) == OfType(a, c) + OfType(b, c)
    decreases |b|
  {
    if |b| == 0 {
      assert a + b == a;
    } else {
      var b' := b[..|b| - 1];
      assert (a + b)[..|a + b| - 1] == a + b';
      OfTypeConcat(a, b', c);
    }
  }

  /** A class's acceptors filtered by a class: all of them when the classes
      agree, none otherwise. */
  lemma {:induction false} OfTypeAcceptorsFor(c': JClass, rules: seq<Translation>, c: JClass)
    ensures OfType(AcceptorsFor(c', rules), c) == (if c' == c then AcceptorsFor(c', rules) else [])
    decreases |rules|
  {
    if |rules| > 0 {
      var rules' := rules[..|rules| - 1];
      assert AcceptorsFor(c', rules)[..|rules| - 1] == AcceptorsFor(c', rules');
      OfTypeAcceptorsFor(c', rules', c);
      if c' == c {
        assert AcceptorsFor(c', rules) == AcceptorsFor(c', rules') + [AcceptorsFor(c', rules)[|rules| - 1]];
      }
    }
  }

  /** No class appears twice. */
  predicate Distinct(order: seq<JClass>)
  {
    forall i, j :: 0 <= i < j < |order| ==> order[i] != order[j]
  }

  /** `order` lists every class of the table exactly once: the iteration
      order of the table's entry set, which the identity hash map fixes. */
  predicate IsEnumeration(order: seq<JClass>, t: Table)
  {
    && Distinct(order)
    && (forall i :: 0 <= i < |order| ==> order[i] in t)
    && (forall c :: c in t ==> c in order)
  }

  /** The acceptors of the entries listed in `order`, each entry's rules
      in registration order. Filtering the result by a class gives that
      class's acceptors when it is listed, and nothing otherwise. */
  function AcceptorsInOrder(t: Table, order: seq<JClass>): (accs: seq<TranslateAcceptor>)
    requires forall i :: 0 <= i < |order| ==> order[i] in t
    requires Distinct(order)
    ensures forall c :: OfType(accs, c) == (if c in order then AcceptorsFor(c, t[c]) else [])
  {
    if |order| == 0 then []
    else
      var head := AcceptorsFor(order[0], t[order[0]]);
      var rest := AcceptorsInOrder(t, order[1..]);
      assert forall c :: OfType(head + rest, c) == (if c in order then AcceptorsFor(c, t[c]) else []) by {
        forall c
          ensures OfType(head + rest, c) == (if c in order then AcceptorsFor(c, t[c]) else [])
        {
          AcceptorsInOrderStep(t, order, head, rest, c);
        }
      }
      head + rest
  }

  /** `getAcceptors`: one acceptor per rule, the table's entries taken in
      their iteration order `order`. Filtering the result by any class gives
      one acceptor per rule registered for it, in registration order, and
      nothing for a class the table does not have. */
  function GetAcceptors(t: Table, order: seq<JClass>): (accs: seq<TranslateAcceptor>)
    requires IsEnumeration(order, t)
    ensures forall c :: OfType(accs, c) == (if c in t then AcceptorsFor(c, t[c]) else [])
  {
    assert forall c :: c in order <==> c in t;
    AcceptorsInOrder(t, order)
  }

  /** One step of `AcceptorsInOrder`: the head entry's acceptors followed by
      the rest, filtered by one class. */
  lemma AcceptorsInOrderStep(t: Table, order: seq<JClass>, head: seq<TranslateAcceptor>,
                         rest: seq<TranslateAcceptor>, c: JClass)
    requires |order| > 0
    requires forall i :: 0 <= i < |order| ==> order[i] in t
    requires Distinct(order)
    requires head == AcceptorsFor(order[0], t[order[0]])
    requires OfType(rest, c) == (if c in order[1..] then AcceptorsFor(c, t[c]) else [])
    ensures OfType(head + rest, c) == (if c in order then AcceptorsFor(c, t[c]) else [])
  {
    OfTypeConcat(head, rest, c);
    OfTypeAcceptorsFor(order[0], t[order[0]], c);
    assert c in order <==> c == order[0] || c in order[1..];
    if c == order[0] {
      assert c !in order[1..];
    }
  }

  /** `buildAcceptorsIndex`: groups the acceptors by class, appending each
      to its class's group in input order. A class has a group exactly when
      some acceptor has that class, and the group is the input filtered by
      the class: nothing added, nothing lost, order kept. */
  function BuildAcceptorsIndex(accs: seq<TranslateAcceptor>): (idx: AcceptorIndex)
    ensures forall c :: c in idx <==> |OfType(accs, c)| > 0
    ensures forall c :: c in idx ==> idx[c] == OfType(accs, c)
  {
    if |accs| == 0 then map[]
    else
      var prev := BuildAcceptorsIndex(accs[..|accs| - 1]);
      var acc := accs[|accs| - 1];
      prev[acc.typ := (if acc.typ in prev then prev[acc.typ] else []) + [acc]]
  }

  /** Every acceptor of a group has the group's class. */
  lemma {:induction false} OfTypeHasType(accs: seq<TranslateAcceptor>, c: JClass)
    ensures forall k :: 0 <= k < |OfType(accs, c)| ==> OfType(accs, c)[k].typ == c
    decreases |accs|
  {
    if |accs| > 0 {
      OfTypeHasType(accs[..|accs| - 1], c);
    }
  }

  /** Every acceptor lands in its own class's group. */
  lemma {:induction false} OfTypeKeepsMember(accs: seq<TranslateAcceptor>, i: nat)
    requires i < |accs|
    ensures exists k :: 0 <= k < |OfType(accs, accs[i].typ)| && OfType(accs, accs[i].typ)[k] == accs[i]
    decreases |accs|
  {
    var n := |accs| - 1;
    var c := accs[i].typ;
    if i == n {
      var r := OfType(accs, c);
      assert r[|r| - 1] == accs[i];
    } else {
      assert accs[..n][i] == accs[i];
      OfTypeKeepsMember(accs[..n], i);
      var k :| 0 <= k < |OfType(accs[..n], c)| && OfType(accs[..n], c)[k] == accs[i];
      assert OfType(accs, c)[k] == accs[i];
    }
  }

  /** The index partitions the acceptors: each one is in the group of its
      own class, and a group holds acceptors of its class only. */
  lemma IndexPartitionsAcceptors(accs: seq<TranslateAcceptor>)
    ensures var idx := BuildAcceptorsIndex(accs);
            && (forall i :: 0 <= i < |accs| ==>
                  accs[i].typ in idx && exists k :: 0 <= k < |idx[accs[i].typ]| && idx[accs[i].typ][k] == accs[i])
            && (forall c :: c in idx ==> forall k :: 0 <= k < |idx[c]| ==> idx[c][k].typ == c)
  {
    var idx := BuildAcceptorsIndex(accs);
    forall i | 0 <= i < |accs|
      ensures accs[i].typ in idx && exists k :: 0 <= k < |idx[accs[i].typ]| && idx[accs[i].typ][k] == accs[i]
    {
      OfTypeKeepsMember(accs, i);
    }
    forall c | c in idx
      ensures forall k :: 0 <= k < |idx[c]| ==> idx[c][k].typ == c
    {
      OfTypeHasType(accs, c);
    }
  }

  /** The index built over the table's acceptors has a group for exactly
      the classes with at least one rule, and the group is made from that
      class's rules in registration order. */
  lemma IndexMatchesTable(t: Table, order: seq<JClass>, c: JClass)
    requires IsEnumeration(order, t)
    ensures var idx := BuildAcceptorsIndex(GetAcceptors(t, order));
            && (c in idx <==> c in t && |t[c]| > 0)
            && (c in idx ==> idx[c] == AcceptorsFor(c, t[c]))
  {
    var accs := GetAcceptors(t, order);
    assert OfType(accs, c) == (if c in t then AcceptorsFor(c, t[c]) else []);
  }

  /** The loop in the `flowToDag` acceptance lambda: some acceptor says yes. */
  function AnyAccepts(accs: seq<TranslateAcceptor>, op: Operator, ctx: AcceptorContext): (b: bool)
    ensures b <==> exists i :: 0 <= i < |accs| && AcceptorTest(accs[i], op, ctx)
  {
    if |accs| == 0 then false
    else AcceptorTest(accs[0], op, ctx) || AnyAccepts(accs[1..], op, ctx)
  }

  /** The body of the `flowToDag` acceptance lambda: look the operator's
      class up in the index; no group or an empty one means no. */
  predicate FlowAcceptance(idx: AcceptorIndex, op: Operator, ctx: AcceptorContext)
    ensures FlowAcceptance(idx, op, ctx) <==>
              op.cls in idx && exists i :: 0 <= i < |idx[op.cls]| && AcceptorTest(idx[op.cls][i], op, ctx)
  {
    match Get(idx, op.cls)
    case None => false
    case Some(accs) => |accs| > 0 && AnyAccepts(accs, op, ctx)
  }

  /** The acceptance `flowToDag` passes to the unfolder holds for an operator
      exactly when some rule registered for its exact class admits it. */
  lemma AcceptanceIsRuleMatch(t: Table, order: seq<JClass>, op: Operator, ctx: AcceptorContext)
    requires IsEnumeration(order, t)
    ensures FlowAcceptance(BuildAcceptorsIndex(GetAcceptors(t, order)), op, ctx)
        <==> op.cls in t && FirstMatch(t[op.cls], op, ctx).Some?
  {
    var idx := BuildAcceptorsIndex(GetAcceptors(t, order));
    IndexMatchesTable(t, order, op.cls);
    if op.cls in t && |t[op.cls]| > 0 {
      assert Get(idx, op.cls) == Some(AcceptorsFor(op.cls, t[op.cls]));
      AnyAcceptsIsRuleMatch(op.cls, t[op.cls], op, ctx);
    } else {
      assert op.cls !in idx;
    }
  }

  /** Running the acceptors of a class's rules finds a yes exactly when
      rule selection over those rules finds a first match. */
  lemma AnyAcceptsIsRuleMatch(c: JClass, rules: seq<Translation>, op: Operator, ctx: AcceptorContext)
    requires op.cls == c
    ensures AnyAccepts(AcceptorsFor(c, rules), op, ctx) <==> FirstMatch(rules, op, ctx).Some?
  {
    var accs := AcceptorsFor(c, rules);
    forall i | 0 <= i < |rules|
      ensures AcceptorTest(accs[i], op, ctx) <==> Admits(rules[i], op, ctx)
    {
      AcceptorAgreesWithRule(c, rules[i], op, ctx);
    }
  }

  /** `flowToDag`'s acceptor, built from the index over `getAcceptors`: it
      keeps an operator as it is exactly when a rule of its exact class
      admits it in the given context. */
  function DagAcceptor(t: Table, order: seq<JClass>, ctx: AcceptorContext): (accept: Operator -> bool)
    requires IsEnumeration(order, t)
    ensures forall op :: accept(op) <==> op.cls in t && FirstMatch(t[op.cls], op, ctx).Some?
  {
    var idx := BuildAcceptorsIndex(GetAcceptors(t, order));
    assert forall op :: FlowAcceptance(idx, op, ctx) <==> op.cls in t && FirstMatch(t[op.cls], op, ctx).Some? by {
      forall op {
        AcceptanceIsRuleMatch(t, order, op, ctx);
      }
    }
    op => FlowAcceptance(idx, op, ctx)
  }

  /** An operator the DAG acceptor keeps is one `translateInto` finds a
      rule for, and the other way round, when both use the same context. */
  lemma AcceptedIffTranslatable(t: Table, order: seq<JClass>, ctx: AcceptorContext, op: Operator)
    requires IsEnumeration(order, t)
    ensures DagAcceptor(t, order, ctx)(op) <==> SelectRule(t, op, ctx).Success?
  {
  }
}
