/** The operators the Spark translator sees, the nodes of the unfolded DAG,
    and the context handed to acceptance predicates. */
module Operators {
  import opened Wrappers

  /** A Java class object, compared by identity. The six operator classes
      that the translator registers rules for are named; every other class
      (user operators, subclasses, key types) is `OtherClass`. */
  datatype JClass =
    | InputOperatorClass
    | FlatMapClass
    | ReduceStateByKeyClass
    | UnionClass
    | ReduceByKeyClass
    | JoinClass
    | OtherClass(name: string)

  /** A computation hint attached to an operator. */
  datatype Hint = Expensive | OtherHint(name: string)

  /** An output sink; the translator only hands data to it. */
  datatype Sink = Sink(id: nat)

  /** An operator instance: `cls` is its exact runtime class, `sink` its
      output sink if one was attached (`null` otherwise). */
  datatype Operator = Operator(
    id: nat,
    cls: JClass,
    name: string,
    hints: set<Hint>,
    sink: Option<Sink>)

  /** A node of the unfolded DAG: the operator and the number of its
      children, i.e. of downstream consumers of its output. */
  datatype Node = Node(op: Operator, children: nat)

  /** The unfolded DAG as the translator reads it: its nodes in traversal
      order, and its leaves in the order the DAG lists them. */
  datatype Dag = Dag(nodes: seq<Node>, leaves: seq<Node>)

  /** A comparator registered for some key class; opaque here. */
  datatype Comparator = Comparator(id: nat)

  /** What acceptance predicates may consult: the registered comparators,
      keyed by class. */
  datatype AcceptorContext = AcceptorContext(comparators: map<JClass, Comparator>)

  /** `AcceptorContext.hasComparator`: a `null` class never has one;
      otherwise the answer is whether the comparator map has the class as a key. */
  predicate HasComparator(ctx: AcceptorContext, clazz: Option<JClass>)
    ensures clazz.None? ==> !HasComparator(ctx, clazz)
    ensures clazz.Some? ==> (HasComparator(ctx, clazz) <==> clazz.value in ctx.comparators.Keys)
  {
    clazz.Some? && clazz.value in ctx.comparators
  }

  /** `hasComparator` consults only the comparator map's keys: contexts
      whose maps have the same keys, such as the two built from one map in
      `translateInto`, answer every class alike. */
  lemma HasComparatorReadsOnlyKeys(c1: AcceptorContext, c2: AcceptorContext, clazz: Option<JClass>)
    requires c1.comparators.Keys == c2.comparators.Keys
    ensures HasComparator(c1, clazz) <==> HasComparator(c2, clazz)
  {
  }
}
