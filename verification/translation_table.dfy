/** The per-class table of translation rules, how rules are registered,
    and how the first applicable rule is picked for an operator. */
module TranslationTable {
  import opened Wrappers
  import opened Operators

  /** An acceptance predicate: a pure decision about an operator instance
      given the acceptor context. */
  type Predicate = (Operator, AcceptorContext) -> bool

  /** The Spark operator translators; their translation logic is opaque. */
  datatype Translator =
    | InputTranslator
    | FlatMapTranslator
    | ReduceStateByKeyTranslator
    | UnionTranslator
    | ReduceByKeyTranslator
    | BroadcastHashJoinTranslator
    | BatchJoinTranslator

  /** A translation rule: a translator plus an optional acceptance predicate
      (`None` means the rule applies to every instance of its class). */
  datatype Translation = Translation(translator: Translator, accept: Option<Predicate>)

  /** Rules per exact operator class, each list in registration order. */
  type Table = map<JClass, seq<Translation>>

  /** Why no translation could be selected for an operator. */
  datatype TranslateError =
    | MissingTranslations(cls: JClass)  // `translations.get` gave null; the dereference throws
    | Unsupported(cls: JClass)          // the list was empty: UnsupportedOperationException
    | NoMatchingTranslation             // no rule accepted the operator: IllegalStateException

  /** Whether a rule takes the operator: no predicate, or its predicate holds. */
  predicate Admits(rule: Translation, op: Operator, ctx: AcceptorContext)
  {
    rule.accept.None? || rule.accept.value(op, ctx)
  }

  /** Every registered class has at least one rule. */
  ghost predicate NonEmptyGroups(t: Table)
  {
    forall c :: c in t ==> |t[c]| > 0
  }

  /** `Translation.add`: appends the rule to the end of the class's list,
      creating the list first when the class is new; no other class changes. */
  function Add(t: Table, cls: JClass, translator: Translator, accept: Option<Predicate>): (t': Table)
    ensures t'.Keys == t.Keys + {cls}
    ensures cls in t ==> t'[cls] == t[cls] + [Translation(translator, accept)]
    ensures cls !in t ==> t'[cls] == [Translation(translator, accept)]
    ensures forall c :: c in t && c != cls ==> t'[c] == t[c]
    ensures NonEmptyGroups(t) ==> NonEmptyGroups(t')
  {
    var current := if cls in t then t[cls] else [];
    t[cls := current + [Translation(translator, accept)]]
  }

  /** The classes of the four basic operators. */
  function BasicClasses(): set<JClass>
  {
    {InputOperatorClass, FlatMapClass, ReduceStateByKeyClass, UnionClass}
  }

  /** The constructor's registrations for the basic operators: one
      unconditional rule per class. */
  function BasicTranslations(): (t: Table)
    ensures t.Keys == BasicClasses()
    ensures NonEmptyGroups(t)
    ensures t[InputOperatorClass] == [Translation(InputTranslator, None)]
    ensures t[FlatMapClass] == [Translation(FlatMapTranslator, None)]
    ensures t[ReduceStateByKeyClass] == [Translation(ReduceStateByKeyTranslator, None)]
    ensures t[UnionClass] == [Translation(UnionTranslator, None)]
  {
    var t0: Table := map[];
    assert NonEmptyGroups(t0);
    var t1 := Add(t0, InputOperatorClass, InputTranslator, None);
    assert t1.Keys == {InputOperatorClass};
    var t2 := Add(t1, FlatMapClass, FlatMapTranslator, None);
    assert t2.Keys == {InputOperatorClass, FlatMapClass};
    var t3 := Add(t2, ReduceStateByKeyClass, ReduceStateByKeyTranslator, None);
    assert t3.Keys == {InputOperatorClass, FlatMapClass, ReduceStateByKeyClass};
    Add(t3, UnionClass, UnionTranslator, None)
  }

  /** The constructor's registrations for the derived operators on top of
      a table without them: the reduce-by-key rule, then the broadcast join
      rule ahead of the batch join rule. */
  function DerivedTranslations(
    t: Table, reduceByKeyWant: Predicate, broadcastJoinWant: Predicate, batchJoinWant: Predicate): (t': Table)
    requires ReduceByKeyClass !in t && JoinClass !in t
    ensures t'.Keys == t.Keys + {ReduceByKeyClass, JoinClass}
    ensures forall c :: c in t ==> t'[c] == t[c]
    ensures NonEmptyGroups(t) ==> NonEmptyGroups(t')
    ensures t'[ReduceByKeyClass] == [Translation(ReduceByKeyTranslator, Some(reduceByKeyWant))]
    ensures t'[JoinClass] == [Translation(BroadcastHashJoinTranslator, Some(broadcastJoinWant)),
                              Translation(BatchJoinTranslator, Some(batchJoinWant))]
  {
    var t1 := Add(t, ReduceByKeyClass, ReduceByKeyTranslator, Some(reduceByKeyWant));
    var t2 := Add(t1, JoinClass, BroadcastHashJoinTranslator, Some(broadcastJoinWant));
    Add(t2, JoinClass, BatchJoinTranslator, Some(batchJoinWant))
  }

  /** All rules the translator's constructor registers, given the opaque
      `wantTranslate` predicates of the three conditional translators. */
  function RegisterTranslations(
    reduceByKeyWant: Predicate, broadcastJoinWant: Predicate, batchJoinWant: Predicate): (t: Table)
    ensures t.Keys == BasicClasses() + {ReduceByKeyClass, JoinClass}
    ensures NonEmptyGroups(t)
    ensures t[InputOperatorClass] == [Translation(InputTranslator, None)]
    ensures t[FlatMapClass] == [Translation(FlatMapTranslator, None)]
    ensures t[ReduceStateByKeyClass] == [Translation(ReduceStateByKeyTranslator, None)]
    ensures t[UnionClass] == [Translation(UnionTranslator, None)]
    ensures t[ReduceByKeyClass] == [Translation(ReduceByKeyTranslator, Some(reduceByKeyWant))]
    ensures t[JoinClass] == [Translation(BroadcastHashJoinTranslator, Some(broadcastJoinWant)),
                             Translation(BatchJoinTranslator, Some(batchJoinWant))]
  {
    DerivedTranslations(BasicTranslations(), reduceByKeyWant, broadcastJoinWant, batchJoinWant)
  }

  /** The loop of `translateInto` that scans a class's rules: the index of
      the first rule that admits the operator, every earlier one rejecting it. */
  function FirstMatch(rules: seq<Translation>, op: Operator, ctx: AcceptorContext): (r: Option<nat>)
    ensures r.Some? ==> r.value < |rules| && Admits(rules[r.value], op, ctx)
    ensures r.Some? ==> forall j :: 0 <= j < r.value ==> !Admits(rules[j], op, ctx)
    ensures r.None? <==> forall j :: 0 <= j < |rules| ==> !Admits(rules[j], op, ctx)
  {
    if |rules| == 0 then None
    else if Admits(rules[0], op, ctx) then Some(0)
    else
      match FirstMatch(rules[1..], op, ctx)
      case None => None
      case Some(k) => Some(k + 1)
  }

  /** Rule selection for one operator in `translateInto`: look the class up,
      fail on a missing or empty list, otherwise take the first admitting rule. */
  function SelectRule(t: Table, op: Operator, ctx: AcceptorContext): (r: Result<Translation, TranslateError>)
    ensures r.Failure? && r.error.MissingTranslations? <==> op.cls !in t
    ensures r.Failure? && r.error.Unsupported? <==> op.cls in t && |t[op.cls]| == 0
    ensures r.Failure? ==> r.error.MissingTranslations? || r.error.Unsupported? || r.error.NoMatchingTranslation?
    ensures r.Failure? && !r.error.NoMatchingTranslation? ==> r.error.cls == op.cls
    ensures r.Success? <==>
      op.cls in t && exists i :: 0 <= i < |t[op.cls]| && Admits(t[op.cls][i], op, ctx)
    ensures r.Success? ==>
      exists i :: 0 <= i < |t[op.cls]| && t[op.cls][i] == r.value && Admits(r.value, op, ctx)
              && forall j :: 0 <= j < i ==> !Admits(t[op.cls][j], op, ctx)
  {
    match Get(t, op.cls)
    case None => Failure(MissingTranslations(op.cls))
    case Some(rules) =>
      if |rules| == 0 then Failure(Unsupported(op.cls))
      else
        match FirstMatch(rules, op, ctx)
        case None => Failure(NoMatchingTranslation)
        case Some(i) => Success(rules[i])
  }

  /** A table built only through `Add` never has an empty list, so the
      "not supported" branch cannot be taken for it. */
  lemma RegisteredTableNeverUnsupported(
    reduceByKeyWant: Predicate, broadcastJoinWant: Predicate, batchJoinWant: Predicate,
    op: Operator, ctx: AcceptorContext)
    ensures var r := SelectRule(RegisterTranslations(reduceByKeyWant, broadcastJoinWant, batchJoinWant), op, ctx);
            !(r.Failure? && r.error.Unsupported?)
  {
  }

  /** Join rule precedence: the broadcast join is chosen whenever its
      predicate holds; otherwise the batch join when its predicate holds;
      otherwise selection fails. */
  lemma JoinSelection(
    reduceByKeyWant: Predicate, broadcastJoinWant: Predicate, batchJoinWant: Predicate,
    op: Operator, ctx: AcceptorContext)
    requires op.cls == JoinClass
    ensures var r := SelectRule(RegisterTranslations(reduceByKeyWant, broadcastJoinWant, batchJoinWant), op, ctx);
            && (broadcastJoinWant(op, ctx) ==> r.Success? && r.value.translator == BroadcastHashJoinTranslator)
            && (!broadcastJoinWant(op, ctx) && batchJoinWant(op, ctx) ==>
                  r.Success? && r.value.translator == BatchJoinTranslator)
            && (!broadcastJoinWant(op, ctx) && !batchJoinWant(op, ctx) ==>
                  r == Failure(NoMatchingTranslation))
  {
    var t: Table := RegisterTranslations(reduceByKeyWant, broadcastJoinWant, batchJoinWant);
    assert t[JoinClass][0].accept == Some(broadcastJoinWant);
    assert t[JoinClass][1].accept == Some(batchJoinWant);
  }

  /** Every instance of a basic operator class gets the class's single
      unconditional rule. */
  lemma BasicOperatorSelection(
    reduceByKeyWant: Predicate, broadcastJoinWant: Predicate, batchJoinWant: Predicate,
    op: Operator, ctx: AcceptorContext)
    requires op.cls in BasicClasses()
    ensures var t := RegisterTranslations(reduceByKeyWant, broadcastJoinWant, batchJoinWant);
            SelectRule(t, op, ctx) == Success(t[op.cls][0])
  {
    var t: Table := RegisterTranslations(reduceByKeyWant, broadcastJoinWant, batchJoinWant);
    assert Admits(t[op.cls][0], op, ctx);
  }

  /** A class whose only rule has a predicate rejecting every instance: no
      rule matches, and selection fails with the "no matching translation"
      error rather than choosing anything. */
  lemma AlwaysRejectingRuleFails(t: Table, op: Operator, ctx: AcceptorContext)
    requires op.cls in t && |t[op.cls]| == 1
    requires t[op.cls][0].accept.Some?
    requires forall o: Operator, c: AcceptorContext :: !t[op.cls][0].accept.value(o, c)
    ensures FirstMatch(t[op.cls], op, ctx).None?
    ensures SelectRule(t, op, ctx) == Failure(NoMatchingTranslation)
  {
    assert !Admits(t[op.cls][0], op, ctx);
  }
}
