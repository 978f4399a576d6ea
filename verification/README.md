# Euphoria Spark flow translation: rule table, acceptors and driver

This project models the translation core of Euphoria's Spark executor,
`SparkFlowTranslator`. Its parts are:

- **Rule table.** A table maps each exact operator class to its translation rules, in registration order. `Translation.add` appends to it. The constructor registers the four basic operators (input, flat-map, reduce-state-by-key, union) and reduce-by-key. It then registers two join rules: the broadcast hash join first, then the batch join.
- **Acceptors.** One `TranslateAcceptor` is made per rule (`getAcceptors`). The acceptors are grouped by class (`buildAcceptorsIndex`). From that index, the acceptance lambda that `flowToDag` hands to the flow unfolder decides which operators stay in the DAG as they are.
- **Driver.** `translateInto` walks the DAG nodes in traversal order. For each operator it picks the first rule whose predicate is absent or holds. It marks the output for persisting when the node has more than one consumer and the operator has the EXPENSIVE hint. It records the output in the executor context. Finally it hands the output of every leaf that has a sink to that sink and returns those sinks.

The acceptance predicates (`wantTranslate` of the translators) are opaque
pure functions of the operator and the acceptor context. The acceptor
context holds the comparator map; `hasComparator` asks whether a class is
one of its keys.

The modules are:

- `Wrappers` (wrappers.dfy): `Option` stands for nullable values and `Result` for thrown exceptions.
- `Operators` (operators.dfy): classes, operators, DAG nodes and the acceptor context.
- `TranslationTable` (translation_table.dfy): rules, `Add`, the constructor's registrations and first-match selection.
- `Acceptors` (acceptors.dfy): acceptors, their index and the `flowToDag` acceptance.
- `FlowTranslator` (flow_translator.dfy): the `translateInto` loops.

Rule selection in `translateInto` has three distinct ways to fail:

- **Missing.** `translations.get` returns null for a class that was never registered. Line 107 then dereferences it, so the error is a null dereference, not the "not supported" error.
- **Empty list.** This raises the "not supported" error. `add` never stores an empty list, so for the constructor's table this branch cannot be taken (`RegisteredTableNeverUnsupported`).
- **No match.** No rule admits the operator, which raises the "no matching translation" error.

The model keeps the three apart. It proves that none of them occurs when the DAG holds only operators the `flowToDag` acceptance kept. The reason is that the acceptance and the selection are built from the same comparators: the contexts of lines 98 and 99 are equal values here.

Decomposing operators that no rule accepts is the flow unfolder's job, which is left out; selection itself fails in the three ways above.

Besides selection, the model covers two more ways for the driver to fail:

- **Invalid flow.** `flowToDag` throws when the unfolder rejects the flow, before any node is translated (`InvalidFlow`).
- **Missing output.** A leaf with a sink may have an operator that is not one of the DAG's nodes. That leaf has no recorded output, so `requireNonNull` throws (`MissingOutput`). The model proves this happens exactly when every node was translated and some such leaf exists. The sinks of the earlier leaves have been written by then, and the error carries those writes.

## Model

| member | source | states |
|---|---|---|
| Operators.HasComparator | euphoria-spark/src/main/java/cz/seznam/euphoria/spark/SparkFlowTranslator.java:178-180 | false for a null class; otherwise true exactly when the class is a key of the comparator map |
| Operators.HasComparatorReadsOnlyKeys | euphoria-spark/src/main/java/cz/seznam/euphoria/spark/SparkFlowTranslator.java:98-99 | two contexts whose comparator maps have the same keys, such as the two `translateInto` builds from one map, answer `hasComparator` alike for every class |
| TranslationTable.Add | euphoria-spark/src/main/java/cz/seznam/euphoria/spark/SparkFlowTranslator.java:288-297 | the new rule is appended at the end of its class's list, which is created when absent; the key set grows by that class only; every other class's list is unchanged; no list is ever left empty |
| TranslationTable.BasicTranslations | euphoria-spark/src/main/java/cz/seznam/euphoria/spark/SparkFlowTranslator.java:76-80 | after the basic registrations, each of the four basic classes has exactly one rule, with its own translator and no predicate, and no other class is registered |
| TranslationTable.DerivedTranslations | euphoria-spark/src/main/java/cz/seznam/euphoria/spark/SparkFlowTranslator.java:82-92 | the derived registrations add exactly reduce-by-key and join. Reduce-by-key gets one rule with its predicate. Join gets the broadcast rule then the batch rule, each with its predicate. Earlier classes are untouched |
| TranslationTable.RegisterTranslations | euphoria-spark/src/main/java/cz/seznam/euphoria/spark/SparkFlowTranslator.java:67-93 | the constructor's table has exactly six classes, each with a non-empty list. The four basic classes have one unconditional rule each; reduce-by-key has one predicated rule; join lists broadcast before batch |
| TranslationTable.FirstMatch | euphoria-spark/src/main/java/cz/seznam/euphoria/spark/SparkFlowTranslator.java:111-118 | gives the index of a rule that admits the operator, and every earlier rule rejects it; gives nothing exactly when no rule admits it |
| TranslationTable.SelectRule | euphoria-spark/src/main/java/cz/seznam/euphoria/spark/SparkFlowTranslator.java:105-131 | an unregistered class gives the missing-list error; an empty list gives "not supported"; otherwise "no matching translation", unless some rule admits the operator, in which case the selected rule is the first admitting one in registration order |
| TranslationTable.RegisteredTableNeverUnsupported | euphoria-spark/src/main/java/cz/seznam/euphoria/spark/SparkFlowTranslator.java:107-110 | with the constructor's table, selection never fails with "not supported" |
| TranslationTable.JoinSelection | euphoria-spark/src/main/java/cz/seznam/euphoria/spark/SparkFlowTranslator.java:86-92 | for a join: the broadcast join is selected whenever its predicate holds; otherwise the batch join when its predicate holds; otherwise "no matching translation" |
| TranslationTable.BasicOperatorSelection | euphoria-spark/src/main/java/cz/seznam/euphoria/spark/SparkFlowTranslator.java:76-80 | every instance of a basic operator class selects its class's single rule |
| TranslationTable.AlwaysRejectingRuleFails | euphoria-spark/src/main/java/cz/seznam/euphoria/spark/SparkFlowTranslator.java:129-130 | a class whose only rule rejects everything has no first match and fails with "no matching translation" |
| Acceptors.AcceptorTest | euphoria-spark/src/main/java/cz/seznam/euphoria/spark/SparkFlowTranslator.java:206-209 | an acceptor says yes only for operators of exactly its class. Without a predicate, it says yes for every such operator; with one, it says no whenever the predicate rejects |
| Acceptors.AcceptorAgreesWithRule | euphoria-spark/src/main/java/cz/seznam/euphoria/spark/SparkFlowTranslator.java:206-209 | an acceptor made from a rule of class c says yes exactly when the operator's class is c and the rule's predicate is absent or holds |
| Acceptors.GetAcceptors | euphoria-spark/src/main/java/cz/seznam/euphoria/spark/SparkFlowTranslator.java:261-267 | for any enumeration of the table's entries, filtering the acceptor list by a class gives one acceptor per rule of that class, in registration order, or nothing for a class not in the table |
| Acceptors.BuildAcceptorsIndex | euphoria-spark/src/main/java/cz/seznam/euphoria/spark/SparkFlowTranslator.java:250-258 | a class has a group exactly when some acceptor has that class; each group is the input filtered by its class, in input order |
| Acceptors.IndexPartitionsAcceptors | euphoria-spark/src/main/java/cz/seznam/euphoria/spark/SparkFlowTranslator.java:254-256 | every acceptor is in the group of its own class, and every group holds acceptors of its class only |
| Acceptors.IndexMatchesTable | euphoria-spark/src/main/java/cz/seznam/euphoria/spark/SparkFlowTranslator.java:229-230 | the index over the table's acceptors has a group for exactly the classes with rules; each group is made from that class's rules in order |
| Acceptors.FlowAcceptance | euphoria-spark/src/main/java/cz/seznam/euphoria/spark/SparkFlowTranslator.java:234-242 | the lambda body says yes exactly when the index has a group for the operator's exact class and some acceptor in that group says yes |
| Acceptors.AnyAccepts | euphoria-spark/src/main/java/cz/seznam/euphoria/spark/SparkFlowTranslator.java:236-240 | the acceptance loop says yes exactly when some acceptor of the group says yes |
| Acceptors.AnyAcceptsIsRuleMatch | euphoria-spark/src/main/java/cz/seznam/euphoria/spark/SparkFlowTranslator.java:234-242 | running a class's acceptors finds a yes exactly when selection over that class's rules finds a first match |
| Acceptors.AcceptanceIsRuleMatch | euphoria-spark/src/main/java/cz/seznam/euphoria/spark/SparkFlowTranslator.java:232-243 | the acceptance lambda holds for an operator exactly when some rule registered for its exact class admits it |
| Acceptors.DagAcceptor | euphoria-spark/src/main/java/cz/seznam/euphoria/spark/SparkFlowTranslator.java:227-244 | the decision handed to the unfolder keeps an operator exactly when its class is registered and one of its rules admits it |
| Acceptors.AcceptedIffTranslatable | euphoria-spark/src/main/java/cz/seznam/euphoria/spark/SparkFlowTranslator.java:97-118 | with one comparator map behind both contexts, an operator is kept in the DAG exactly when selection in the driver succeeds for it |
| FlowTranslator.ShouldPersist | euphoria-spark/src/main/java/cz/seznam/euphoria/spark/SparkFlowTranslator.java:123-124 | an output is persisted only when its node has at least two children and the operator has the EXPENSIVE hint, and always when both hold |
| FlowTranslator.SinkLeaves | euphoria-spark/src/main/java/cz/seznam/euphoria/spark/SparkFlowTranslator.java:135-139 | the operators listed are exactly those of the leaves that have an output sink, never more than there are leaves; a single leaf gives its operator exactly when it has a sink |
| FlowTranslator.SinkLeavesConcat | euphoria-spark/src/main/java/cz/seznam/euphoria/spark/SparkFlowTranslator.java:135-139 | the sink leaves of two leaf sequences joined are those of the first followed by those of the second; with the single-leaf case, this keeps the listed operators in the DAG's leaf order |
| FlowTranslator.TranslateNodes | euphoria-spark/src/main/java/cz/seznam/euphoria/spark/SparkFlowTranslator.java:105-132 | succeeds exactly when every node has an admitting rule, and otherwise fails with the error of the first node that has none. On success every operator's output is recorded: it was made by its selected rule's translator, and it is persisted under "name-persisted" exactly when a node holding it has more than one child and the EXPENSIVE hint. When no two nodes share an operator, that is each node's own decision |
| FlowTranslator.PersistFollowsOwnNode | euphoria-spark/src/main/java/cz/seznam/euphoria/spark/SparkFlowTranslator.java:122-125 | when no two nodes hold the same operator, every node's recorded output is persisted exactly when that node has more than one child and its operator the EXPENSIVE hint |
| FlowTranslator.CollectSinks | euphoria-spark/src/main/java/cz/seznam/euphoria/spark/SparkFlowTranslator.java:134-167 | succeeds exactly when every leaf with a sink has a recorded output. On success the sinks returned are exactly those leaves' sinks, in leaf order, each handed that operator's recorded output. Otherwise it fails at the first sink leaf without an output, carrying the writes already made, in order, for the sink leaves before it |
| FlowTranslator.TranslateInto | euphoria-spark/src/main/java/cz/seznam/euphoria/spark/SparkFlowTranslator.java:96-168 | the full driver. It fails with the invalid-flow error exactly when the unfolder rejects the flow. Otherwise it succeeds exactly when every node has an admitting rule and every leaf with a sink is a node of the DAG. Selection fails exactly when some node has no admitting rule, with the first such error, and never when the unfolder kept only accepted operators. A missing output belongs to the first sink leaf that no node holds. The writes before it gave each earlier sink the output of its operator's selected translator. On success outputs are recorded and persisted as above, and sinks are handed off in leaf order |

## Left out

- Spark work is not modelled: RDDs, `setName`/`persist`, the Hadoop `Configuration`, `DataSinkOutputFormat`, `saveAsNewAPIHadoopDataset` and unwrapping windowed elements. These are library calls and physical I/O, so a failed write (the `IOException` rethrown at line 163) is not modelled either. A persisted output is recorded as a mark carrying its new name and storage level. A sink write is recorded as a `SinkHandoff` of the operator's dataset.
- The individual translators and their `wantTranslate` predicates are external collaborators of the driver. Exceptions thrown inside a translator or a predicate are not modelled: each is a total function here. A translator's work is represented by a `Dataset` that names the operator and translator. A predicate is an arbitrary pure function of the operator and the acceptor context, so every property holds whatever the predicates decide.
- `FlowUnfolder` and the `DAG` class are external collaborators too, including the decomposition of rejected operators into basic operators. The unfolder is the parameter `unfold`, an arbitrary function from the acceptance decision to a `Dag`, or to nothing when the unfolder's validation rejects the flow. A `Dag` holds the nodes in traversal order, each with its number of children, and the leaves in the order `getLeafs` gives them. That the unfolder keeps only accepted operators and that every leaf is a node are not assumed; the driver's contract states what happens either way.
- Table iteration order: the identity hash map's entry-set order is opaque. It is the parameter `order`, which must list every registered class exactly once.
- Null checks: the `Objects.requireNonNull` checks on constructor arguments and translators are not modelled, because the model has no null references. The check on `executorContext.getOutput` is modelled as the `MissingOutput` error.
- The executor context's other contents are not modelled: the Spark context, settings, accumulator factory and the comparator objects themselves. Only the comparator map's keys affect acceptance.
- Exception messages are not modelled beyond the class carried by the missing-list and "not supported" errors.
- FlowTranslator.TranslateNodes: `dag.getNode(op)` is not modelled. A recorded output's persist decision is tied to some node that holds the operator, and to each node's own decision only when no two nodes share an operator (`DistinctOperators`), because `unfold` is not assumed to give a DAG with one node per operator.
- FlowTranslator.TranslateInto: the same persist-decision condition applies to the full driver.
- Windowing and state are other components and are not modelled. These are the merging window assigner, the local state context, spill files and timestamped elements. Lazy accumulators are metrics plumbing and are left out too.
