// What the lowering promises about order: running the emitted preceding
// statements and then evaluating the resulting list performs the same
// observable steps, in the same order, as evaluating the source list left to
// right. An expression's steps are its own preceding statements followed by
// its evaluation; an expression that shouldMoveToTemp exempts (literals,
// temps, const identifiers, optional continuations, `this`) is read without
// an observable step, which is why the lowering may leave it in place.

module EvaluationOrder {
  import opened Wrappers
  import opened TsNodes
  import opened LuaAst
  import opened ExpressionListSpec
  import ExpressionListProperties

  datatype Event =
    | Run(origin: SourceExpr, index: nat)   // the index-th preceding statement of origin runs
    | Evaluate(origin: SourceExpr)          // origin itself is evaluated

  /** Reading the expression has no observable step. This is an assumption of
      the semantics, not a result: it names exactly the kinds shouldMoveToTemp
      exempts, so the order theorems below take those exemptions as sound. */
  predicate Stable(e: SourceExpr) {
    e.literal || e.tempIdentifier || e.constIdentifier || e.optionalContinuation || e.thisKeyword
  }

  // ---------------------------------------------------------------------------
  // The reference order, defined on the source list alone.

  /** The preceding statements of e, as events. */
  function Runs(e: SourceExpr): (r: seq<Event>)
    ensures |r| == e.statements
  {
    seq(e.statements, (k: int) requires 0 <= k => Run(e, k))
  }

  function EvaluateStep(e: SourceExpr): seq<Event> {
    if Stable(e) then [] else [Evaluate(e)]
  }

  /** The steps of the source positions a..b-1, evaluated left to right. */
  function SourceOrder(expressions: seq<SourceExpr>, a: nat, b: nat): seq<Event>
    requires a <= b <= |expressions|
    decreases b
  {
    if a == b then [] else SourceOrder(expressions, a, b - 1) + Runs(expressions[b - 1]) + EvaluateStep(expressions[b - 1])
  }

  // ---------------------------------------------------------------------------
  // The steps of the Lua the lowering emits.

  function ExpressionTrace(e: LuaExpr): seq<Event>
    decreases e, 1
  {
    match e
    case Lowered(origin) => EvaluateStep(origin)
    case Identifier(_, _) => []
    case LibCall(_, args) => ListTrace(args)
  }

  /** Lua evaluates a list of expressions left to right. */
  function ListTrace(es: seq<LuaExpr>): seq<Event>
    decreases es, 0
  {
    if es == [] then [] else ListTrace(es[..|es| - 1]) + ExpressionTrace(es[|es| - 1])
  }

  function StatementTrace(s: Statement): seq<Event> {
    match s
    case Preceding(origin, index) => [Run(origin, index)]
    case VariableDeclaration(_, value) => ExpressionTrace(value)
    case ExpressionStatement(expression) => ExpressionTrace(expression)
  }

  function StatementsTrace(ss: seq<Statement>): seq<Event> {
    if ss == [] then [] else StatementsTrace(ss[..|ss| - 1]) + StatementTrace(ss[|ss| - 1])
  }

  /** Run the statements, then evaluate the list. */
  function LoweringTrace(l: Lowering): seq<Event> {
    StatementsTrace(l.statements) + ListTrace(l.expressions)
  }

  // ---------------------------------------------------------------------------
  // Traces of concatenations.

  lemma {:induction false} ListTraceAppend(a: seq<LuaExpr>, b: seq<LuaExpr>)
    ensures ListTrace(a + b) == ListTrace(a) + ListTrace(b)
    decreases |b|
  {
    if b != [] {
      var m := |b| - 1;
      assert (a + b)[..|a + b| - 1] == a + b[..m];
      ListTraceAppend(a, b[..m]);
    } else {
      assert a + b == a;
    }
  }

  lemma {:induction false} StatementsTraceAppend(a: seq<Statement>, b: seq<Statement>)
    ensures StatementsTrace(a + b) == StatementsTrace(a) + StatementsTrace(b)
    decreases |b|
  {
    if b != [] {
      var m := |b| - 1;
      assert (a + b)[..|a + b| - 1] == a + b[..m];
      StatementsTraceAppend(a, b[..m]);
    } else {
      assert a + b == a;
    }
  }

  /** The statements an expression emits run as its Runs events. */
  lemma {:induction false} EmittedTrace(e: SourceExpr, k: nat)
    requires k <= e.statements
    ensures StatementsTrace(Emitted(e)[..k]) == Runs(e)[..k]
  {
    if k > 0 {
      EmittedTrace(e, k - 1);
      assert Emitted(e)[..k][..k - 1] == Emitted(e)[..k - 1];
      assert Runs(e)[..k] == Runs(e)[..k - 1] + [Run(e, k - 1)];
    }
  }

  lemma EmittedRuns(e: SourceExpr)
    ensures StatementsTrace(Emitted(e)) == Runs(e)
  {
    EmittedTrace(e, e.statements);
    assert Emitted(e)[..e.statements] == Emitted(e);
    assert Runs(e)[..e.statements] == Runs(e);
  }

  lemma {:induction false} SourceOrderSplit(expressions: seq<SourceExpr>, a: nat, b: nat, c: nat)
    requires a <= b <= c <= |expressions|
    ensures SourceOrder(expressions, a, c) == SourceOrder(expressions, a, b) + SourceOrder(expressions, b, c)
    decreases c
  {
    if b < c {
      SourceOrderSplit(expressions, a, b, c - 1);
    }
  }

  /** Helper: on an untouched lowering, shouldMoveToTemp and Stable name the
      same expressions, and the lowering's trace is the expression's own step. */
  lemma ShouldMoveExactlyUnstable(e: SourceExpr)
    ensures ShouldMoveToTemp(Lowered(e), Some(e)) <==> !Stable(e)
    ensures ExpressionTrace(Lowered(e)) == EvaluateStep(e)
  {
  }

  // ---------------------------------------------------------------------------
  // The temps path.

  /** Position i of a transformed list is its own lowering with its own
      preceding statements, and has none if it lies after lastIndex. */
  ghost predicate UntouchedAt(expressions: seq<SourceExpr>, transformed: seq<LuaExpr>, preceding: seq<seq<Statement>>,
                              lastIndex: int, i: nat)
    requires i < |transformed| == |preceding| == |expressions|
  {
    && transformed[i] == Lowered(expressions[i])
    && preceding[i] == Emitted(expressions[i])
    && (i > lastIndex ==> expressions[i].statements == 0)
  }

  /** A transformed list with no wrapped position. */
  ghost predicate Untouched(expressions: seq<SourceExpr>, transformed: seq<LuaExpr>, preceding: seq<seq<Statement>>, lastIndex: int) {
    && |transformed| == |preceding| == |expressions|
    && -1 <= lastIndex < |expressions|
    && (forall i :: 0 <= i < |expressions| ==> UntouchedAt(expressions, transformed, preceding, lastIndex, i))
  }

  /** What position i adds to the statements of the temps path: its
      preceding statements, then, if it is hoisted, its evaluation in the
      declaration of its temp. */
  lemma TempsStepStatements(expressions: seq<SourceExpr>, transformed: seq<LuaExpr>, preceding: seq<seq<Statement>>,
                            lastIndex: int, next: nat, i: nat)
    requires Untouched(expressions, transformed, preceding, lastIndex)
    requires i < |expressions|
    ensures var e := expressions[i];
      && (Hoists(expressions, transformed, lastIndex, i) <==> i < lastIndex && !Stable(e))
      && StatementsTrace(TempsStatements(expressions, transformed, preceding, lastIndex, next, i + 1)) ==
         StatementsTrace(TempsStatements(expressions, transformed, preceding, lastIndex, next, i)) + Runs(e) +
         (if Hoists(expressions, transformed, lastIndex, i) then EvaluateStep(e) else [])
  {
    var e := expressions[i];
    var before := TempsStatements(expressions, transformed, preceding, lastIndex, next, i);
    assert UntouchedAt(expressions, transformed, preceding, lastIndex, i);
    var hoisted := Hoists(expressions, transformed, lastIndex, i);
    var decl := if hoisted then [VariableDeclaration(TempFor(expressions, transformed, lastIndex, next, i), transformed[i])] else [];
    ShouldMoveExactlyUnstable(e);
    EmittedRuns(e);
    StatementsTraceAppend(before + preceding[i], decl);
    StatementsTraceAppend(before, preceding[i]);
    if hoisted {
      assert decl[..0] == [];
      assert StatementsTrace(decl) == EvaluateStep(e);
    } else {
      assert StatementsTrace(decl) == [];
    }
  }

  /** What position i adds to the list of the temps path: its evaluation,
      unless it is hoisted and its temp stands in its place. */
  lemma TempsStepList(expressions: seq<SourceExpr>, transformed: seq<LuaExpr>, preceding: seq<seq<Statement>>,
                      lastIndex: int, next: nat, i: nat)
    requires Untouched(expressions, transformed, preceding, lastIndex)
    requires i < |expressions|
    ensures var te := TempsExpressions(expressions, transformed, lastIndex, next);
      ListTrace(te[..i + 1]) == ListTrace(te[..i]) +
        (if Hoists(expressions, transformed, lastIndex, i) then [] else EvaluateStep(expressions[i]))
  {
    var te := TempsExpressions(expressions, transformed, lastIndex, next);
    assert UntouchedAt(expressions, transformed, preceding, lastIndex, i);
    ShouldMoveExactlyUnstable(expressions[i]);
    assert [te[i]][..0] == [];
    assert te[..i + 1] == te[..i] + [te[i]];
    ListTraceAppend(te[..i], [te[i]]);
  }

  /** After k positions of the temps path, statements-then-list give the
      source order of those positions; up to lastIndex the list part has no
      observable step, because every unstable position there was hoisted. */
  lemma {:induction false} TempsPrefixOrder(expressions: seq<SourceExpr>, transformed: seq<LuaExpr>, preceding: seq<seq<Statement>>,
                                            lastIndex: int, next: nat, k: nat)
    requires Untouched(expressions, transformed, preceding, lastIndex)
    requires k <= |expressions|
    ensures var list := TempsExpressions(expressions, transformed, lastIndex, next)[..k];
      && StatementsTrace(TempsStatements(expressions, transformed, preceding, lastIndex, next, k)) + ListTrace(list)
         == SourceOrder(expressions, 0, k)
      && (k <= lastIndex ==> ListTrace(list) == [])
  {
    if k > 0 {
      var i := k - 1;
      var e := expressions[i];
      TempsPrefixOrder(expressions, transformed, preceding, lastIndex, next, i);
      TempsStepStatements(expressions, transformed, preceding, lastIndex, next, i);
      TempsStepList(expressions, transformed, preceding, lastIndex, next, i);
      var te := TempsExpressions(expressions, transformed, lastIndex, next);
      var hoisted := Hoists(expressions, transformed, lastIndex, i);
      if i > lastIndex {
        assert UntouchedAt(expressions, transformed, preceding, lastIndex, i);
        assert Runs(e) == [];
      }
      assert SourceOrder(expressions, 0, k) == SourceOrder(expressions, 0, i) + Runs(e) + EvaluateStep(e);
      OrderStep(StatementsTrace(TempsStatements(expressions, transformed, preceding, lastIndex, next, i)),
                ListTrace(te[..i]), SourceOrder(expressions, 0, i), Runs(e), EvaluateStep(e), hoisted);
    }
  }

  /** The sequence algebra of one step of the temps path: a hoisted position
      adds its runs and its step to the statements, any other adds its runs
      there and its step to the list; the list is still empty when a position
      is hoisted or runs something. */
  lemma OrderStep(st: seq<Event>, lt: seq<Event>, so: seq<Event>, runs: seq<Event>, step: seq<Event>, hoisted: bool)
    requires st + lt == so
    requires lt == [] || (runs == [] && !hoisted)
    ensures (st + runs + (if hoisted then step else [])) + (lt + (if hoisted then [] else step)) == so + runs + step
  {
    if lt == [] {
      assert st == so;
    } else {
      assert st + runs == st;
      ExpressionListProperties.AppendAssociates(st, lt, step);
    }
  }

  lemma SliceSnoc<T>(s: seq<T>, a: nat, b: nat)
    requires a < b <= |s|
    ensures s[a..b] == s[a..b - 1] + [s[b - 1]]
  {
  }

  /** transformExpressionsUsingTemps keeps the source order. */
  lemma TempsPathOrder(expressions: seq<SourceExpr>, transformed: seq<LuaExpr>, preceding: seq<seq<Statement>>,
                       lastIndex: int, next: nat)
    requires Untouched(expressions, transformed, preceding, lastIndex)
    ensures StatementsTrace(TempsStatements(expressions, transformed, preceding, lastIndex, next, |expressions|)) +
            ListTrace(TempsExpressions(expressions, transformed, lastIndex, next))
            == SourceOrder(expressions, 0, |expressions|)
  {
    var te := TempsExpressions(expressions, transformed, lastIndex, next);
    TempsPrefixOrder(expressions, transformed, preceding, lastIndex, next, |expressions|);
    assert te[..|expressions|] == te;
  }

  // ---------------------------------------------------------------------------
  // The sparse-array path.

  /** Within a batch [a, b) whose positions after the first have no
      preceding statements, the batch's statements are the first position's. */
  lemma {:induction false} BatchStatements(expressions: seq<SourceExpr>, transformed: seq<LuaExpr>, preceding: seq<seq<Statement>>,
                                           lastIndex: int, a: nat, b: nat)
    requires Untouched(expressions, transformed, preceding, lastIndex)
    requires a < b <= |expressions|
    requires forall p :: a < p < b ==> preceding[p] == []
    ensures StatementsTrace(ConcatRange(preceding, a, b)) == Runs(expressions[a])
  {
    var e := expressions[b - 1];
    assert UntouchedAt(expressions, transformed, preceding, lastIndex, b - 1);
    EmittedRuns(e);
    StatementsTraceAppend(ConcatRange(preceding, a, b - 1), preceding[b - 1]);
    if a < b - 1 {
      BatchStatements(expressions, transformed, preceding, lastIndex, a, b - 1);
      assert Runs(e) == [];
    }
  }

  /** Such a batch's statements, then its pushed elements, give its source
      order. */
  lemma {:induction false} BatchOrder(expressions: seq<SourceExpr>, transformed: seq<LuaExpr>, preceding: seq<seq<Statement>>,
                                      lastIndex: int, a: nat, b: nat)
    requires Untouched(expressions, transformed, preceding, lastIndex)
    requires a < b <= |expressions|
    requires forall p :: a < p < b ==> preceding[p] == []
    ensures Runs(expressions[a]) + ListTrace(transformed[a..b]) == SourceOrder(expressions, a, b)
  {
    if a < b - 1 {
      BatchOrder(expressions, transformed, preceding, lastIndex, a, b - 1);
      assert UntouchedAt(expressions, transformed, preceding, lastIndex, b - 1);
      assert |Emitted(expressions[b - 1])| == 0;
      BatchOrderStep(expressions, transformed, a, b);
    } else {
      var e := expressions[a];
      assert UntouchedAt(expressions, transformed, preceding, lastIndex, a);
      ShouldMoveExactlyUnstable(e);
      assert transformed[a..b] == [Lowered(e)] && [Lowered(e)][..0] == [];
      assert SourceOrder(expressions, a, a) == [];
    }
  }

  /** One more position without preceding statements extends a batch's order. */
  lemma BatchOrderStep(expressions: seq<SourceExpr>, transformed: seq<LuaExpr>, a: nat, b: nat)
    requires a < b - 1 && b <= |expressions| == |transformed|
    requires transformed[b - 1] == Lowered(expressions[b - 1]) && expressions[b - 1].statements == 0
    requires Runs(expressions[a]) + ListTrace(transformed[a..b - 1]) == SourceOrder(expressions, a, b - 1)
    ensures Runs(expressions[a]) + ListTrace(transformed[a..b]) == SourceOrder(expressions, a, b)
  {
    var e := expressions[b - 1];
    var batch := transformed[a..b - 1];
    SliceSnoc(transformed, a, b);
    ListTraceAppend(batch, [Lowered(e)]);
    assert ListTrace([Lowered(e)]) == EvaluateStep(e) by {
      assert [Lowered(e)][..0] == [];
    }
    var so := SourceOrder(expressions, a, b - 1);
    assert SourceOrder(expressions, a, b) == so + Runs(e) + EvaluateStep(e);
    assert Runs(e) == [];
    assert so + Runs(e) == so;
    ExpressionListProperties.AppendAssociates(Runs(expressions[a]), ListTrace(batch), EvaluateStep(e));
  }

  /** A push evaluates exactly its batch, in order: the array identifier has
      no step of its own. */
  lemma FlushTrace(arrayName: nat, first: bool, batch: seq<LuaExpr>)
    ensures StatementTrace(FlushStatement(arrayName, first, batch)) == ListTrace(batch)
  {
    if !first {
      ListTraceAppend([Identifier(arrayName, false)], batch);
      assert [Identifier(arrayName, false)][..0] == [];
    }
  }

  /** No cut lies strictly inside the last batch. */
  lemma LastBatchHasNoCut(cuts: seq<nat>, end: nat)
    requires Ascending(cuts, end) && cuts != []
    ensures forall p :: cuts[|cuts| - 1] < p < end ==> p !in cuts
  {
    var m := |cuts| - 1;
    forall p | cuts[m] < p < end
      ensures p !in cuts
    {
      forall j | 0 <= j < |cuts|
        ensures cuts[j] != p
      {
        if j < m {
          assert cuts[j] < cuts[m];
        }
      }
    }
  }

  /** The cuts before the last one delimit the earlier batches. */
  lemma EarlierCuts(cuts: seq<nat>, end: nat)
    requires Ascending(cuts, end) && |cuts| > 1
    ensures var m := |cuts| - 1;
      && Ascending(cuts[..m], cuts[m])
      && forall p :: p < cuts[m] && p !in cuts[..m] ==> p !in cuts
  {
    var m := |cuts| - 1;
    forall p | p < cuts[m] && p in cuts
      ensures p in cuts[..m]
    {
      var j :| 0 <= j < |cuts| && cuts[j] == p;
      assert j != m;
      assert cuts[..m][j] == p;
    }
  }

  /** The last batch's statements, then its push, give its source order. */
  lemma LastBatchOrder(expressions: seq<SourceExpr>, transformed: seq<LuaExpr>, preceding: seq<seq<Statement>>,
                       lastIndex: int, arrayName: nat, cuts: seq<nat>, end: nat)
    requires Untouched(expressions, transformed, preceding, lastIndex)
    requires end <= |expressions| && Ascending(cuts, end) && cuts != []
    requires forall p :: cuts[0] < p < end && p !in cuts ==> preceding[p] == []
    ensures var c := cuts[|cuts| - 1];
      StatementsTrace(ConcatRange(preceding, c, end)) + StatementTrace(FlushStatement(arrayName, |cuts| == 1, transformed[c..end]))
      == SourceOrder(expressions, c, end)
  {
    var c := cuts[|cuts| - 1];
    LastBatchHasNoCut(cuts, end);
    BatchStatements(expressions, transformed, preceding, lastIndex, c, end);
    BatchOrder(expressions, transformed, preceding, lastIndex, c, end);
    FlushTrace(arrayName, |cuts| == 1, transformed[c..end]);
  }

  /** The batches from cuts[0] to `end`, pushed in turn, give the source order
      of that range, provided only the first position of a batch has
      preceding statements. */
  lemma {:induction false} SparseStatementsOrder(expressions: seq<SourceExpr>, transformed: seq<LuaExpr>, preceding: seq<seq<Statement>>,
                                                 lastIndex: int, arrayName: nat, cuts: seq<nat>, end: nat)
    requires Untouched(expressions, transformed, preceding, lastIndex)
    requires end <= |expressions| && Ascending(cuts, end) && cuts != []
    requires forall p :: cuts[0] < p < end && p !in cuts ==> preceding[p] == []
    ensures StatementsTrace(SparseStatements(transformed, preceding, arrayName, cuts, end)) == SourceOrder(expressions, cuts[0], end)
    decreases |cuts|
  {
    var m := |cuts| - 1;
    var c := cuts[m];
    var flush := FlushStatement(arrayName, m == 0, transformed[c..end]);
    var earlier := SparseStatements(transformed, preceding, arrayName, cuts[..m], c);
    var batch := ConcatRange(preceding, c, end);
    LastBatchOrder(expressions, transformed, preceding, lastIndex, arrayName, cuts, end);
    StatementsTraceAppend(earlier + batch, [flush]);
    StatementsTraceAppend(earlier, batch);
    assert [flush][..0] == [];
    ExpressionListProperties.AppendAssociates(StatementsTrace(earlier), StatementsTrace(batch), StatementTrace(flush));
    if m > 0 {
      assert cuts[..m][0] == cuts[0];
      EarlierCuts(cuts, end);
      SparseStatementsOrder(expressions, transformed, preceding, lastIndex, arrayName, cuts[..m], c);
      SourceOrderSplit(expressions, cuts[0], c, end);
    } else {
      assert earlier == [];
    }
  }

  /** transformExpressionsUsingSparseArray keeps the source order: the pushes
      evaluate every position, and the returned spread has no step of its
      own. */
  lemma SparsePathOrder(expressions: seq<SourceExpr>, transformed: seq<LuaExpr>, preceding: seq<seq<Statement>>,
                        lastIndex: int, arrayName: nat)
    requires Untouched(expressions, transformed, preceding, lastIndex) && |expressions| > 0
    ensures StatementsTrace(SparseArray(expressions, transformed, preceding, arrayName).statements) +
            ListTrace([LibCall(SparseArraySpread, [Identifier(arrayName, false)])])
            == SourceOrder(expressions, 0, |expressions|)
  {
    var n := |expressions|;
    var s := SparseArray(expressions, transformed, preceding, arrayName);
    ExpressionListProperties.SparseArrayShape(expressions, transformed, preceding, arrayName);
    var cuts := s.cuts;
    assert forall p :: 0 < p < n && p !in cuts ==> !StartsBatch(expressions, preceding, p);
    SparseStatementsOrder(expressions, transformed, preceding, lastIndex, arrayName, cuts, n);
    SpreadHasNoStep(arrayName);
  }

  /** The returned spread of the array has no step of its own. */
  lemma SpreadHasNoStep(arrayName: nat)
    ensures ListTrace([LibCall(SparseArraySpread, [Identifier(arrayName, false)])]) == []
  {
    var args := [Identifier(arrayName, false)];
    var spread := [LibCall(SparseArraySpread, args)];
    assert args[..0] == [];
    assert ListTrace(args) == [];
    assert ExpressionTrace(spread[0]) == [];
    assert spread[..0] == [];
  }

  // ---------------------------------------------------------------------------
  // The entry points.

  /** With no wrapped position, transformExpressions leaves every position
      untouched. */
  lemma TransformedUntouched(expressions: seq<SourceExpr>, signature: Option<Signature>, next: nat)
    requires NoWraps(expressions, signature)
    ensures var t := TransformedPrefix(expressions, signature, next, |expressions|);
      Untouched(expressions, t.transformed, t.preceding, t.lastIndex) && t.ambient == [] && t.nextTemp == next
  {
    var t := TransformedPrefix(expressions, signature, next, |expressions|);
    ExpressionListProperties.TransformedShape(expressions, signature, next, |expressions|);
    forall i | 0 <= i < |expressions|
      ensures UntouchedAt(expressions, t.transformed, t.preceding, t.lastIndex, i)
    {
      if i > t.lastIndex {
        assert t.preceding[i] == Emitted(expressions[i]) == [];
      }
    }
  }

  /** The temps path keeps the source order of an untouched list. */
  lemma TempsLoweringOrder(expressions: seq<SourceExpr>, t: Transformed)
    requires Untouched(expressions, t.transformed, t.preceding, t.lastIndex) && t.ambient == []
    ensures LoweringTrace(TempsLowering(expressions, t)) == SourceOrder(expressions, 0, |expressions|)
  {
    TempsPathOrder(expressions, t.transformed, t.preceding, t.lastIndex, t.nextTemp);
    var ts := TempsStatements(expressions, t.transformed, t.preceding, t.lastIndex, t.nextTemp, |expressions|);
    assert TempsLowering(expressions, t).statements == ts;
  }

  /** So does the sparse-array path. */
  lemma SparseLoweringOrder(expressions: seq<SourceExpr>, t: Transformed)
    requires Untouched(expressions, t.transformed, t.preceding, t.lastIndex) && t.ambient == [] && |expressions| > 0
    ensures LoweringTrace(SparseLowering(expressions, t)) == SourceOrder(expressions, 0, |expressions|)
  {
    SparsePathOrder(expressions, t.transformed, t.preceding, t.lastIndex, t.nextTemp);
    var s := SparseArray(expressions, t.transformed, t.preceding, t.nextTemp);
    assert SparseLowering(expressions, t).statements == s.statements;
  }

  /** transformExpressionList keeps the source order whenever no argument is
      wrapped, on either path. */
  lemma ExpressionListOrder(expressions: seq<SourceExpr>, signature: Option<Signature>, next: nat)
    requires NoWraps(expressions, signature)
    ensures LoweringTrace(ExpressionListLowering(expressions, signature, next)) == SourceOrder(expressions, 0, |expressions|)
  {
    var t := TransformedPrefix(expressions, signature, next, |expressions|);
    TransformedUntouched(expressions, signature, next);
    assert ExpressionListLowering(expressions, signature, next) == ListLowering(expressions, t);
    if UseSparseArray(expressions, t.transformed, t.lastIndex) {
      ExpressionListProperties.SparseOnlyWhenNonEmpty(expressions, t.transformed, t.lastIndex);
      SparseLoweringOrder(expressions, t);
    } else {
      TempsLoweringOrder(expressions, t);
    }
  }

  /** transformOrderedExpressions keeps the source order for every list. */
  lemma OrderedExpressionsOrder(expressions: seq<SourceExpr>, next: nat)
    ensures LoweringTrace(OrderedExpressions(expressions, next)) == SourceOrder(expressions, 0, |expressions|)
  {
    var t := TransformedPrefix(expressions, Option.None, next, |expressions|);
    TransformedUntouched(expressions, Option.None, next);
    TempsLoweringOrder(expressions, t);
  }
}

/** The wrap branch of transformExpressions lowers the wrapped argument as a
    list of its own and lets that list's statements reach the current scope at
    once, while the earlier arguments' statements wait in their preceding
    lists. The order theorems above therefore exclude wrapped arguments; this
    module shows the order they give up on the call f(a(), w), where w takes a
    receiver, the parameter expects none, and lowering w emits one preceding
    statement. */
module WrapOrder {
  import opened Wrappers
  import opened TsNodes
  import opened LuaAst
  import opened ExpressionListSpec
  import opened EvaluationOrder

  const A := SourceExpr(0, false, false, false, false, false, false, 0, ContextType.None)
  const W := SourceExpr(1, false, false, false, false, false, false, 1, NonVoid)
  const CallSignature := Signature([Parameter(Option.None), Parameter(Some(TsType(Option.None, Option.None, Void)))])
  const WrappedW := LibCall(FunctionWrap, [Lowered(W), Lowered(SyntheticThis)])

  /** w alone, lowered as the list [w, this]: its statement, then both values. */
  lemma WrappedArgumentLowering()
    ensures ExpressionListLowering([W, SyntheticThis], Option.None, 0) == Lowering([Lowered(W), Lowered(SyntheticThis)], [Preceding(W, 0)], 0)
  {
    var inner := [W, SyntheticThis];
    var ti := TransformedPrefix(inner, Option.None, 0, 2);
    assert Emitted(W) == [Preceding(W, 0)];
    assert TransformedPrefix(inner, Option.None, 0, 1) == Transformed([Lowered(W)], [[Preceding(W, 0)]], 0, [], 0);
    assert ti == Transformed([Lowered(W), Lowered(SyntheticThis)], [[Preceding(W, 0)], []], 0, [], 0);
    assert FirstSpread(inner[1..]) == -1;
    assert !UseSparseArray(inner, ti.transformed, ti.lastIndex);
    assert TempsStatements(inner, ti.transformed, ti.preceding, 0, 0, 1) == [Preceding(W, 0)];
    assert TempsStatements(inner, ti.transformed, ti.preceding, 0, 0, 2) == [Preceding(W, 0)];
    assert TempsExpressions(inner, ti.transformed, 0, 0) == ti.transformed;
    assert HoistCount(inner, ti.transformed, 0, 1) == 0;
    assert HoistCount(inner, ti.transformed, 0, 2) == 0;
  }

  /** The outer list keeps a() in place and wraps w; w's statement has already
      gone to the scope, ahead of anything a() needs. */
  lemma CallLowering()
    ensures Wraps([A, W], Some(CallSignature), 1)
    ensures ExpressionListLowering([A, W], Some(CallSignature), 0) == Lowering([Lowered(A), WrappedW], [Preceding(W, 0)], 0)
  {
    var es := [A, W];
    WrappedArgumentLowering();
    assert !Wraps(es, Some(CallSignature), 0);
    assert Wraps(es, Some(CallSignature), 1);
    assert TransformedPrefix(es, Some(CallSignature), 0, 1) == Transformed([Lowered(A)], [[]], -1, [], 0);
    var t := TransformedPrefix(es, Some(CallSignature), 0, 2);
    assert t == Transformed([Lowered(A), WrappedW], [[], []], -1, [Preceding(W, 0)], 0);
    assert FirstSpread(es[1..]) == -1;
    assert !UseSparseArray(es, t.transformed, t.lastIndex);
    assert TempsStatements(es, t.transformed, t.preceding, -1, 0, 1) == [];
    assert TempsStatements(es, t.transformed, t.preceding, -1, 0, 2) == [];
    assert TempsExpressions(es, t.transformed, -1, 0) == t.transformed;
    assert HoistCount(es, t.transformed, -1, 1) == 0;
    assert HoistCount(es, t.transformed, -1, 2) == 0;
  }

  lemma WrappedArgumentTrace()
    ensures ExpressionTrace(WrappedW) == [Evaluate(W)]
  {
    var args := [Lowered(W), Lowered(SyntheticThis)];
    assert args[..1] == [Lowered(W)] && [Lowered(W)][..0] == [];
    assert ExpressionTrace(Lowered(W)) == [Evaluate(W)];
    assert ExpressionTrace(Lowered(SyntheticThis)) == [];
    assert ListTrace([Lowered(W)]) == [Evaluate(W)];
  }

  lemma CallTrace()
    ensures ListTrace([Lowered(A), WrappedW]) == [Evaluate(A), Evaluate(W)]
  {
    WrappedArgumentTrace();
    assert [Lowered(A), WrappedW][..1] == [Lowered(A)] && [Lowered(A)][..0] == [];
    assert ListTrace([Lowered(A)]) == [Evaluate(A)];
  }

  /** w's statement runs before a() is evaluated, against the source order. */
  lemma WrappedStatementsRunEarly()
    ensures LoweringTrace(ExpressionListLowering([A, W], Some(CallSignature), 0)) == [Run(W, 0), Evaluate(A), Evaluate(W)]
    ensures SourceOrder([A, W], 0, 2) == [Evaluate(A), Run(W, 0), Evaluate(W)]
  {
    CallLowering();
    CallTrace();
    assert StatementsTrace([Preceding(W, 0)]) == [Run(W, 0)];
    assert Runs(W) == [Run(W, 0)];
    assert SourceOrder([A, W], 0, 1) == [Evaluate(A)];
  }
}
