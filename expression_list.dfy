// The lowering itself, src/transformation/visitors/expression-list.ts: free
// methods over a TransformationContext whose preceding-statement scope and temp
// counter they update, each proved against its function in ExpressionListSpec.

module ExpressionList {
  import opened Wrappers
  import opened TsNodes
  import opened LuaAst
  import opened ExpressionListSpec
  import ExpressionListProperties

  /** The ambient compilation state the lowering touches: the innermost
      preceding-statement scope and the counter behind fresh temp names. */
  class TransformationContext {
    var precedingStatements: seq<Statement>
    var tempCount: nat

    constructor ()
      ensures precedingStatements == [] && tempCount == 0
    {
      precedingStatements := [];
      tempCount := 0;
    }

    /** addPrecedingStatements */
    method AddPrecedingStatements(statements: seq<Statement>)
      modifies this
      ensures precedingStatements == old(precedingStatements) + statements
      ensures tempCount == old(tempCount)
    {
      precedingStatements := precedingStatements + statements;
    }

    /** createTempName / createTempNameForLuaExpression: a name never handed
        out before. */
    method CreateTempName() returns (name: nat)
      modifies this
      ensures name == old(tempCount) && tempCount == old(tempCount) + 1
      ensures precedingStatements == old(precedingStatements)
    {
      name := tempCount;
      tempCount := tempCount + 1;
    }

    /** context.transformExpression, whose workings are not part of this model:
        it yields the node's lowering and adds the node's own preceding
        statements to the current scope. */
    method TransformExpression(e: SourceExpr) returns (r: LuaExpr)
      modifies this
      ensures r == Lowered(e)
      ensures precedingStatements == old(precedingStatements) + Emitted(e)
      ensures tempCount == old(tempCount)
    {
      AddPrecedingStatements(Emitted(e));
      r := Lowered(e);
    }

    /** transformInPrecedingStatementScope around transformExpression: the
        statements go to a fresh scope and are returned, the current scope is
        left as it was. */
    method TransformInPrecedingStatementScope(e: SourceExpr) returns (statements: seq<Statement>, r: LuaExpr)
      modifies this
      ensures statements == Emitted(e) && r == Lowered(e)
      ensures precedingStatements == old(precedingStatements)
      ensures tempCount == old(tempCount)
    {
      var saved := precedingStatements;
      precedingStatements := [];
      r := TransformExpression(e);
      statements := precedingStatements;
      precedingStatements := saved;
    }
  }

  /** moveToPrecedingTemp: an expression shouldMoveToTemp exempts comes back
      unchanged and nothing is added; any other is declared in a fresh temp
      and the temp comes back. Either way the result needs no further move. */
  method MoveToPrecedingTemp(ctx: TransformationContext, expression: LuaExpr, original: Option<SourceExpr>) returns (r: LuaExpr)
    modifies ctx
    ensures !ShouldMoveToTemp(expression, original) ==>
      r == expression && ctx.precedingStatements == old(ctx.precedingStatements) && ctx.tempCount == old(ctx.tempCount)
    ensures ShouldMoveToTemp(expression, original) ==>
      r == Identifier(old(ctx.tempCount), true) &&
      ctx.precedingStatements == old(ctx.precedingStatements) + [VariableDeclaration(r, expression)] &&
      ctx.tempCount == old(ctx.tempCount) + 1
    ensures !ShouldMoveToTemp(r, original)
  {
    if !ShouldMoveToTemp(expression, original) {
      return expression;
    }
    var tempName := ctx.CreateTempName();
    var tempIdentifier := Identifier(tempName, true);
    ctx.AddPrecedingStatements([VariableDeclaration(tempIdentifier, expression)]);
    r := tempIdentifier;
  }

  /** transformExpressions */
  method TransformExpressions(ctx: TransformationContext, expressions: seq<SourceExpr>, signature: Option<Signature>)
    returns (transformed: array<LuaExpr>, preceding: seq<seq<Statement>>, lastIndex: int)
    modifies ctx
    ensures fresh(transformed)
    ensures var t := TransformedPrefix(expressions, signature, old(ctx.tempCount), |expressions|);
      transformed[..] == t.transformed && preceding == t.preceding && lastIndex == t.lastIndex &&
      ctx.precedingStatements == old(ctx.precedingStatements) + t.ambient && ctx.tempCount == t.nextTemp
    decreases SignatureRank(signature), 0
  {
    ghost var next := ctx.tempCount;
    ghost var ambient := ctx.precedingStatements;
    transformed := new LuaExpr[|expressions|];
    preceding := [];
    lastIndex := -1;
    ghost var t := TransformedPrefix(expressions, signature, next, 0);
    for i := 0 to |expressions|
      invariant t == TransformedPrefix(expressions, signature, next, i)
      invariant transformed[..i] == t.transformed && preceding == t.preceding && lastIndex == t.lastIndex
      invariant ctx.precedingStatements == ambient + t.ambient && ctx.tempCount == t.nextTemp
    {
      if signature.Some? && |signature.value.parameters| >= |expressions| {
        var signatureParameter := signature.value.parameters[i];
        if IsParamIsCallbackAndNeedWrap(expressions[i].contextType, signatureParameter) {
          // The nested list's statements go straight into the ambient scope;
          // the position itself records none.
          ghost var before := ctx.precedingStatements;
          var args := TransformExpressionList(ctx, [expressions[i], SyntheticThis], Option.None);
          ghost var inner := ExpressionListLowering([expressions[i], SyntheticThis], Option.None, t.nextTemp);
          ExpressionListProperties.AppendAssociates(ambient, t.ambient, inner.statements);
          transformed[i] := LibCall(FunctionWrap, args[..]);
          preceding := preceding + [[]];
          t := Transformed(t.transformed + [LibCall(FunctionWrap, inner.expressions)], t.preceding + [[]],
                           t.lastIndex, t.ambient + inner.statements, inner.nextTemp);
          assert transformed[..i + 1] == transformed[..i] + [transformed[i]];
          continue;
        }
      }
      var expressionPreceding, expression := ctx.TransformInPrecedingStatementScope(expressions[i]);
      transformed[i] := expression;
      if |expressionPreceding| > 0 {
        lastIndex := i;
      }
      preceding := preceding + [expressionPreceding];
      t := Transformed(t.transformed + [Lowered(expressions[i])], t.preceding + [Emitted(expressions[i])],
                       if |Emitted(expressions[i])| > 0 then i else t.lastIndex, t.ambient, t.nextTemp);
      assert transformed[..i + 1] == transformed[..i] + [transformed[i]];
    }
    assert transformed[..] == transformed[..|expressions|];
  }

  /** transformExpressionsUsingTemps: adds every position's preceding
      statements in order and overwrites in place each position that must keep
      its place before lastIndex with a fresh temp. */
  method TransformExpressionsUsingTemps(ctx: TransformationContext, expressions: seq<SourceExpr>, transformed: array<LuaExpr>,
                                        preceding: seq<seq<Statement>>, lastIndex: int) returns (r: array<LuaExpr>)
    requires transformed.Length == |expressions| == |preceding|
    modifies ctx, transformed
    ensures r == transformed
    ensures transformed[..] == TempsExpressions(expressions, old(transformed[..]), lastIndex, old(ctx.tempCount))
    ensures ctx.precedingStatements == old(ctx.precedingStatements) +
      TempsStatements(expressions, old(transformed[..]), preceding, lastIndex, old(ctx.tempCount), |expressions|)
    ensures ctx.tempCount == old(ctx.tempCount) + HoistCount(expressions, old(transformed[..]), lastIndex, |expressions|)
  {
    ghost var original := transformed[..];
    ghost var next := ctx.tempCount;
    ghost var ambient := ctx.precedingStatements;
    for i := 0 to transformed.Length
      invariant ctx.precedingStatements == ambient + TempsStatements(expressions, original, preceding, lastIndex, next, i)
      invariant ctx.tempCount == next + HoistCount(expressions, original, lastIndex, i)
      invariant forall j :: 0 <= j < i ==> transformed[j] == TempsExpressions(expressions, original, lastIndex, next)[j]
      invariant forall j :: i <= j < transformed.Length ==> transformed[j] == original[j]
    {
      ctx.AddPrecedingStatements(preceding[i]);
      if i < lastIndex {
        var moved := MoveToPrecedingTemp(ctx, transformed[i], Some(expressions[i]));
        transformed[i] := moved;
      }
    }
    r := transformed;
  }

  /** pushToSparseArray: the first push declares a fresh array with
      __TS__SparseArrayNew, later ones append with __TS__SparseArrayPush. */
  method PushToSparseArray(ctx: TransformationContext, arrayIdentifier: Option<nat>, batch: seq<LuaExpr>) returns (name: nat)
    modifies ctx
    ensures name == if arrayIdentifier.None? then old(ctx.tempCount) else arrayIdentifier.value
    ensures ctx.tempCount == if arrayIdentifier.None? then old(ctx.tempCount) + 1 else old(ctx.tempCount)
    ensures ctx.precedingStatements == old(ctx.precedingStatements) + [FlushStatement(name, arrayIdentifier.None?, batch)]
  {
    if arrayIdentifier.None? {
      name := ctx.CreateTempName();
      var libCall := LibCall(SparseArrayNew, batch);
      ctx.AddPrecedingStatements([VariableDeclaration(Identifier(name, false), libCall)]);
    } else {
      name := arrayIdentifier.value;
      var libCall := LibCall(SparseArrayPush, [Identifier(name, false)] + batch);
      ctx.AddPrecedingStatements([ExpressionStatement(libCall)]);
    }
  }

  /** The state of the loop in transformExpressionsUsingSparseArray after the
      first i positions, against SparsePrefix: the current batch is the
      positions since the last push, the scope holds what was added so far, and
      the array (named `next`) exists once a batch has been pushed. */
  ghost predicate SparseLoopState(expressions: seq<SourceExpr>, transformed: seq<LuaExpr>, preceding: seq<seq<Statement>>,
                                  next: nat, ambient: seq<Statement>, i: nat,
                                  scope: seq<Statement>, tempCount: nat, arrayIdentifier: Option<nat>, expressionBatch: seq<LuaExpr>)
    requires |expressions| == |transformed| == |preceding| && i <= |transformed|
  {
    var s := SparsePrefix(expressions, transformed, preceding, next, i);
    && expressionBatch == transformed[s.start..i]
    && scope == ambient + s.statements
    && (s.cuts == [] ==> arrayIdentifier.None? && tempCount == next && s.start == 0)
    && (s.cuts != [] ==> arrayIdentifier == Some(next) && tempCount == next + 1)
  }

  /** One iteration of the loop in transformExpressionsUsingSparseArray:
      position i closes the current batch if it has preceding statements, adds
      those statements, joins the batch, and closes it if it is a spread. */
  method SparseArrayPosition(ctx: TransformationContext, expressions: seq<SourceExpr>, transformed: array<LuaExpr>,
                             preceding: seq<seq<Statement>>, i: nat, arrayIdentifier: Option<nat>, expressionBatch: seq<LuaExpr>,
                             ghost next: nat, ghost ambient: seq<Statement>)
    returns (arrayIdentifier': Option<nat>, expressionBatch': seq<LuaExpr>)
    requires transformed.Length == |expressions| == |preceding| && i < |expressions|
    requires SparseLoopState(expressions, transformed[..], preceding, next, ambient, i,
                             ctx.precedingStatements, ctx.tempCount, arrayIdentifier, expressionBatch)
    modifies ctx
    ensures SparseLoopState(expressions, transformed[..], preceding, next, ambient, i + 1,
                            ctx.precedingStatements, ctx.tempCount, arrayIdentifier', expressionBatch')
  {
    ghost var ts := transformed[..];
    ghost var s := SparsePrefix(expressions, ts, preceding, next, i);
    arrayIdentifier', expressionBatch' := arrayIdentifier, expressionBatch;
    // A position with preceding statements starts a new batch.
    if |preceding[i]| > 0 && |expressionBatch'| > 0 {
      var name := PushToSparseArray(ctx, arrayIdentifier', expressionBatch');
      ExpressionListProperties.AppendAssociates(ambient, s.statements, [FlushStatement(next, s.cuts == [], expressionBatch')]);
      arrayIdentifier' := Some(name);
      expressionBatch' := [];
      s := Flush(s, ts, next, i);
    }
    ctx.AddPrecedingStatements(preceding[i]);
    ExpressionListProperties.AppendAssociates(ambient, s.statements, preceding[i]);
    expressionBatch' := expressionBatch' + [transformed[i]];
    s := s.(statements := s.statements + preceding[i]);
    assert expressionBatch' == ts[s.start..i + 1];
    // A spread ends its batch.
    if expressions[i].spread {
      var name := PushToSparseArray(ctx, arrayIdentifier', expressionBatch');
      ExpressionListProperties.AppendAssociates(ambient, s.statements, [FlushStatement(next, s.cuts == [], expressionBatch')]);
      arrayIdentifier' := Some(name);
      expressionBatch' := [];
      s := Flush(s, ts, next, i + 1);
    }
    assert s == SparsePrefix(expressions, ts, preceding, next, i + 1);
    assert expressionBatch' == ts[s.start..i + 1];
  }

  /** transformExpressionsUsingSparseArray. The source asserts that an array
      was created, which fails only on an empty list: its caller never passes
      one, and for a non-empty list the assertion is proved below. */
  method TransformExpressionsUsingSparseArray(ctx: TransformationContext, expressions: seq<SourceExpr>, transformed: array<LuaExpr>,
                                              preceding: seq<seq<Statement>>) returns (r: array<LuaExpr>)
    requires transformed.Length == |expressions| == |preceding| > 0
    modifies ctx
    ensures fresh(r)
    ensures r[..] == [LibCall(SparseArraySpread, [Identifier(old(ctx.tempCount), false)])]
    ensures ctx.precedingStatements == old(ctx.precedingStatements) +
      SparseArray(expressions, transformed[..], preceding, old(ctx.tempCount)).statements
    ensures ctx.tempCount == old(ctx.tempCount) + 1
  {
    ghost var next := ctx.tempCount;
    ghost var ambient := ctx.precedingStatements;
    var arrayIdentifier: Option<nat> := Option.None;
    var expressionBatch: seq<LuaExpr> := [];
    for i := 0 to |expressions|
      invariant SparseLoopState(expressions, transformed[..], preceding, next, ambient, i,
                                ctx.precedingStatements, ctx.tempCount, arrayIdentifier, expressionBatch)
    {
      arrayIdentifier, expressionBatch :=
        SparseArrayPosition(ctx, expressions, transformed, preceding, i, arrayIdentifier, expressionBatch, next, ambient);
    }
    ghost var ts := transformed[..];
    ghost var s := SparsePrefix(expressions, ts, preceding, next, |expressions|);
    assert expressionBatch == ts[s.start..|expressions|];
    if |expressionBatch| > 0 {
      var name := PushToSparseArray(ctx, arrayIdentifier, expressionBatch);
      arrayIdentifier := Some(name);
      s := Flush(s, ts, next, |expressions|);
    }
    assert s == SparseArray(expressions, ts, preceding, next);
    assert arrayIdentifier.Some?;
    r := new LuaExpr[1];
    r[0] := LibCall(SparseArraySpread, [Identifier(arrayIdentifier.value, false)]);
  }

  /** countNeededTemps: exactly the number of temps the temps path would
      create for this list. */
  method CountNeededTempsOf(expressions: seq<SourceExpr>, transformed: array<LuaExpr>, lastIndex: int) returns (count: nat)
    requires transformed.Length == |expressions| && lastIndex < transformed.Length
    ensures count == CountNeededTemps(expressions, transformed[..], lastIndex)
    ensures count == HoistCount(expressions, transformed[..], lastIndex, transformed.Length)
  {
    ExpressionListProperties.CountNeededTempsIsHoistCount(expressions, transformed[..], lastIndex);
    if lastIndex < 0 {
      return 0;
    }
    count := |MovableAmong(expressions, transformed[..lastIndex])|;
  }

  /** transformExpressionList: the sparse array when a spread stands before the
      last position or more than MaxTemps temps would be needed, the temps path
      otherwise. */
  method TransformExpressionList(ctx: TransformationContext, expressions: seq<SourceExpr>, signature: Option<Signature>)
    returns (r: array<LuaExpr>)
    modifies ctx
    ensures fresh(r)
    ensures var l := ExpressionListLowering(expressions, signature, old(ctx.tempCount));
      r[..] == l.expressions && ctx.precedingStatements == old(ctx.precedingStatements) + l.statements &&
      ctx.tempCount == l.nextTemp
    decreases SignatureRank(signature), 1
  {
    ghost var next := ctx.tempCount;
    ghost var scope := ctx.precedingStatements;
    var transformed, preceding, lastIndex := TransformExpressions(ctx, expressions, signature);
    ghost var t := TransformedPrefix(expressions, signature, next, |expressions|);
    ghost var mid := ctx.precedingStatements;
    assert ExpressionListLowering(expressions, signature, next) == ListLowering(expressions, t);
    var lastSpread := FirstSpread(expressions);
    var needed := CountNeededTempsOf(expressions, transformed, lastIndex);
    if (lastSpread >= 0 && lastSpread < |expressions| - 1) || needed > MaxTemps {
      assert UseSparseArray(expressions, t.transformed, t.lastIndex);
      ExpressionListProperties.SparseOnlyWhenNonEmpty(expressions, t.transformed, t.lastIndex);
      r := TransformExpressionsUsingSparseArray(ctx, expressions, transformed, preceding);
    } else {
      assert !UseSparseArray(expressions, t.transformed, t.lastIndex);
      r := TransformExpressionsUsingTemps(ctx, expressions, transformed, preceding, lastIndex);
    }
    ghost var rest := ctx.precedingStatements[|mid|..];
    assert ctx.precedingStatements == mid + rest;
    ListLoweringParts(expressions, t, r[..], rest, ctx.tempCount);
    ExpressionListProperties.AppendAssociates(scope, t.ambient, rest);
  }

  /** The outcome of either path, put together with the statements
      transformExpressions left in the scope. */
  lemma ListLoweringParts(expressions: seq<SourceExpr>, t: Transformed, list: seq<LuaExpr>, rest: seq<Statement>, nextTemp: nat)
    requires |t.transformed| == |t.preceding| == |expressions| && t.lastIndex < |expressions|
    requires UseSparseArray(expressions, t.transformed, t.lastIndex) ==>
      list == [LibCall(SparseArraySpread, [Identifier(t.nextTemp, false)])] &&
      rest == SparseArray(expressions, t.transformed, t.preceding, t.nextTemp).statements && nextTemp == t.nextTemp + 1
    requires !UseSparseArray(expressions, t.transformed, t.lastIndex) ==>
      list == TempsExpressions(expressions, t.transformed, t.lastIndex, t.nextTemp) &&
      rest == TempsStatements(expressions, t.transformed, t.preceding, t.lastIndex, t.nextTemp, |expressions|) &&
      nextTemp == t.nextTemp + HoistCount(expressions, t.transformed, t.lastIndex, |expressions|)
    ensures ListLowering(expressions, t) == Lowering(list, t.ambient + rest, nextTemp)
  {
  }

  /** transformOrderedExpressions: always the temps path. */
  method TransformOrderedExpressions(ctx: TransformationContext, expressions: seq<SourceExpr>) returns (r: array<LuaExpr>)
    modifies ctx
    ensures fresh(r)
    ensures var l := OrderedExpressions(expressions, old(ctx.tempCount));
      r[..] == l.expressions && ctx.precedingStatements == old(ctx.precedingStatements) + l.statements &&
      ctx.tempCount == l.nextTemp
  {
    var transformed, preceding, lastIndex := TransformExpressions(ctx, expressions, Option.None);
    r := TransformExpressionsUsingTemps(ctx, expressions, transformed, preceding, lastIndex);
  }
}
