// Properties of the expression-list lowering, proved about the specification
// functions of module ExpressionListSpec.

module ExpressionListProperties {
  import opened Wrappers
  import opened TsNodes
  import opened LuaAst
  import opened ExpressionListSpec

  // ---------------------------------------------------------------------------
  // The hoisting rule.

  /** A lowered expression is moved to a temp exactly when it is none of the
      exempt kinds; a generated temp is never moved again. */
  lemma ShouldMoveToTempExemptions(e: SourceExpr, name: nat, original: Option<SourceExpr>)
    ensures ShouldMoveToTemp(Lowered(e), Some(e)) <==>
      !(e.literal || e.tempIdentifier || e.constIdentifier || e.optionalContinuation || e.thisKeyword)
    ensures !ShouldMoveToTemp(Identifier(name, true), original)
    ensures ShouldMoveToTemp(Lowered(e), Option.None) <==> !(e.literal || e.tempIdentifier)
  {
  }

  /** The wrap decision is one-directional: a receiver-taking argument passed
      to a receiver-free parameter is wrapped; the reverse mismatch, a Mixed
      side, equal conventions or a missing declaration never are. */
  lemma WrapDirectionality(from: ContextType, to: TsType)
    requires to.types.None?
    ensures IsParamIsCallbackAndNeedWrap(from, Parameter(Some(to))) <==> from == NonVoid && to.contextType == Void
    ensures from == Void && to.contextType == NonVoid ==> !IsParamIsCallbackAndNeedWrap(from, Parameter(Some(to)))
    ensures from == Mixed || to.contextType == Mixed ==> !IsParamIsCallbackAndNeedWrap(from, Parameter(Some(to)))
    ensures !IsParamIsCallbackAndNeedWrap(from, Parameter(Option.None))
  {
  }

  /** An optional parameter `undefined | F` is judged by F's convention. */
  lemma OptionalParameterUnwrapped(from: ContextType, undefinedType: TsType, member: TsType, unionContext: ContextType)
    requires undefinedType.intrinsicName == Some("undefined")
    ensures var union := TsType(Some([undefinedType, member]), Option.None, unionContext);
      ResolveSignatureTypeByExpressionType(union) == member &&
      (IsParamIsCallbackAndNeedWrap(from, Parameter(Some(union))) <==> from == NonVoid && member.contextType == Void)
  {
  }

  // ---------------------------------------------------------------------------
  // transformExpressions

  /** lastIndex is the greatest index whose preceding list is non-empty, -1
      when there is none. */
  lemma {:induction false} TransformedLastIndex(expressions: seq<SourceExpr>, signature: Option<Signature>, next: nat, k: nat)
    requires k <= |expressions|
    ensures var t := TransformedPrefix(expressions, signature, next, k);
      && (t.lastIndex >= 0 ==> t.preceding[t.lastIndex] != [])
      && (forall j :: t.lastIndex < j < k ==> t.preceding[j] == [])
  {
    if k > 0 {
      TransformedLastIndex(expressions, signature, next, k - 1);
      var t := TransformedPrefix(expressions, signature, next, k - 1);
      var t' := TransformedPrefix(expressions, signature, next, k);
      assert t'.preceding[..k - 1] == t.preceding;
    }
  }

  /** The first k-1 positions are left as they were by position k-1. */
  lemma TransformedExtends(expressions: seq<SourceExpr>, signature: Option<Signature>, next: nat, k: nat)
    requires 0 < k <= |expressions|
    ensures var t := TransformedPrefix(expressions, signature, next, k - 1);
      var t' := TransformedPrefix(expressions, signature, next, k);
      t'.transformed[..k - 1] == t.transformed && t'.preceding[..k - 1] == t.preceding
  {
    var t := TransformedPrefix(expressions, signature, next, k - 1);
    var t' := TransformedPrefix(expressions, signature, next, k);
    if Wraps(expressions, signature, k - 1) {
      var inner := ExpressionListLowering([expressions[k - 1], SyntheticThis], Option.None, t.nextTemp);
      assert t'.transformed == t.transformed + [LibCall(FunctionWrap, inner.expressions)];
      assert t'.preceding == t.preceding + [[]];
    } else {
      assert t'.transformed == t.transformed + [Lowered(expressions[k - 1])];
      assert t'.preceding == t.preceding + [Emitted(expressions[k - 1])];
    }
  }

  /** Position j is settled once it has been visited. */
  lemma {:induction false} TransformedSettled(expressions: seq<SourceExpr>, signature: Option<Signature>, next: nat, j: nat, k: nat)
    requires j < k <= |expressions|
    ensures var t := TransformedPrefix(expressions, signature, next, j + 1);
      var t' := TransformedPrefix(expressions, signature, next, k);
      t'.transformed[j] == t.transformed[j] && t'.preceding[j] == t.preceding[j]
  {
    if k > j + 1 {
      TransformedSettled(expressions, signature, next, j, k - 1);
      TransformedExtends(expressions, signature, next, k);
      var t := TransformedPrefix(expressions, signature, next, k - 1);
      var t' := TransformedPrefix(expressions, signature, next, k);
      assert t'.transformed[j] == t'.transformed[..k - 1][j];
      assert t'.preceding[j] == t'.preceding[..k - 1][j];
    }
  }

  /** Each position not wrapped keeps its own lowering and preceding
      statements; each wrapped one becomes a __TS__FunctionWrap call with an
      empty preceding list. */
  lemma TransformedPositions(expressions: seq<SourceExpr>, signature: Option<Signature>, next: nat, k: nat)
    requires k <= |expressions|
    ensures var t := TransformedPrefix(expressions, signature, next, k);
      && (forall j :: 0 <= j < k && !Wraps(expressions, signature, j) ==>
            t.transformed[j] == Lowered(expressions[j]) && t.preceding[j] == Emitted(expressions[j]))
      && (forall j :: 0 <= j < k && Wraps(expressions, signature, j) ==>
            t.preceding[j] == [] && t.transformed[j].LibCall? && t.transformed[j].feature == FunctionWrap)
  {
    forall j | 0 <= j < k
      ensures var t := TransformedPrefix(expressions, signature, next, k);
        && (!Wraps(expressions, signature, j) ==>
              t.transformed[j] == Lowered(expressions[j]) && t.preceding[j] == Emitted(expressions[j]))
        && (Wraps(expressions, signature, j) ==>
              t.preceding[j] == [] && t.transformed[j].LibCall? && t.transformed[j].feature == FunctionWrap)
    {
      TransformedSettled(expressions, signature, next, j, k);
    }
  }

  /** Without a wrapped position nothing reaches the ambient scope and no temp
      is created while transforming. */
  lemma {:induction false} TransformedWithoutWraps(expressions: seq<SourceExpr>, signature: Option<Signature>, next: nat, k: nat)
    requires k <= |expressions|
    requires forall j :: 0 <= j < k ==> !Wraps(expressions, signature, j)
    ensures var t := TransformedPrefix(expressions, signature, next, k);
      t.ambient == [] && t.nextTemp == next
  {
    if k > 0 {
      TransformedWithoutWraps(expressions, signature, next, k - 1);
    }
  }

  /** All three facts together. */
  lemma TransformedShape(expressions: seq<SourceExpr>, signature: Option<Signature>, next: nat, k: nat)
    requires k <= |expressions|
    ensures var t := TransformedPrefix(expressions, signature, next, k);
      && (t.lastIndex >= 0 ==> t.preceding[t.lastIndex] != [])
      && (forall j :: t.lastIndex < j < k ==> t.preceding[j] == [])
      && (forall j :: 0 <= j < k && !Wraps(expressions, signature, j) ==>
            t.transformed[j] == Lowered(expressions[j]) && t.preceding[j] == Emitted(expressions[j]))
      && (forall j :: 0 <= j < k && Wraps(expressions, signature, j) ==>
            t.preceding[j] == [] && t.transformed[j].LibCall? && t.transformed[j].feature == FunctionWrap)
      && ((forall j :: 0 <= j < k ==> !Wraps(expressions, signature, j)) ==> t.ambient == [] && t.nextTemp == next)
  {
    TransformedLastIndex(expressions, signature, next, k);
    TransformedPositions(expressions, signature, next, k);
    if forall j :: 0 <= j < k ==> !Wraps(expressions, signature, j) {
      TransformedWithoutWraps(expressions, signature, next, k);
    }
  }

  /** Wrapping is considered only when the signature has at least as many
      parameters as there are expressions. */
  lemma WrapNeedsEnoughParameters(expressions: seq<SourceExpr>, signature: Signature, next: nat)
    requires |signature.parameters| < |expressions|
    ensures NoWraps(expressions, Some(signature))
    ensures var t := TransformedPrefix(expressions, Some(signature), next, |expressions|);
      t.transformed == seq(|expressions|, j requires 0 <= j < |expressions| => Lowered(expressions[j]))
  {
    TransformedShape(expressions, Some(signature), next, |expressions|);
  }

  // ---------------------------------------------------------------------------
  // The temps path.

  /** The temps path replaces position i exactly when i lies strictly before
      lastIndex and shouldMoveToTemp holds for it; it keeps the length. */
  lemma TempsPathReplaces(expressions: seq<SourceExpr>, transformed: seq<LuaExpr>, lastIndex: int, next: nat, i: nat)
    requires |transformed| == |expressions| && i < |transformed|
    ensures |TempsExpressions(expressions, transformed, lastIndex, next)| == |transformed|
    ensures TempsExpressions(expressions, transformed, lastIndex, next)[i] != transformed[i] <==>
      i < lastIndex && ShouldMoveToTemp(transformed[i], Some(expressions[i]))
  {
  }

  /** HoistCount only grows, by one at each hoisted position. */
  lemma {:induction false} HoistCountMonotone(expressions: seq<SourceExpr>, transformed: seq<LuaExpr>, lastIndex: int, i: nat, j: nat)
    requires i <= j <= |transformed| == |expressions|
    ensures HoistCount(expressions, transformed, lastIndex, i) <= HoistCount(expressions, transformed, lastIndex, j)
    ensures i < j && Hoists(expressions, transformed, lastIndex, i) ==>
      HoistCount(expressions, transformed, lastIndex, i) < HoistCount(expressions, transformed, lastIndex, j)
    decreases j - i
  {
    if i < j {
      HoistCountMonotone(expressions, transformed, lastIndex, i, j - 1);
    }
  }

  /** The temps of two different hoisted positions are different identifiers,
      numbered from `next` on: each temp is fresh. */
  lemma TempsAreFresh(expressions: seq<SourceExpr>, transformed: seq<LuaExpr>, lastIndex: int, next: nat, i: nat, j: nat)
    requires i < j < |transformed| == |expressions|
    requires Hoists(expressions, transformed, lastIndex, i) && Hoists(expressions, transformed, lastIndex, j)
    ensures TempFor(expressions, transformed, lastIndex, next, i) != TempFor(expressions, transformed, lastIndex, next, j)
    ensures next <= TempFor(expressions, transformed, lastIndex, next, i).name
    ensures TempFor(expressions, transformed, lastIndex, next, j).name < next + HoistCount(expressions, transformed, lastIndex, |transformed|)
  {
    HoistCountMonotone(expressions, transformed, lastIndex, i, j);
    HoistCountMonotone(expressions, transformed, lastIndex, j, |transformed|);
  }

  /** Before lastIndex, the hoisted positions are exactly those counted by
      the filter in countNeededTemps. */
  lemma {:induction false} MovableAmongIsHoistCount(expressions: seq<SourceExpr>, transformed: seq<LuaExpr>, lastIndex: int, k: nat)
    requires |transformed| == |expressions|
    requires k <= lastIndex < |transformed|
    ensures |MovableAmong(expressions, transformed[..k])| == HoistCount(expressions, transformed, lastIndex, k)
  {
    if k > 0 {
      MovableAmongIsHoistCount(expressions, transformed, lastIndex, k - 1);
      assert transformed[..k][..k - 1] == transformed[..k - 1];
    }
  }

  /** From lastIndex on nothing is hoisted. */
  lemma {:induction false} NoHoistFromLastIndex(expressions: seq<SourceExpr>, transformed: seq<LuaExpr>, lastIndex: int, k: nat)
    requires |transformed| == |expressions|
    requires k <= |transformed|
    ensures HoistCount(expressions, transformed, lastIndex, k) ==
      HoistCount(expressions, transformed, lastIndex, if lastIndex < 0 then 0 else if k < lastIndex then k else lastIndex)
  {
    if k > 0 {
      NoHoistFromLastIndex(expressions, transformed, lastIndex, k - 1);
    }
  }

  /** countNeededTemps is 0 when lastIndex is negative, and otherwise the
      number of temps the temps path creates, at most lastIndex. */
  lemma CountNeededTempsIsHoistCount(expressions: seq<SourceExpr>, transformed: seq<LuaExpr>, lastIndex: int)
    requires |transformed| == |expressions|
    requires lastIndex < |transformed|
    ensures lastIndex < 0 ==> CountNeededTemps(expressions, transformed, lastIndex) == 0
    ensures CountNeededTemps(expressions, transformed, lastIndex) == HoistCount(expressions, transformed, lastIndex, |transformed|)
    ensures lastIndex >= 0 ==> CountNeededTemps(expressions, transformed, lastIndex) <= lastIndex
  {
    NoHoistFromLastIndex(expressions, transformed, lastIndex, |transformed|);
    if lastIndex >= 0 {
      MovableAmongIsHoistCount(expressions, transformed, lastIndex, lastIndex);
    }
  }

  // ---------------------------------------------------------------------------
  // The sparse-array path.

  function Flatten(batches: seq<seq<LuaExpr>>): seq<LuaExpr> {
    if batches == [] then [] else Flatten(batches[..|batches| - 1]) + batches[|batches| - 1]
  }

  /** Pushing the current batch at `end` extends the rendered batches by one. */
  lemma FlushRenders(s: SparseState, transformed: seq<LuaExpr>, preceding: seq<seq<Statement>>, arrayName: nat, end: nat)
    requires |preceding| == |transformed|
    requires s.start < end <= |transformed|
    requires Ascending(s.cuts, s.start)
    requires s.statements == SparseStatements(transformed, preceding, arrayName, s.cuts, s.start) + ConcatRange(preceding, s.start, end)
    ensures var f := Flush(s, transformed, arrayName, end);
      f.cuts == s.cuts + [s.start] && f.start == end && Ascending(f.cuts, end) &&
      f.statements == SparseStatements(transformed, preceding, arrayName, f.cuts, end)
  {
    var cuts := s.cuts + [s.start];
    assert cuts[..|s.cuts|] == s.cuts;
  }

  /** The invariant of the sparse loop after k positions: the pushed batches
      start at strictly increasing cuts beginning at 0, a batch starts at
      exactly the positions that have preceding statements or follow a
      spread, and the statements are the rendered batches followed by the
      preceding statements of the current batch. */
  ghost predicate SparseInvariant(expressions: seq<SourceExpr>, transformed: seq<LuaExpr>, preceding: seq<seq<Statement>>,
                                  arrayName: nat, s: SparseState, k: nat)
    requires |expressions| == |transformed| == |preceding|
    requires k <= |transformed|
  {
    && s.start <= k
    && Ascending(s.cuts, s.start)
    && (s.cuts == [] ==> s.start == 0)
    && (s.cuts != [] ==> s.cuts[0] == 0)
    && (forall p :: 0 < p < k ==> ((p in s.cuts || p == s.start) <==> StartsBatch(expressions, preceding, p)))
    && s.statements == SparseStatements(transformed, preceding, arrayName, s.cuts, s.start) + ConcatRange(preceding, s.start, k)
  }

  /** Pushing a non-empty current batch keeps the invariant. */
  lemma FlushKeepsInvariant(expressions: seq<SourceExpr>, transformed: seq<LuaExpr>, preceding: seq<seq<Statement>>,
                            arrayName: nat, s: SparseState, k: nat)
    requires |expressions| == |transformed| == |preceding|
    requires k <= |transformed|
    requires SparseInvariant(expressions, transformed, preceding, arrayName, s, k) && s.start < k
    ensures SparseInvariant(expressions, transformed, preceding, arrayName, Flush(s, transformed, arrayName, k), k)
  {
    FlushRenders(s, transformed, preceding, arrayName, k);
  }

  /** Position i before the spread test: push first if it has preceding
      statements and the batch is non-empty, then add its statements. */
  lemma StepKeepsInvariant(expressions: seq<SourceExpr>, transformed: seq<LuaExpr>, preceding: seq<seq<Statement>>,
                           arrayName: nat, s: SparseState, i: nat)
    requires |expressions| == |transformed| == |preceding|
    requires i < |transformed|
    requires SparseInvariant(expressions, transformed, preceding, arrayName, s, i)
    requires i > 0 ==> (s.start == i <==> expressions[i - 1].spread)
    ensures var s1 := if preceding[i] != [] && s.start < i then Flush(s, transformed, arrayName, i) else s;
      var s2 := s1.(statements := s1.statements + preceding[i]);
      SparseInvariant(expressions, transformed, preceding, arrayName, s2, i + 1) && s2.start <= i
  {
    var s1 := if preceding[i] != [] && s.start < i then Flush(s, transformed, arrayName, i) else s;
    if preceding[i] != [] && s.start < i {
      FlushKeepsInvariant(expressions, transformed, preceding, arrayName, s, i);
    }
    assert SparseInvariant(expressions, transformed, preceding, arrayName, s1, i);
    assert i > 0 ==> ((i in s1.cuts || i == s1.start) <==> StartsBatch(expressions, preceding, i));
    AddStatementsKeepsInvariant(expressions, transformed, preceding, arrayName, s1, i);
  }

  /** Adding position i's statements to the current batch extends the
      invariant over position i, once i is correctly marked as a batch start
      or not. */
  lemma AddStatementsKeepsInvariant(expressions: seq<SourceExpr>, transformed: seq<LuaExpr>, preceding: seq<seq<Statement>>,
                                    arrayName: nat, s: SparseState, i: nat)
    requires |expressions| == |transformed| == |preceding|
    requires i < |transformed|
    requires SparseInvariant(expressions, transformed, preceding, arrayName, s, i)
    requires i > 0 ==> ((i in s.cuts || i == s.start) <==> StartsBatch(expressions, preceding, i))
    ensures SparseInvariant(expressions, transformed, preceding, arrayName, s.(statements := s.statements + preceding[i]), i + 1)
  {
    var rendered := SparseStatements(transformed, preceding, arrayName, s.cuts, s.start);
    assert ConcatRange(preceding, s.start, i + 1) == ConcatRange(preceding, s.start, i) + preceding[i];
    AppendAssociates(rendered, ConcatRange(preceding, s.start, i), preceding[i]);
  }

  lemma {:induction false} SparsePrefixInvariant(expressions: seq<SourceExpr>, transformed: seq<LuaExpr>,
                                                 preceding: seq<seq<Statement>>, arrayName: nat, k: nat)
    requires |expressions| == |transformed| == |preceding|
    requires k <= |transformed|
    ensures var s := SparsePrefix(expressions, transformed, preceding, arrayName, k);
      SparseInvariant(expressions, transformed, preceding, arrayName, s, k) &&
      (k > 0 ==> (s.start == k <==> expressions[k - 1].spread))
  {
    if k > 0 {
      var i := k - 1;
      SparsePrefixInvariant(expressions, transformed, preceding, arrayName, i);
      var s := SparsePrefix(expressions, transformed, preceding, arrayName, i);
      StepKeepsInvariant(expressions, transformed, preceding, arrayName, s, i);
      var s1 := if preceding[i] != [] && s.start < i then Flush(s, transformed, arrayName, i) else s;
      var s2 := s1.(statements := s1.statements + preceding[i]);
      if expressions[i].spread {
        FlushKeepsInvariant(expressions, transformed, preceding, arrayName, s2, k);
      }
    }
  }

  /** The flushed batches, concatenated, are the list itself. */
  lemma {:induction false} BatchesFlatten(transformed: seq<LuaExpr>, cuts: seq<nat>, end: nat)
    requires end <= |transformed| && Ascending(cuts, end) && cuts != []
    ensures Flatten(Batches(transformed, cuts, end)) == transformed[cuts[0]..end]
    decreases |cuts|
  {
    var m := |cuts| - 1;
    var b := Batches(transformed, cuts, end);
    assert b[..m] == Batches(transformed, cuts[..m], cuts[m]);
    if m > 0 {
      BatchesFlatten(transformed, cuts[..m], cuts[m]);
      assert transformed[cuts[0]..cuts[m]] + transformed[cuts[m]..end] == transformed[cuts[0]..end];
    }
  }

  /** After the final push every position has been visited. */
  lemma SparseArrayInvariant(expressions: seq<SourceExpr>, transformed: seq<LuaExpr>, preceding: seq<seq<Statement>>, arrayName: nat)
    requires |expressions| == |transformed| == |preceding|
    ensures var f := SparseArray(expressions, transformed, preceding, arrayName);
      f.start == |transformed| && SparseInvariant(expressions, transformed, preceding, arrayName, f, |transformed|)
  {
    var n := |transformed|;
    SparsePrefixInvariant(expressions, transformed, preceding, arrayName, n);
    var s := SparsePrefix(expressions, transformed, preceding, arrayName, n);
    if s.start < n {
      FlushKeepsInvariant(expressions, transformed, preceding, arrayName, s, n);
    }
  }

  /** transformExpressionsUsingSparseArray on a non-empty list: the batches
      start at 0 and at exactly the positions that have preceding statements
      or follow a spread; together they are the whole list, in order; the
      first push declares the array and the later ones append to it. */
  lemma SparseArrayShape(expressions: seq<SourceExpr>, transformed: seq<LuaExpr>, preceding: seq<seq<Statement>>, arrayName: nat)
    requires |expressions| == |transformed| == |preceding| > 0
    ensures var s := SparseArray(expressions, transformed, preceding, arrayName);
      && s.start == |transformed| && s.cuts != [] && s.cuts[0] == 0 && Ascending(s.cuts, |transformed|)
      && (forall p :: 0 < p < |transformed| ==> (p in s.cuts <==> StartsBatch(expressions, preceding, p)))
      && s.statements == SparseStatements(transformed, preceding, arrayName, s.cuts, |transformed|)
      && Flatten(Batches(transformed, s.cuts, |transformed|)) == transformed
  {
    var n := |transformed|;
    SparseArrayInvariant(expressions, transformed, preceding, arrayName);
    var f := SparseArray(expressions, transformed, preceding, arrayName);
    assert ConcatRange(preceding, n, n) == [];
    BatchesFlatten(transformed, f.cuts, n);
    assert transformed[0..n] == transformed;
  }

  /** Consequences for single positions: a position with preceding statements
      is the first of its batch, and the position after a spread is too. */
  lemma SparseBatchBoundaries(expressions: seq<SourceExpr>, transformed: seq<LuaExpr>, preceding: seq<seq<Statement>>,
                              arrayName: nat, p: nat)
    requires |expressions| == |transformed| == |preceding| && p < |transformed|
    ensures var s := SparseArray(expressions, transformed, preceding, arrayName);
      && (preceding[p] != [] ==> p in s.cuts)
      && (expressions[p].spread && p + 1 < |transformed| ==> p + 1 in s.cuts)
  {
    SparseArrayShape(expressions, transformed, preceding, arrayName);
  }

  // ---------------------------------------------------------------------------
  // Choosing the strategy.

  /** Although findIndex yields the first spread, the test "lastSpread lies in
      [0, n-2]" holds exactly when some spread stands before the last position. */
  lemma SpreadBeforeLast(expressions: seq<SourceExpr>)
    ensures (0 <= FirstSpread(expressions) < |expressions| - 1) <==>
      exists j :: 0 <= j < |expressions| - 1 && expressions[j].spread
  {
  }

  /** The sparse path is only taken for a non-empty list, so its assertion
      that an array was created always holds. */
  lemma SparseOnlyWhenNonEmpty(expressions: seq<SourceExpr>, transformed: seq<LuaExpr>, lastIndex: int)
    requires |transformed| == |expressions|
    requires lastIndex < |transformed|
    requires UseSparseArray(expressions, transformed, lastIndex)
    ensures |expressions| > 0
  {
  }

  /** transformExpressionList creates at most MaxTemps temps of its own: the
      temps path is chosen only when no spread stands before the last position
      and countNeededTemps is at most 2; otherwise the sparse path creates one
      array and returns a single expression. */
  lemma ExpressionListTempBudget(expressions: seq<SourceExpr>, signature: Option<Signature>, next: nat)
    ensures var t := TransformedPrefix(expressions, signature, next, |expressions|);
      var r := ExpressionListLowering(expressions, signature, next);
      && r.nextTemp <= t.nextTemp + MaxTemps
      && (UseSparseArray(expressions, t.transformed, t.lastIndex) ==>
            r.nextTemp == t.nextTemp + 1 && |r.expressions| == 1)
      && (!UseSparseArray(expressions, t.transformed, t.lastIndex) ==>
            |r.expressions| == |expressions| &&
            (forall j :: 0 <= j < |expressions| - 1 ==> !expressions[j].spread) &&
            r.nextTemp == t.nextTemp + CountNeededTemps(expressions, t.transformed, t.lastIndex))
  {
    var t := TransformedPrefix(expressions, signature, next, |expressions|);
    CountNeededTempsIsHoistCount(expressions, t.transformed, t.lastIndex);
  }

  /** transformOrderedExpressions keeps the length and never uses the sparse
      array; it hoists exactly what countNeededTemps counts. */
  lemma OrderedExpressionsUseTemps(expressions: seq<SourceExpr>, next: nat)
    ensures var t := TransformedPrefix(expressions, Option.None, next, |expressions|);
      var r := OrderedExpressions(expressions, next);
      && |r.expressions| == |expressions|
      && r.nextTemp == t.nextTemp + CountNeededTemps(expressions, t.transformed, t.lastIndex)
      && (forall j :: 0 <= j < |expressions| ==> r.expressions[j] != LibCall(SparseArraySpread, [Identifier(t.nextTemp, false)]))
  {
    var t := TransformedPrefix(expressions, Option.None, next, |expressions|);
    CountNeededTempsIsHoistCount(expressions, t.transformed, t.lastIndex);
    TransformedShape(expressions, Option.None, next, |expressions|);
  }

  /** Concatenation is associative; a step the callers need at a stated grouping. */
  lemma AppendAssociates<T>(a: seq<T>, b: seq<T>, c: seq<T>)
    ensures (a + b) + c == a + (b + c)
  {
  }
}
