// Specification functions for src/transformation/visitors/expression-list.ts:
// what each step of the lowering computes, as a function of its inputs and
// of the temp counter it starts from.

module ExpressionListSpec {
  import opened Wrappers
  import opened TsNodes
  import opened LuaAst

  /** Above this many temps the argument list falls back to the sparse array. */
  const MaxTemps := 2

  /** shouldMoveToTemp: whether `e` must be snapshotted into a temp to keep its
      place in the evaluation order. Literals, generated temps, const
      identifiers, optional-chain continuations and `this` are exempt. */
  function ShouldMoveToTemp(e: LuaExpr, original: Option<SourceExpr>): (r: bool)
  {
    !IsLiteral(e) &&
    !IsTempIdentifier(e) &&
    !(original.Some? &&
      (original.value.constIdentifier || original.value.optionalContinuation || original.value.thisKeyword))
  }

  /** A union of exactly two members whose first is `undefined`: the type of
      an optional parameter. */
  predicate IsOptionalUnion(t: TsType) {
    t.types.Some? && |t.types.value| == 2 && t.types.value[0].intrinsicName == Some("undefined")
  }

  /** resolveSignatureTypeByExpressionType: an optional-parameter union resolves
      to its second member; every other type is returned unchanged. */
  function ResolveSignatureTypeByExpressionType(signatureType: TsType): (r: TsType)
    ensures r == signatureType || (signatureType.types.Some? && r in signatureType.types.value)
    ensures IsOptionalUnion(signatureType) ==> r == signatureType.types.value[1]
    ensures !IsOptionalUnion(signatureType) ==> r == signatureType
  {
    if signatureType.types.None? then signatureType
    else if |signatureType.types.value| == 2 && signatureType.types.value[0].intrinsicName == Some("undefined") then
      signatureType.types.value[1]
    else
      signatureType
  }

  /** isParamIsCallbackAndNeedWrap: an argument whose type has calling convention
      `fromContext` is wrapped when the parameter expects a receiver-free function
      and the argument takes a receiver; never when the parameter has no
      declaration, and never in the opposite direction. */
  function IsParamIsCallbackAndNeedWrap(fromContext: ContextType, signatureParameter: Parameter): (r: bool)
    ensures r <==>
      signatureParameter.valueDeclaration.Some? &&
      fromContext == NonVoid &&
      ResolveSignatureTypeByExpressionType(signatureParameter.valueDeclaration.value).contextType == Void
  {
    if signatureParameter.valueDeclaration.Some? then
      var toType := ResolveSignatureTypeByExpressionType(signatureParameter.valueDeclaration.value);
      var toContext := toType.contextType;
      if !(fromContext == Mixed || toContext == Mixed) then
        if fromContext != toContext then
          if fromContext != ContextType.None && toContext != ContextType.None then
            toContext == Void
          else
            false
        else
          false
      else
        false
    else
      false
  }

  /** Whether position i of the list is lowered through __TS__FunctionWrap: only
      when a signature with at least as many parameters as expressions is known. */
  predicate Wraps(expressions: seq<SourceExpr>, signature: Option<Signature>, i: nat)
    requires i < |expressions|
  {
    signature.Some? && |signature.value.parameters| >= |expressions| &&
    IsParamIsCallbackAndNeedWrap(expressions[i].contextType, signature.value.parameters[i])
  }

  predicate NoWraps(expressions: seq<SourceExpr>, signature: Option<Signature>) {
    forall i :: 0 <= i < |expressions| ==> !Wraps(expressions, signature, i)
  }

  function SignatureRank(signature: Option<Signature>): nat {
    if signature.Some? then 1 else 0
  }

  /** The outcome of transformExpressions over the first k expressions: the
      lowered expressions, each one's own preceding statements, the last index
      whose list is non-empty, the statements emitted straight into the ambient
      scope (by the wrap branch) and the temp counter afterwards. */
  datatype Transformed = Transformed(
    transformed: seq<LuaExpr>,
    preceding: seq<seq<Statement>>,
    lastIndex: int,
    ambient: seq<Statement>,
    nextTemp: nat)

  /** The outcome of lowering a whole list: the expressions, the statements
      added to the ambient scope, and the temp counter afterwards. */
  datatype Lowering = Lowering(expressions: seq<LuaExpr>, statements: seq<Statement>, nextTemp: nat)

  function TransformedPrefix(expressions: seq<SourceExpr>, signature: Option<Signature>, next: nat, k: nat): (t: Transformed)
    requires k <= |expressions|
    ensures |t.transformed| == k && |t.preceding| == k
    ensures -1 <= t.lastIndex < k
    ensures t.nextTemp >= next
    decreases SignatureRank(signature), 0, k
  {
    if k == 0 then Transformed([], [], -1, [], next)
    else
      var t := TransformedPrefix(expressions, signature, next, k - 1);
      var i := k - 1;
      if Wraps(expressions, signature, i) then
        // The wrap branch lowers [expression, this] as a list of its own, whose
        // statements go to the ambient scope; it records no preceding statements.
        var inner := ExpressionListLowering([expressions[i], SyntheticThis], Option.None, t.nextTemp);
        Transformed(t.transformed + [LibCall(FunctionWrap, inner.expressions)], t.preceding + [[]],
                    t.lastIndex, t.ambient + inner.statements, inner.nextTemp)
      else
        var pre := Emitted(expressions[i]);
        Transformed(t.transformed + [Lowered(expressions[i])], t.preceding + [pre],
                    if |pre| > 0 then i else t.lastIndex, t.ambient, t.nextTemp)
  }

  // ---------------------------------------------------------------------------
  // The temps path (transformExpressionsUsingTemps).

  /** Position i is replaced by a temp: it lies strictly before the last
      position with preceding statements and shouldMoveToTemp holds for it. */
  predicate Hoists(expressions: seq<SourceExpr>, transformed: seq<LuaExpr>, lastIndex: int, i: nat)
    requires i < |transformed| == |expressions|
  {
    i < lastIndex && ShouldMoveToTemp(transformed[i], Some(expressions[i]))
  }

  /** How many of the first k positions are hoisted. */
  function HoistCount(expressions: seq<SourceExpr>, transformed: seq<LuaExpr>, lastIndex: int, k: nat): (c: nat)
    requires k <= |transformed| == |expressions|
    ensures c <= k
  {
    if k == 0 then 0
    else HoistCount(expressions, transformed, lastIndex, k - 1) + (if Hoists(expressions, transformed, lastIndex, k - 1) then 1 else 0)
  }

  /** The identifier the temps path gives hoisted position i. */
  function TempFor(expressions: seq<SourceExpr>, transformed: seq<LuaExpr>, lastIndex: int, next: nat, i: nat): LuaExpr
    requires i < |transformed| == |expressions|
  {
    Identifier(next + HoistCount(expressions, transformed, lastIndex, i), true)
  }

  /** The statements the temps path adds for the first k positions: each
      position's preceding statements, followed by its temp declaration if it
      is hoisted. */
  function TempsStatements(expressions: seq<SourceExpr>, transformed: seq<LuaExpr>, preceding: seq<seq<Statement>>,
                           lastIndex: int, next: nat, k: nat): seq<Statement>
    requires k <= |transformed| == |expressions| == |preceding|
  {
    if k == 0 then []
    else
      var i := k - 1;
      TempsStatements(expressions, transformed, preceding, lastIndex, next, i) + preceding[i] +
      (if Hoists(expressions, transformed, lastIndex, i)
       then [VariableDeclaration(TempFor(expressions, transformed, lastIndex, next, i), transformed[i])]
       else [])
  }

  /** The list the temps path returns. */
  function TempsExpressions(expressions: seq<SourceExpr>, transformed: seq<LuaExpr>, lastIndex: int, next: nat): (r: seq<LuaExpr>)
    requires |transformed| == |expressions|
    ensures |r| == |transformed|
  {
    seq(|transformed|, i requires 0 <= i < |transformed| =>
      if Hoists(expressions, transformed, lastIndex, i) then TempFor(expressions, transformed, lastIndex, next, i)
      else transformed[i])
  }

  /** The expressions the filter in countNeededTemps keeps: those among
      `transformed` (a prefix of the list) for which shouldMoveToTemp holds. */
  function MovableAmong(expressions: seq<SourceExpr>, transformed: seq<LuaExpr>): (r: seq<LuaExpr>)
    requires |transformed| <= |expressions|
    ensures |r| <= |transformed|
  {
    if |transformed| == 0 then []
    else
      var i := |transformed| - 1;
      MovableAmong(expressions, transformed[..i]) +
      (if ShouldMoveToTemp(transformed[i], Some(expressions[i])) then [transformed[i]] else [])
  }

  /** countNeededTemps */
  function CountNeededTemps(expressions: seq<SourceExpr>, transformed: seq<LuaExpr>, lastIndex: int): nat
    requires |transformed| == |expressions|
    requires lastIndex < |transformed|
  {
    if lastIndex < 0 then 0
    else |MovableAmong(expressions, transformed[..lastIndex])|
  }

  // ---------------------------------------------------------------------------
  // The sparse-array path (pushToSparseArray, transformExpressionsUsingSparseArray).

  /** The statement pushToSparseArray adds for one batch: the first batch
      declares the array with __TS__SparseArrayNew, later ones append with
      __TS__SparseArrayPush. */
  function FlushStatement(arrayName: nat, first: bool, batch: seq<LuaExpr>): Statement {
    if first then VariableDeclaration(Identifier(arrayName, false), LibCall(SparseArrayNew, batch))
    else ExpressionStatement(LibCall(SparseArrayPush, [Identifier(arrayName, false)] + batch))
  }

  /** The state of the sparse loop: statements added so far, the first
      positions of the batches already pushed, and the first position of the
      current (unpushed) batch. */
  datatype SparseState = SparseState(statements: seq<Statement>, cuts: seq<nat>, start: nat)

  function Flush(s: SparseState, transformed: seq<LuaExpr>, arrayName: nat, end: nat): SparseState
    requires s.start <= end <= |transformed|
  {
    SparseState(s.statements + [FlushStatement(arrayName, s.cuts == [], transformed[s.start..end])], s.cuts + [s.start], end)
  }

  /** The cut positions are strictly increasing and all lie before `end`. */
  predicate Ascending(cuts: seq<nat>, end: nat) {
    (forall j :: 0 <= j < |cuts| ==> cuts[j] < end) &&
    (forall i, j :: 0 <= i < j < |cuts| ==> cuts[i] < cuts[j])
  }

  /** Concatenation of preceding[a..b]. */
  function ConcatRange(preceding: seq<seq<Statement>>, a: nat, b: nat): seq<Statement>
    requires a <= b <= |preceding|
    decreases b
  {
    if a == b then [] else ConcatRange(preceding, a, b - 1) + preceding[b - 1]
  }

  /** The statements produced for batches starting at `cuts` and ending at
      `end`: each batch's preceding statements followed by its flush. */
  function SparseStatements(transformed: seq<LuaExpr>, preceding: seq<seq<Statement>>, arrayName: nat,
                            cuts: seq<nat>, end: nat): seq<Statement>
    requires |preceding| == |transformed|
    requires end <= |transformed| && Ascending(cuts, end)
    decreases |cuts|
  {
    if cuts == [] then []
    else
      var m := |cuts| - 1;
      SparseStatements(transformed, preceding, arrayName, cuts[..m], cuts[m]) +
      ConcatRange(preceding, cuts[m], end) +
      [FlushStatement(arrayName, m == 0, transformed[cuts[m]..end])]
  }

  /** The batches delimited by `cuts` and `end`. */
  function Batches(transformed: seq<LuaExpr>, cuts: seq<nat>, end: nat): (b: seq<seq<LuaExpr>>)
    requires end <= |transformed| && Ascending(cuts, end)
    ensures |b| == |cuts|
    decreases |cuts|
  {
    if cuts == [] then []
    else
      var m := |cuts| - 1;
      Batches(transformed, cuts[..m], cuts[m]) + [transformed[cuts[m]..end]]
  }

  /** Position p (0 < p) must start a batch: it has preceding statements or
      follows a spread. */
  predicate StartsBatch(expressions: seq<SourceExpr>, preceding: seq<seq<Statement>>, p: nat)
    requires 0 < p < |expressions| == |preceding|
  {
    preceding[p] != [] || expressions[p - 1].spread
  }

  /** The sparse loop after the first k positions. */
  function SparsePrefix(expressions: seq<SourceExpr>, transformed: seq<LuaExpr>, preceding: seq<seq<Statement>>,
                        arrayName: nat, k: nat): (s: SparseState)
    requires |expressions| == |transformed| == |preceding|
    requires k <= |transformed|
    ensures s.start <= k
  {
    if k == 0 then SparseState([], [], 0)
    else
      var i := k - 1;
      var s := SparsePrefix(expressions, transformed, preceding, arrayName, i);
      var s1 := if preceding[i] != [] && s.start < i then Flush(s, transformed, arrayName, i) else s;
      var s2 := s1.(statements := s1.statements + preceding[i]);
      if expressions[i].spread then Flush(s2, transformed, arrayName, k) else s2
  }

  /** transformExpressionsUsingSparseArray: the loop, then the final flush of a
      non-empty batch. */
  function SparseArray(expressions: seq<SourceExpr>, transformed: seq<LuaExpr>, preceding: seq<seq<Statement>>,
                       arrayName: nat): (s: SparseState)
    requires |expressions| == |transformed| == |preceding|
  {
    var s := SparsePrefix(expressions, transformed, preceding, arrayName, |transformed|);
    if s.start < |transformed| then Flush(s, transformed, arrayName, |transformed|) else s
  }

  // ---------------------------------------------------------------------------
  // Choosing the strategy (transformExpressionList, transformOrderedExpressions).

  /** expressions.findIndex(ts.isSpreadElement) */
  function FirstSpread(expressions: seq<SourceExpr>): (r: int)
    ensures -1 <= r < |expressions|
    ensures r == -1 ==> forall j :: 0 <= j < |expressions| ==> !expressions[j].spread
    ensures r >= 0 ==> expressions[r].spread && forall j :: 0 <= j < r ==> !expressions[j].spread
  {
    if |expressions| == 0 then -1
    else if expressions[0].spread then 0
    else
      var r := FirstSpread(expressions[1..]);
      if r == -1 then -1 else r + 1
  }

  /** The test in transformExpressionList choosing the sparse array. */
  predicate UseSparseArray(expressions: seq<SourceExpr>, transformed: seq<LuaExpr>, lastIndex: int)
    requires |transformed| == |expressions|
    requires lastIndex < |transformed|
  {
    var lastSpread := FirstSpread(expressions);
    (lastSpread >= 0 && lastSpread < |expressions| - 1) ||
    CountNeededTemps(expressions, transformed, lastIndex) > MaxTemps
  }

  /** The temps path applied to the outcome of transformExpressions. */
  function TempsLowering(expressions: seq<SourceExpr>, t: Transformed): Lowering
    requires |t.transformed| == |t.preceding| == |expressions|
  {
    Lowering(TempsExpressions(expressions, t.transformed, t.lastIndex, t.nextTemp),
             t.ambient + TempsStatements(expressions, t.transformed, t.preceding, t.lastIndex, t.nextTemp, |expressions|),
             t.nextTemp + HoistCount(expressions, t.transformed, t.lastIndex, |expressions|))
  }

  /** The sparse-array path applied to the outcome of transformExpressions: the
      array takes the next temp name and the list becomes its spread. */
  function SparseLowering(expressions: seq<SourceExpr>, t: Transformed): Lowering
    requires |t.transformed| == |t.preceding| == |expressions|
  {
    var s := SparseArray(expressions, t.transformed, t.preceding, t.nextTemp);
    Lowering([LibCall(SparseArraySpread, [Identifier(t.nextTemp, false)])], t.ambient + s.statements, t.nextTemp + 1)
  }

  /** The choice transformExpressionList makes once the list is transformed. */
  function ListLowering(expressions: seq<SourceExpr>, t: Transformed): Lowering
    requires |t.transformed| == |t.preceding| == |expressions| && t.lastIndex < |expressions|
  {
    if UseSparseArray(expressions, t.transformed, t.lastIndex) then SparseLowering(expressions, t)
    else TempsLowering(expressions, t)
  }

  /** transformExpressionList */
  function ExpressionListLowering(expressions: seq<SourceExpr>, signature: Option<Signature>, next: nat): (r: Lowering)
    ensures r.nextTemp >= next
    decreases SignatureRank(signature), 1, 0
  {
    ListLowering(expressions, TransformedPrefix(expressions, signature, next, |expressions|))
  }

  /** transformOrderedExpressions: always the temps path. */
  function OrderedExpressions(expressions: seq<SourceExpr>, next: nat): Lowering {
    TempsLowering(expressions, TransformedPrefix(expressions, Option.None, next, |expressions|))
  }
}
