# Expression-list lowering and function wrapping in TypeScriptToLua

This project models two parts of the TypeScriptToLua compiler in Dafny and proves properties about them.

The first part is the expression-list lowering in `src/transformation/visitors/expression-list.ts`. It turns a list of source expressions, such as call arguments or array elements, into Lua expressions. Some expressions need *preceding statements*: Lua statements that must run before the expression itself is evaluated. The lowering hoists these into the enclosing scope while keeping left-to-right evaluation order, in one of two ways:

- **Temps path.** Impure expressions that stand before the last one with preceding statements are copied into fresh temporaries.
- **Sparse-array path.** The list is built up in batches with `__TS__SparseArrayNew` and `__TS__SparseArrayPush`, then spread with `__TS__SparseArraySpread`. The lowering falls back to this path when a spread appears before the last position, or when more than two temporaries would be needed.

An argument that takes a receiver, passed where a receiver-free function is expected, is wrapped in `__TS__FunctionWrap`.

The second part is that runtime function, `src/lualib/FunctionWrap.ts`. It binds a function to a receiver, and memoizes the wrapper in a table stored on the receiver and keyed by the function's address.

Files:

- `ast.dfy`: the abstract syntax the lowering consults.
  - A source expression is reduced to the flags the lowering reads: literal, generated temp, const identifier, optional continuation, `this`, spread, the number of preceding statements lowering it emits, and the calling convention of its type.
  - Checker types and signatures are given as data.
  - Lua expressions and statements are opaque tokens.
- `expression_list_spec.dfy` (module `ExpressionListSpec`): one function per step of the lowering. Each loop is described as a function of the prefix it has processed.
- `expression_list.dfy` (module `ExpressionList`): the lowering itself.
  - It is written as methods over a `TransformationContext` class, which holds the current preceding-statement scope and the temp counter.
  - The list of transformed expressions is an array that the temps path overwrites in place.
  - Every method is proved against its function in `ExpressionListSpec`.
- `expression_list_properties.dfy` (module `ExpressionListProperties`): lemmas about those functions.
- `evaluation_order.dfy`:
  - Module `EvaluationOrder` gives a trace semantics: running the emitted statements and then evaluating the returned list yields a sequence of observable steps. It proves that both paths yield exactly the steps of evaluating the source list left to right. The semantics gives no step to reading exactly the kinds of expression that shouldMoveToTemp exempts, so these theorems take those exemptions as sound rather than proving them.
  - Module `WrapOrder` shows, on a concrete call, that this does not hold once an argument is wrapped.
- `function_wrap.dfy` (module `LuaLib`): `__TS__FunctionWrap` over a model of the Lua heap.
  - The function `Wrap` works on heap values, and the lemmas are stated about it.
  - The class `Runtime` updates the memo tables in place and is proved against `Wrap`.
  - `WrapAsWritten` reads the memo field through the metatable `__index` chain, as the source's ordinary index does. See "## Findings".

## Model

| member | source | states |
|---|---|---|
| ExpressionListProperties.ShouldMoveToTempExemptions | src/transformation/visitors/expression-list.ts:11-22 | A lowered expression must move to a temp exactly when it is none of: literal, generated temp, const identifier, optional continuation, `this`. An identifier carrying the temp symbol id never moves. Without an original node, only literals and temps are exempt. |
| ExpressionList.MoveToPrecedingTemp | src/transformation/visitors/expression-list.ts:25-37 | When the expression is exempt, it is returned unchanged and nothing is added. Otherwise exactly one declaration of a fresh temp is appended, and that temp is returned. Either way, the result never needs moving again. |
| ExpressionListSpec.ResolveSignatureTypeByExpressionType | src/transformation/visitors/expression-list.ts:44-56 | A two-member union whose first member is `undefined` resolves to its second member. Every other type is returned unchanged. The result is the input or one of its members. |
| ExpressionListProperties.OptionalParameterUnwrapped | src/transformation/visitors/expression-list.ts:44-49 | For an `undefined \| F` parameter, the wrap decision is taken on F's calling convention. |
| ExpressionListSpec.IsParamIsCallbackAndNeedWrap | src/transformation/visitors/expression-list.ts:58-87 | The result is true exactly when the parameter has a declaration, the argument takes a receiver (NonVoid), and the resolved parameter type is receiver-free (Void). The nested Mixed/None/equality tests reduce to this. |
| ExpressionListProperties.WrapDirectionality | src/transformation/visitors/expression-list.ts:58-87 | The wrap is one-directional. A Void argument passed to a NonVoid parameter is never wrapped; nor is anything involving Mixed, nor a parameter without a declaration. |
| ExpressionList.TransformationContext.TransformInPrecedingStatementScope | src/transformation/visitors/expression-list.ts:123-124 | The expression's preceding statements are collected into a fresh scope and returned. The current scope and the temp counter are left unchanged. |
| ExpressionListSpec.TransformedPrefix | src/transformation/visitors/expression-list.ts:98-131 | After k positions there are k lowered expressions and k preceding lists. lastIndex lies in [-1, k). The temp counter never decreases. |
| ExpressionList.TransformExpressions | src/transformation/visitors/expression-list.ts:89-132 | The fresh array, the preceding lists, lastIndex, the statements added to the scope and the temp counter are exactly those of TransformedPrefix over the whole list. This is proved by its loop invariant. |
| ExpressionListProperties.TransformedLastIndex | src/transformation/visitors/expression-list.ts:115-128 | lastIndex is the greatest index with a non-empty preceding list, or -1 if there is none. |
| ExpressionListProperties.TransformedExtends | src/transformation/visitors/expression-list.ts:114-129 | Visiting one more position leaves the earlier lowered expressions and preceding lists unchanged. |
| ExpressionListProperties.TransformedSettled | src/transformation/visitors/expression-list.ts:101-130 | Once a position has been visited, later iterations never change its entries. |
| ExpressionListProperties.TransformedPositions | src/transformation/visitors/expression-list.ts:102-129 | A position that is not wrapped holds its own lowering and its own preceding statements. A wrapped position holds a `__TS__FunctionWrap` call and an empty preceding list. |
| ExpressionListProperties.TransformedWithoutWraps | src/transformation/visitors/expression-list.ts:123-129 | With no wrapped position, nothing goes to the enclosing scope and no temp is created. |
| ExpressionListProperties.TransformedShape | src/transformation/visitors/expression-list.ts:98-131 | The three facts above, together. |
| ExpressionListProperties.WrapNeedsEnoughParameters | src/transformation/visitors/expression-list.ts:102 | With fewer signature parameters than expressions, nothing is wrapped and every position is its own lowering. |
| EvaluationOrder.TransformedUntouched | src/transformation/visitors/expression-list.ts:98-131 | With no wrapped position, every position is its own lowering with its own statements, and nothing reaches the enclosing scope. |
| ExpressionListSpec.TempsExpressions | src/transformation/visitors/expression-list.ts:141-147 | The temps path keeps the list's length. |
| ExpressionListProperties.TempsPathReplaces | src/transformation/visitors/expression-list.ts:141-147 | Position i is replaced exactly when i < lastIndex and shouldMoveToTemp holds for it. The length is kept. |
| ExpressionListProperties.HoistCountMonotone | src/transformation/visitors/expression-list.ts:143-145 | The number of hoisted positions only grows along the list, and grows by one at each hoisted position. |
| ExpressionListProperties.TempsAreFresh | src/transformation/visitors/expression-list.ts:141-147 | Two hoisted positions get distinct temps. All of them are numbered from the counter's starting value up to that value plus the number of hoisted positions. |
| ExpressionListProperties.NoHoistFromLastIndex | src/transformation/visitors/expression-list.ts:143 | No position at or after lastIndex is hoisted. |
| ExpressionList.TransformExpressionsUsingTemps | src/transformation/visitors/expression-list.ts:134-148 | The array is overwritten in place with TempsExpressions. Every position's preceding statements, each followed by its temp declaration if any, are appended in index order. The counter grows by the number of hoisted positions. |
| EvaluationOrder.TempsPrefixOrder | src/transformation/visitors/expression-list.ts:141-146 | After k positions, the statements and then the list perform the source order of those k positions. Up to lastIndex, the list itself has no observable step. |
| EvaluationOrder.TempsPathOrder | src/transformation/visitors/expression-list.ts:134-148 | On an untouched list, the temps path performs exactly the source order. |
| ExpressionListProperties.MovableAmongIsHoistCount | src/transformation/visitors/expression-list.ts:216-218 | Before lastIndex, the filter in countNeededTemps keeps exactly the positions the temps path hoists. |
| ExpressionListProperties.CountNeededTempsIsHoistCount | src/transformation/visitors/expression-list.ts:207-219 | countNeededTemps is 0 for a negative lastIndex. In general it equals the number of temps the temps path creates, which is at most lastIndex. |
| ExpressionList.CountNeededTempsOf | src/transformation/visitors/expression-list.ts:207-219 | The count equals the number of temps the temps path would create for the array's contents. |
| ExpressionList.PushToSparseArray | src/transformation/visitors/expression-list.ts:150-171 | The first push declares an array under a fresh temp name with `__TS__SparseArrayNew(batch)`. A later push appends `__TS__SparseArrayPush(array, batch)` under the same name. Exactly one statement is added. |
| ExpressionListProperties.FlushRenders | src/transformation/visitors/expression-list.ts:150-171 | A push extends the pushed batches by one and the statements by that batch's push. |
| ExpressionListProperties.FlushKeepsInvariant | src/transformation/visitors/expression-list.ts:184-196 | Pushing the current non-empty batch preserves the sparse-loop invariant: ascending batch starts, a batch begins exactly after a spread or at a position with statements, and the statements are the rendered batches. |
| ExpressionListProperties.StepKeepsInvariant | src/transformation/visitors/expression-list.ts:182-191 | The first half of an iteration preserves the invariant: push if the position has statements and the batch is non-empty, then add its statements. |
| ExpressionListProperties.AddStatementsKeepsInvariant | src/transformation/visitors/expression-list.ts:189-190 | Adding position i's statements and element to the current batch extends the invariant over position i, once i is correctly marked as a batch start or not. |
| ExpressionListProperties.SparsePrefixInvariant | src/transformation/visitors/expression-list.ts:182-197 | The invariant holds after every prefix of the loop. |
| ExpressionList.SparseArrayPosition | src/transformation/visitors/expression-list.ts:183-196 | One iteration of the loop takes its state from position i to position i + 1, as SparsePrefix describes. |
| ExpressionListProperties.BatchesFlatten | src/transformation/visitors/expression-list.ts:181-201 | The batches, concatenated, are the list between the first cut and the end, in order. |
| ExpressionListProperties.SparseArrayInvariant | src/transformation/visitors/expression-list.ts:199-201 | After the final push, the whole list has been visited and the invariant holds. |
| ExpressionListProperties.SparseArrayShape | src/transformation/visitors/expression-list.ts:173-205 | For a non-empty list: the first batch starts at 0, and batches start exactly after a spread or at a position with statements. The statements are the batches' statements and pushes. The batches concatenated are the whole list. |
| ExpressionListProperties.SparseBatchBoundaries | src/transformation/visitors/expression-list.ts:183-196 | A position with preceding statements always starts a batch, and a spread always ends one. |
| ExpressionList.TransformExpressionsUsingSparseArray | src/transformation/visitors/expression-list.ts:173-205 | Returns one `__TS__SparseArraySpread(array)` on the first fresh name. The statements added are those of SparseArray. One temp is used. The source's assertion that an array exists is proved. |
| EvaluationOrder.BatchStatements | src/transformation/visitors/expression-list.ts:183-189 | Within a batch, only the first position has statements. |
| EvaluationOrder.BatchOrder | src/transformation/visitors/expression-list.ts:182-196 | A batch's statements, then its elements, perform that range's source order. |
| EvaluationOrder.FlushTrace | src/transformation/visitors/expression-list.ts:150-171 | A push evaluates exactly its batch, in order. |
| EvaluationOrder.LastBatchOrder | src/transformation/visitors/expression-list.ts:199-201 | The last batch's statements, then its push, perform its source order. |
| EvaluationOrder.SparseStatementsOrder | src/transformation/visitors/expression-list.ts:182-201 | The batches' statements and pushes, in turn, perform the source order of their range. |
| EvaluationOrder.SpreadHasNoStep | src/transformation/visitors/expression-list.ts:204 | The returned spread has no observable step of its own. |
| EvaluationOrder.SparsePathOrder | src/transformation/visitors/expression-list.ts:173-205 | On an untouched non-empty list, the sparse path performs exactly the source order. |
| ExpressionListSpec.FirstSpread | src/transformation/visitors/expression-list.ts:239 | Like findIndex, returns the first spread index, or -1 if there is none. |
| ExpressionListProperties.SpreadBeforeLast | src/transformation/visitors/expression-list.ts:239-241 | Although it is called lastSpread, the first spread lies in [0, n-2] exactly when some spread stands before the last position. |
| ExpressionListProperties.SparseOnlyWhenNonEmpty | src/transformation/visitors/expression-list.ts:240-244 | The sparse path is chosen only for a non-empty list. |
| ExpressionListProperties.ExpressionListTempBudget | src/transformation/visitors/expression-list.ts:233-253 | When the sparse test holds: one array temp and one returned expression. Otherwise: no spread before the last position, the length is kept, and exactly countNeededTemps temps are used, at most 2. |
| ExpressionList.TransformExpressionList | src/transformation/visitors/expression-list.ts:222-254 | The returned array, the statements added to the scope and the temp counter are those of ExpressionListSpec.ExpressionListLowering: the sparse path exactly when the first spread lies in [0, n-2] or more than 2 temps are needed, otherwise the temps path. |
| EvaluationOrder.TempsLoweringOrder | src/transformation/visitors/expression-list.ts:245-252 | The temps path of an untouched list performs the source order. |
| EvaluationOrder.SparseLoweringOrder | src/transformation/visitors/expression-list.ts:243-244 | The sparse path of an untouched non-empty list performs the source order. |
| EvaluationOrder.ExpressionListOrder | src/transformation/visitors/expression-list.ts:222-254 | When no argument is wrapped, running the emitted statements and then evaluating the result performs the source list's steps in source order, on either path. |
| WrapOrder.WrappedArgumentLowering | src/transformation/visitors/expression-list.ts:111 | The wrapped argument is lowered as the list [w, this], with its statement hoisted. |
| WrapOrder.CallLowering | src/transformation/visitors/expression-list.ts:104-119 | For f(a(), w) with w wrapped, w's statement goes straight to the scope and the recorded preceding list is empty. |
| WrapOrder.WrappedArgumentTrace | src/transformation/visitors/expression-list.ts:107-112 | The `__TS__FunctionWrap` call evaluates only w. |
| WrapOrder.CallTrace | src/transformation/visitors/expression-list.ts:104-119 | The lowered list evaluates a(), then w. |
| WrapOrder.WrappedStatementsRunEarly | src/transformation/visitors/expression-list.ts:104-119 | For f(a(), w), w's preceding statement runs before a() is evaluated, against the source order. |
| ExpressionListProperties.OrderedExpressionsUseTemps | src/transformation/visitors/expression-list.ts:257-272 | transformOrderedExpressions keeps the length, never returns the sparse spread, and uses exactly countNeededTemps temps. |
| ExpressionList.TransformOrderedExpressions | src/transformation/visitors/expression-list.ts:257-272 | The returned array, the added statements and the counter are those of OrderedExpressions, which is always the temps path. |
| EvaluationOrder.OrderedExpressionsOrder | src/transformation/visitors/expression-list.ts:257-272 | transformOrderedExpressions performs the source order for every list. |
| LuaLib.Wrap | src/lualib/FunctionWrap.ts:6-17 | Existing memo tables and entries are kept and never overwritten. The only entry added is fn's address on boundTo's table. With an object receiver, the wrapper returned is the one stored there. Closures of existing functions are unchanged. |
| LuaLib.WrapConsistent | src/lualib/FunctionWrap.ts:8-14 | With the memo field read raw, wrapping preserves the heap invariant: each memo entry is a wrapper of the function with that address, bound to the table that holds it. The source's ordinary reads do not keep it (LuaLib.InheritedEntryBreaksConsistency). |
| LuaLib.WrapperForwards | src/lualib/FunctionWrap.ts:10-16 | Calling the wrapper, whether new or found in the memo table, calls fn with boundTo first and then the caller's arguments in order. |
| LuaLib.WrapIdempotent | src/lualib/FunctionWrap.ts:6-14 | With an object receiver, wrapping the same function again returns the identical wrapper and changes nothing. |
| LuaLib.WrapSeparatesPairs | src/lualib/FunctionWrap.ts:7-14 | A different function or receiver never gets an earlier wrapper. |
| LuaLib.WrapUnboundIsFresh | src/lualib/FunctionWrap.ts:15-16 | Without an object receiver, no memo table is created or changed, and the wrapper is a new function. Wrapping again gives yet another one. |
| LuaLib.MemoOwner | src/lualib/FunctionWrap.ts:8 | An ordinary read of the memo field on table t finds a table that has the field of its own: t itself when it has one, otherwise the nearest one along the `__index` chain. |
| LuaLib.MemoOwnerKeys | src/lualib/FunctionWrap.ts:8 | Which table the read finds depends only on which tables have a memo field, not on their entries. |
| LuaLib.WrapAsWritten | src/lualib/FunctionWrap.ts:6-16 | The source as written. Existing memo tables and entries are kept. With an object receiver, the wrapper returned is the entry for fn's address in the table the ordinary reads find, or in the receiver's own new table when they find none. That entry is the only one that may be added. Without an object receiver, the memo tables are unchanged. |
| LuaLib.WrapAsWrittenIdempotent | src/lualib/FunctionWrap.ts:8-14 | With the ordinary reads too, wrapping the same pair again returns the same wrapper and changes nothing. |
| LuaLib.InheritedEntryBreaksConsistency | src/lualib/FunctionWrap.ts:8-13 | Suppose table 1's `__index` is table 0, and table 0 has an empty memo table. Wrapping fn for table 1 then stores, in table 0, a wrapper bound to table 1, so the heap invariant no longer holds. |
| LuaLib.WrapAsWrittenWithoutInheritance | src/lualib/FunctionWrap.ts:6-16 | When the receiver inherits no memo table through `__index`, the source's ordinary reads give exactly Wrap. |
| LuaLib.InheritedMemoMisbinds | src/lualib/FunctionWrap.ts:8-14 | If table 1's `__index` is table 0 and fn was already wrapped for table 0, then wrapping fn for table 1 returns table 0's wrapper, which calls fn with table 0. Wrap instead gives a wrapper that calls fn with table 1. |
| LuaLib.Runtime.FunctionWrap | src/lualib/FunctionWrap.ts:1-18 | The in-place update of the memo tables, and the wrapper returned, are exactly Wrap of the old heap. The heap invariant is kept. |

## Left out

- **Type-checker queries.** getTypeAtLocation, getFunctionContextType, isConstIdentifier, isOptionalContinuation and ts.isSpreadElement are external to the lowering. Their answers are given as fields of the source expression and of its type.
- **context.transformExpression.** What it does with a node is not modelled. A node is reduced to its opaque lowering and to the count of preceding statements it emits.
- **Lua AST construction and lualib emission.** transformLuaLibFunction and the Lua AST constructors are opaque tokens. In particular, the parent node passed to transformLuaLibFunction is not modelled.
- **Temp names.** Only freshness matters, so names are numbers drawn from a counter. The "array" name hint of pushToSparseArray is not kept.
- **Source positions.** `ts.factory.createThis()` is a synthesized `this` node. It is modelled as the node numbered -1.
- **Commented-out code.** The diagnostics at expression-list.ts:79-83 and the union loop at expression-list.ts:50-53 are not active code.
- **Lua runtime details in FunctionWrap.** What `tostring` returns is not modelled; a function's address is its id, so distinct functions have distinct addresses. Vararg mechanics (trailing nils) and what a non-wrapper function does when called are not modelled either.
- **User code touching the memo field.** The model assumes `__TS__wrappedMethods` on a receiver is written only by the wrapper itself.
- LuaLib.Wrap, LuaLib.WrapConsistent, LuaLib.WrapperForwards, LuaLib.WrapSeparatesPairs, LuaLib.Runtime.FunctionWrap: these read and write the memo field raw, once per receiver. As written, a receiver that inherits a memo table gets another receiver's wrapper (LuaLib.InheritedMemoMisbinds), and the heap invariant can fail (LuaLib.InheritedEntryBreaksConsistency). Idempotence holds either way (LuaLib.WrapIdempotent, LuaLib.WrapAsWrittenIdempotent). They do not follow the metatable `__index` fallback that the source's ordinary index takes, and do not model the memo table's object identity beyond the receiver it belongs to. The source as written is LuaLib.WrapAsWritten (see "## Findings").
- LuaLib.MemoOwner: follows the `__index` chain for at most `fuel` steps. Lua itself stops a too-long chain with an error, which is not modelled.
- **Exemptions in the order theorems.** EvaluationOrder.Stable gives no observable step to exactly the expressions shouldMoveToTemp exempts: literals, generated temps, const identifiers, optional continuations and `this`. The order theorems therefore take these exemptions as sound and could not detect an unsound one.
- EvaluationOrder.ExpressionListOrder: proved only for argument lists with no wrapped position. The wrap branch sends the wrapped argument's statements straight to the enclosing scope, ahead of the earlier arguments' own statements. WrapOrder.WrappedStatementsRunEarly shows the resulting order on a concrete call.
- TransformExpressionsUsingSparseArray: requires a non-empty list. On an empty list the source aborts at its `assert(arrayIdentifier)`, and its only caller never passes one (ExpressionListProperties.SparseOnlyWhenNonEmpty).
- **Tests.** The test files beside the core (snapshot, diagnostic, CLI and Lua-VM tests) drive the compiler and a Lua interpreter; they are not part of this model.

## Findings

| source | as written | input that shows it | evidently intended | confidence | as-written member | corrected member |
|---|---|---|---|---|---|---|
| src/lualib/FunctionWrap.ts:8-14 | The memo field `boundTo.__TS__wrappedMethods` is read with an ordinary index. A receiver without a field of its own finds the table of whatever its metatable `__index` names, and stores or returns entries there. | Receiver table 1 whose `__index` is table 0, after fn was wrapped for table 0. Wrapping fn for table 1 returns table 0's wrapper, which calls fn with table 0 as `this`. | One memo table per receiver (a raw read), so the wrapper always calls fn with boundTo. This is proved by LuaLib.WrapperForwards. | medium, not executed | LuaLib.InheritedMemoMisbinds | LuaLib.Wrap |
