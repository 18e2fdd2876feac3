// Abstract syntax shared by the expression-list lowering: what the compiler
// knows about a TypeScript node and its type, and the Lua tokens it emits.

module Wrappers {
  datatype Option<+T> = None | Some(value: T)
}

/** The TypeScript side: nodes, types and call signatures, reduced to the
    answers the type checker gives about them. */
module TsNodes {
  import opened Wrappers

  /** Calling convention of a function type, as getFunctionContextType
      classifies it: None (no function signatures), Void (declared
      `this: void`), NonVoid (takes a receiver) or Mixed (signatures disagree). */
  datatype ContextType = None | Void | NonVoid | Mixed

  /** A checker type. `types` is present for union types; `intrinsicName` is
      present for intrinsic types such as `undefined`; `contextType` is the
      checker's classification of this type. */
  datatype TsType = TsType(types: Option<seq<TsType>>, intrinsicName: Option<string>, contextType: ContextType)

  /** A signature parameter; `valueDeclaration` holds the type found at the
      parameter's declaration when it has one. */
  datatype Parameter = Parameter(valueDeclaration: Option<TsType>)

  datatype Signature = Signature(parameters: seq<Parameter>)

  /** A source expression, described by the flags the lowering consults:
      whether its Lua lowering is a literal or a generated temp identifier,
      whether the node is a const identifier, an optional-chain continuation,
      the `this` keyword or a spread element, how many preceding statements
      lowering it emits, and the calling convention of its type. */
  datatype SourceExpr = SourceExpr(
    node: int,
    literal: bool,
    tempIdentifier: bool,
    constIdentifier: bool,
    optionalContinuation: bool,
    thisKeyword: bool,
    spread: bool,
    statements: nat,
    contextType: ContextType)

  /** The node built by `ts.factory.createThis()`; a synthesized node has no
      position in the file, written -1 here. */
  const SyntheticThis := SourceExpr(-1, false, false, false, false, true, false, 0, ContextType.None)
}

/** The Lua side: expressions and statements as opaque tokens. */
module LuaAst {
  import opened TsNodes

  datatype LuaLibFeature = FunctionWrap | SparseArrayNew | SparseArrayPush | SparseArraySpread

  datatype LuaExpr =
    | Lowered(origin: SourceExpr)                      // what context.transformExpression produced for origin
    | Identifier(name: nat, temp: bool)                // temp: the identifier carries tempSymbolId
    | LibCall(feature: LuaLibFeature, args: seq<LuaExpr>)

  datatype Statement =
    | Preceding(origin: SourceExpr, index: nat)        // the index-th statement emitted while lowering origin
    | VariableDeclaration(target: LuaExpr, value: LuaExpr)
    | ExpressionStatement(expression: LuaExpr)

  predicate IsLiteral(e: LuaExpr) {
    e.Lowered? && e.origin.literal
  }

  predicate IsTempIdentifier(e: LuaExpr) {
    (e.Lowered? && e.origin.tempIdentifier) || (e.Identifier? && e.temp)
  }

  /** The preceding statements emitted while lowering `e`, in order. */
  function Emitted(e: SourceExpr): (s: seq<Statement>)
    ensures |s| == e.statements
    ensures forall k :: 0 <= k < |s| ==> s[k] == Preceding(e, k)
  {
    seq(e.statements, (k: int) requires 0 <= k => Preceding(e, k))
  }
}
