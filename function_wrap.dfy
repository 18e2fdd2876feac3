// The runtime adapter __TS__FunctionWrap (src/lualib/FunctionWrap.ts): it
// rebinds a receiver-taking function to a fixed receiver, and memoizes the
// wrapper in a table stored on the receiver itself, keyed by the function's
// address string.

module LuaLib {
  import opened Wrappers

  /** Lua values, as far as the wrapper looks at them. Tables and functions
      are references, written as ids. */
  datatype Value =
    | Nil
    | Boolean(b: bool)
    | Number(n: int)
    | Str(s: string)
    | Table(table: nat)
    | Function(id: nat)

  /** Lua truthiness: everything but nil and false. */
  predicate Truthy(v: Value) {
    !(v.Nil? || v == Boolean(false))
  }

  /** Lua's type(v), which `typeof v` compiles to. */
  function TypeName(v: Value): string {
    match v
    case Nil => "nil"
    case Boolean(_) => "boolean"
    case Number(_) => "number"
    case Str(_) => "string"
    case Table(_) => "table"
    case Function(_) => "function"
  }

  /** The guard of the memoizing branch: boundTo is truthy and its type is "object". */
  predicate BindsToObject(boundTo: Value) {
    Truthy(boundTo) && TypeName(boundTo) == "table"
  }

  /** tostring(fn): distinct functions print distinct addresses, so a function's
      address is written as its id. */
  type Address = nat

  function AddressOf(fn: Value): Address
    requires fn.Function?
  {
    fn.id
  }

  /** What a function value does when it is called. */
  datatype Closure =
    | Opaque                            // a function whose body is not modelled
    | Bound(fn: Value, boundTo: Value)  // a wrapper: calls fn with boundTo, then its own arguments

  /** A call: the callee and the argument list it receives. */
  datatype Call = Call(callee: Value, args: seq<Value>)

  /** The part of the Lua heap the wrapper touches: the `__TS__wrappedMethods`
      field of each table that has one (address to wrapper id), the closure
      behind each function id, and the next unused function id. */
  datatype Heap = Heap(wrappedMethods: map<nat, map<Address, nat>>, closures: map<nat, Closure>, nextFunction: nat)

  /** Every function id in use was allocated, and each memo entry holds a
      wrapper of the function with that address bound to that table. */
  ghost predicate Consistent(h: Heap) {
    && (forall id :: id in h.closures ==> id < h.nextFunction)
    && (forall t, a :: EntryWraps(h, t, a))
  }

  /** The entry for address a on table t, if any, is a wrapper of the function
      with that address bound to t. */
  ghost predicate EntryWraps(h: Heap, t: nat, a: Address) {
    t in h.wrappedMethods && a in h.wrappedMethods[t] ==>
      h.wrappedMethods[t][a] in h.closures &&
      h.closures[h.wrappedMethods[t][a]] == Bound(Function(a), Table(t))
  }

  lemma MemoEntry(h: Heap, t: nat, a: Address)
    requires Consistent(h) && t in h.wrappedMethods && a in h.wrappedMethods[t]
    ensures h.wrappedMethods[t][a] in h.closures && h.wrappedMethods[t][a] < h.nextFunction
    ensures h.closures[h.wrappedMethods[t][a]] == Bound(Function(a), Table(t))
  {
    assert EntryWraps(h, t, a);
  }

  /** A new function value with closure c. */
  function Allocate(h: Heap, c: Closure): (Heap, nat) {
    (h.(closures := h.closures[h.nextFunction := c], nextFunction := h.nextFunction + 1), h.nextFunction)
  }

  /** The memo table of table t, as an empty one when the field is absent. */
  function MemoOf(h: Heap, t: nat): map<Address, nat> {
    if t in h.wrappedMethods then h.wrappedMethods[t] else map[]
  }

  /** __TS__FunctionWrap(fn, boundTo): the new heap and the wrapper. An
      existing memo table and its entries are kept, the only entry added is the
      one for fn's address on boundTo's table, and with an object receiver the
      wrapper returned is the one that entry holds. */
  function Wrap(h: Heap, fn: Value, boundTo: Value): (r: (Heap, Value))
    requires fn.Function?
    ensures forall t :: t in h.wrappedMethods ==> t in r.0.wrappedMethods
    ensures forall t, a :: t in h.wrappedMethods && a in h.wrappedMethods[t] ==>
      t in r.0.wrappedMethods && a in r.0.wrappedMethods[t] && r.0.wrappedMethods[t][a] == h.wrappedMethods[t][a]
    ensures forall t, a :: t in r.0.wrappedMethods && a in r.0.wrappedMethods[t] ==>
      (t in h.wrappedMethods && a in h.wrappedMethods[t]) ||
      (BindsToObject(boundTo) && t == boundTo.table && a == AddressOf(fn))
    ensures BindsToObject(boundTo) ==>
      boundTo.table in r.0.wrappedMethods && AddressOf(fn) in r.0.wrappedMethods[boundTo.table] &&
      r.1 == Function(r.0.wrappedMethods[boundTo.table][AddressOf(fn)])
    ensures forall id :: id in h.closures && id != h.nextFunction ==>
      id in r.0.closures && r.0.closures[id] == h.closures[id]
  {
    if BindsToObject(boundTo) then
      var t := boundTo.table;
      var address := AddressOf(fn);
      var memo := MemoOf(h, t);
      if address in memo then (h.(wrappedMethods := h.wrappedMethods[t := memo]), Function(memo[address]))
      else
        var (h', id) := Allocate(h, Bound(fn, boundTo));
        (h'.(wrappedMethods := h.wrappedMethods[t := memo[address := id]]), Function(id))
    else
      var (h', id) := Allocate(h, Bound(fn, boundTo));
      (h', Function(id))
  }

  /** Calling f with args in heap h: a wrapper forwards to its function;
      what any other function does is not modelled. */
  function Invoke(h: Heap, f: Value, args: seq<Value>): Option<Call> {
    if f.Function? && f.id in h.closures && h.closures[f.id].Bound? then
      var c := h.closures[f.id];
      Some(Call(c.fn, [c.boundTo] + args))
    else Option.None
  }

  // ---------------------------------------------------------------------------
  // The memo field as FunctionWrap.ts:8, 9 and 14 read it: an ordinary index,
  // which falls back to the receiver's metatable __index chain when the table
  // has no field of its own. Wrap above reads the field raw, once per receiver.

  /** The table whose own `__TS__wrappedMethods` an ordinary read of that field
      on table t finds: t itself, or the nearest table along the __index chain
      (`index` maps a table to the table its metatable's __index names), within
      `fuel` steps of the chain. */
  function MemoOwner(h: Heap, index: map<nat, nat>, t: nat, fuel: nat): (r: Option<nat>)
    ensures r.Some? ==> r.value in h.wrappedMethods
    ensures t in h.wrappedMethods ==> r == Some(t)
    decreases fuel
  {
    if t in h.wrappedMethods then Some(t)
    else if t in index && fuel > 0 then MemoOwner(h, index, index[t], fuel - 1)
    else Option.None
  }

  /** The table whose memo entries the source's reads use for receiver t: the
      one MemoOwner finds, or t's own when none is found (line 8 creates it). */
  function OwnerOf(h: Heap, index: map<nat, nat>, t: nat, fuel: nat): nat {
    var found := MemoOwner(h, index, t, fuel);
    if found.Some? then found.value else t
  }

  /** __TS__FunctionWrap as written: a receiver with no memo table of its own
      uses the one it inherits through __index, and a new entry is stored in
      that inherited table. Existing tables and entries are kept, and with an
      object receiver the wrapper returned is the entry for fn's address in
      the table the reads find, the only entry that may be added. */
  function WrapAsWritten(h: Heap, index: map<nat, nat>, fn: Value, boundTo: Value, fuel: nat): (r: (Heap, Value))
    requires fn.Function?
    ensures forall t :: t in h.wrappedMethods ==> t in r.0.wrappedMethods
    ensures forall t, a :: t in h.wrappedMethods && a in h.wrappedMethods[t] ==>
      t in r.0.wrappedMethods && a in r.0.wrappedMethods[t] && r.0.wrappedMethods[t][a] == h.wrappedMethods[t][a]
    ensures BindsToObject(boundTo) ==>
      var owner := OwnerOf(h, index, boundTo.table, fuel);
      && owner in r.0.wrappedMethods && AddressOf(fn) in r.0.wrappedMethods[owner]
      && r.1 == Function(r.0.wrappedMethods[owner][AddressOf(fn)])
      && (forall t, a :: t in r.0.wrappedMethods && a in r.0.wrappedMethods[t] ==>
            (t in h.wrappedMethods && a in h.wrappedMethods[t]) || (t == owner && a == AddressOf(fn)))
    ensures !BindsToObject(boundTo) ==> r.0.wrappedMethods == h.wrappedMethods
  {
    if BindsToObject(boundTo) then
      var address: Address := AddressOf(fn);
      match MemoOwner(h, index, boundTo.table, fuel)
      case None =>
        var (h', id) := Allocate(h, Bound(fn, boundTo));
        (h'.(wrappedMethods := h.wrappedMethods[boundTo.table := map[address := id]]), Function(id))
      case Some(owner) =>
        var memo: map<Address, nat> := h.wrappedMethods[owner];
        if address in memo then (h, Function(memo[address]))
        else
          var (h', id) := Allocate(h, Bound(fn, boundTo));
          (h'.(wrappedMethods := h.wrappedMethods[owner := memo[address := id]]), Function(id))
    else
      var (h', id) := Allocate(h, Bound(fn, boundTo));
      (h', Function(id))
  }

  /** Which table MemoOwner finds depends only on which tables have a memo
      field, not on their entries. */
  lemma {:induction false} MemoOwnerKeys(h: Heap, h': Heap, index: map<nat, nat>, t: nat, fuel: nat)
    requires h.wrappedMethods.Keys == h'.wrappedMethods.Keys
    ensures MemoOwner(h, index, t, fuel) == MemoOwner(h', index, t, fuel)
    decreases fuel
  {
    if t !in h.wrappedMethods && t in index && fuel > 0 {
      MemoOwnerKeys(h, h', index, index[t], fuel - 1);
    }
  }

  /** As written, wrapping the same pair again still returns the same wrapper
      and changes nothing: the second call finds the entry the first one used. */
  lemma WrapAsWrittenIdempotent(h: Heap, index: map<nat, nat>, fn: Value, boundTo: Value, fuel: nat)
    requires fn.Function? && BindsToObject(boundTo)
    ensures var first := WrapAsWritten(h, index, fn, boundTo, fuel);
      WrapAsWritten(first.0, index, fn, boundTo, fuel) == first
  {
    var first := WrapAsWritten(h, index, fn, boundTo, fuel);
    var t := boundTo.table;
    if MemoOwner(h, index, t, fuel).Some? {
      assert first.0.wrappedMethods.Keys == h.wrappedMethods.Keys;
      MemoOwnerKeys(h, first.0, index, t, fuel);
    }
  }

  /** As written, the heap invariant is not kept: table 1 indexes table 0,
      which has an empty memo table, and wrapping fn for table 1 stores in
      table 0 a wrapper bound to table 1. */
  lemma InheritedEntryBreaksConsistency()
    ensures var h := Heap(map[0 := map[]], map[0 := Opaque], 1);
      Consistent(h) && !Consistent(WrapAsWritten(h, map[1 := 0], Function(0), Table(1), 1).0)
  {
    var h := Heap(map[0 := map[]], map[0 := Opaque], 1);
    assert forall t, a :: EntryWraps(h, t, a);
    var h1 := WrapAsWritten(h, map[1 := 0], Function(0), Table(1), 1).0;
    assert MemoOwner(h, map[1 := 0], 1, 1) == Some(0);
    assert h1.wrappedMethods[0][0] == 1 && h1.closures[1] == Bound(Function(0), Table(1));
    assert !EntryWraps(h1, 0, 0);
  }

  /** Without an inherited memo table the source's reads agree with Wrap. */
  lemma WrapAsWrittenWithoutInheritance(h: Heap, index: map<nat, nat>, fn: Value, boundTo: Value, fuel: nat)
    requires fn.Function?
    requires BindsToObject(boundTo) ==> MemoOwner(h, index, boundTo.table, fuel) in {Option.None, Some(boundTo.table)}
    ensures WrapAsWritten(h, index, fn, boundTo, fuel) == Wrap(h, fn, boundTo)
  {
    if BindsToObject(boundTo) && boundTo.table in h.wrappedMethods {
      assert h.wrappedMethods[boundTo.table := MemoOf(h, boundTo.table)] == h.wrappedMethods;
    }
  }

  /** Table 1's metatable indexes table 0, as a derived class's table indexes
      its base. Once fn has been wrapped for table 0, the source's read hands
      table 1 table 0's wrapper, which calls fn with table 0 as its receiver;
      Wrap gives table 1 a wrapper that calls fn with table 1. */
  lemma InheritedMemoMisbinds()
    ensures var fn := Function(0);
      var index := map[1 := 0];
      var first := WrapAsWritten(Heap(map[], map[0 := Opaque], 1), index, fn, Table(0), 1);
      var asWritten := WrapAsWritten(first.0, index, fn, Table(1), 1);
      var intended := Wrap(first.0, fn, Table(1));
      && asWritten.1 == first.1
      && Invoke(asWritten.0, asWritten.1, []) == Some(Call(fn, [Table(0)]))
      && Invoke(intended.0, intended.1, []) == Some(Call(fn, [Table(1)]))
  {
    var fn, index := Function(0), map[1 := 0];
    var h0 := Heap(map[], map[0 := Opaque], 1);
    // Table 0 has no memo field and no metatable: a table is made for it.
    assert MemoOwner(h0, index, 0, 1) == Option.None;
    var h1 := Heap(map[0 := map[0 := 1]], map[0 := Opaque, 1 := Bound(fn, Table(0))], 2);
    assert WrapAsWritten(h0, index, fn, Table(0), 1) == (h1, Function(1));
    // Table 1 has no field of its own; the read finds table 0's.
    assert MemoOwner(h1, index, 1, 1) == Some(0);
    assert WrapAsWritten(h1, index, fn, Table(1), 1) == (h1, Function(1));
    assert [Table(0)] + [] == [Table(0)];
    assert Invoke(h1, Function(1), []) == Some(Call(fn, [Table(0)]));
    // Wrap reads table 1's own field and binds a new wrapper to table 1.
    var h3 := Heap(map[0 := map[0 := 1], 1 := map[0 := 2]], h1.closures[2 := Bound(fn, Table(1))], 3);
    assert Wrap(h1, fn, Table(1)) == (h3, Function(2));
    assert [Table(1)] + [] == [Table(1)];
    assert Invoke(h3, Function(2), []) == Some(Call(fn, [Table(1)]));
  }

  // ---------------------------------------------------------------------------
  // Properties of Wrap.

  lemma WrapConsistent(h: Heap, fn: Value, boundTo: Value)
    requires Consistent(h) && fn.Function?
    ensures Consistent(Wrap(h, fn, boundTo).0)
  {
    var h' := Wrap(h, fn, boundTo).0;
    assert forall id :: id in h'.closures ==> id in h.closures || id == h.nextFunction;
    forall t, a ensures EntryWraps(h', t, a) {
      if t in h.wrappedMethods && a in h.wrappedMethods[t] {
        MemoEntry(h, t, a);
      } else if t in h'.wrappedMethods && a in h'.wrappedMethods[t] {
        assert boundTo == Table(t) && fn == Function(a);
      }
    }
  }

  /** The wrapper calls fn with boundTo first, then the caller's arguments in
      order, whether it was just built or found in the memo table. */
  lemma WrapperForwards(h: Heap, fn: Value, boundTo: Value, args: seq<Value>)
    requires Consistent(h) && fn.Function?
    ensures var (h', w) := Wrap(h, fn, boundTo);
      Invoke(h', w, args) == Some(Call(fn, [boundTo] + args))
  {
    var (h', w) := Wrap(h, fn, boundTo);
    if BindsToObject(boundTo) && AddressOf(fn) in MemoOf(h, boundTo.table) {
      var t := boundTo.table;
      MemoEntry(h, t, fn.id);
    }
  }

  /** With an object receiver, wrapping the same function again returns the
      identical wrapper and changes nothing. */
  lemma WrapIdempotent(h: Heap, fn: Value, boundTo: Value)
    requires fn.Function? && BindsToObject(boundTo)
    ensures var (h1, w1) := Wrap(h, fn, boundTo);
      Wrap(h1, fn, boundTo) == (h1, w1)
  {
    var (h1, w1) := Wrap(h, fn, boundTo);
    var t := boundTo.table;
    assert t in h1.wrappedMethods && AddressOf(fn) in h1.wrappedMethods[t];
    assert h1.wrappedMethods[t := MemoOf(h1, t)] == h1.wrappedMethods;
  }

  /** Wrappers are per pair: wrapping a different function, or binding a
      different receiver, never returns an earlier wrapper. */
  lemma WrapSeparatesPairs(h: Heap, fn1: Value, boundTo1: Value, fn2: Value, boundTo2: Value)
    requires Consistent(h) && fn1.Function? && fn2.Function? && (fn1, boundTo1) != (fn2, boundTo2)
    ensures var (h1, w1) := Wrap(h, fn1, boundTo1);
      Wrap(h1, fn2, boundTo2).1 != w1
  {
    var (h1, w1) := Wrap(h, fn1, boundTo1);
    var (h2, w2) := Wrap(h1, fn2, boundTo2);
    WrapConsistent(h, fn1, boundTo1);
    WrapperForwards(h, fn1, boundTo1, []);
    WrapperForwards(h1, fn2, boundTo2, []);
    assert w1.id in h1.closures && w1.id != h1.nextFunction;
    assert Invoke(h2, w1, []) == Some(Call(fn1, [boundTo1] + []));
    assert Invoke(h2, w2, []) == Some(Call(fn2, [boundTo2] + []));
    assert Call(fn1, [boundTo1] + []) != Call(fn2, [boundTo2] + []) by {
      if fn1 == fn2 {
        assert ([boundTo1] + [])[0] != ([boundTo2] + [])[0];
      }
    }
  }

  /** Without an object receiver no memo table is created or changed, the
      wrapper is a function value that did not exist before, and wrapping
      again gives another one. */
  lemma WrapUnboundIsFresh(h: Heap, fn: Value, boundTo: Value)
    requires Consistent(h) && fn.Function? && !BindsToObject(boundTo)
    ensures var (h1, w1) := Wrap(h, fn, boundTo);
      && h1.wrappedMethods == h.wrappedMethods
      && w1.Function? && w1.id !in h.closures
      && Wrap(h1, fn, boundTo).1 != w1
  {
    var (h1, w1) := Wrap(h, fn, boundTo);
    WrapConsistent(h, fn, boundTo);
    assert w1.id in h1.closures;
  }

  // ---------------------------------------------------------------------------
  // The runtime, with the heap updated in place.

  class Runtime {
    var wrappedMethods: map<nat, map<Address, nat>>
    var closures: map<nat, Closure>
    var nextFunction: nat

    ghost function State(): Heap
      reads this
    {
      Heap(wrappedMethods, closures, nextFunction)
    }

    ghost predicate Valid()
      reads this
    {
      Consistent(State())
    }

    constructor ()
      ensures Valid() && wrappedMethods == map[] && closures == map[]
    {
      wrappedMethods := map[];
      closures := map[];
      nextFunction := 0;
    }

    /** Creates a function value whose body is c. */
    method NewFunction(c: Closure) returns (id: nat)
      modifies this
      ensures (State(), id) == Allocate(old(State()), c)
    {
      id := nextFunction;
      closures := closures[id := c];
      nextFunction := nextFunction + 1;
    }

    /** __TS__FunctionWrap */
    method FunctionWrap(fn: Value, boundTo: Value) returns (wrapper: Value)
      requires Valid() && fn.Function?
      modifies this
      ensures (State(), wrapper) == Wrap(old(State()), fn, boundTo)
      ensures Valid()
    {
      ghost var h := State();
      WrapConsistent(h, fn, boundTo);
      if Truthy(boundTo) && TypeName(boundTo) == "table" {
        var address := AddressOf(fn);
        var t := boundTo.table;
        if t !in wrappedMethods {
          wrappedMethods := wrappedMethods[t := map[]];
        }
        assert wrappedMethods == h.wrappedMethods[t := MemoOf(h, t)];
        if address !in wrappedMethods[t] {
          var id := NewFunction(Bound(fn, boundTo));
          wrappedMethods := wrappedMethods[t := wrappedMethods[t][address := id]];
          assert wrappedMethods == h.wrappedMethods[t := MemoOf(h, t)[address := id]];
          assert closures == Allocate(h, Bound(fn, boundTo)).0.closures;
        }
        wrapper := Function(wrappedMethods[t][address]);
      } else {
        var id := NewFunction(Bound(fn, boundTo));
        wrapper := Function(id);
      }
    }
  }
}
