/** The encoder as the program runs it: an execution context that is updated in place, and
  * loops over predicates, alternatives and arrays, each proved against its specification. */
module ExecutionContexts {
  import opened SmtLogic
  import opened PredicateStates
  import opened Encoding

  /** The version shortcut: computes the highest version and merges only if it exceeds the
    * version of the default. */
  method MergeVersioned(default: Versioned, alts: seq<(BoolExpr, Versioned)>) returns (r: Versioned)
    ensures r == MergeArrays(default, alts)
  {
    var maxVersion := default.version;
    for i := 0 to |alts|
      invariant maxVersion == MaxVersion(default.version, alts[..i])
    {
      assert alts[..i + 1][..i] == alts[..i];
      if maxVersion < alts[i].1.version {
        maxVersion := alts[i].1.version;
      }
    }
    assert alts[..|alts|] == alts;
    if default.version == maxVersion {
      return default;
    }
    var merged := SwitchArrays(Unversioned(alts), default.arr);
    r := Versioned(merged, maxVersion + 1);
  }

  /** `switch_`: a left fold over the cases. */
  method SwitchArrays(cases: seq<(BoolExpr, ArrExpr)>, default: ArrExpr) returns (merged: ArrExpr)
    ensures merged == Switch(cases, default)
  {
    merged := default;
    for i := 0 to |cases|
      invariant merged == Switch(cases[..i], default)
    {
      assert cases[..i + 1][..i] == cases[..i];
      merged := ArrIte(cases[i].0, cases[i].1, merged);
    }
    assert cases[..|cases|] == cases;
  }

  class ExecutionContext {
    var order: seq<ArrayId>
    var memArrays: map<ArrayId, Versioned>

    function Snapshot(): Context
      reads this
    {
      Context(order, memArrays)
    }

    /** The copy constructor. */
    constructor (from: Context)
      ensures Snapshot() == from
    {
      order, memArrays := from.order, from.arrays;
    }

    /** Enters an array that is not there yet. */
    method Get(id: ArrayId) returns (m: Versioned)
      modifies this
      ensures Snapshot() == Touch(old(Snapshot()), id)
      ensures m == Lookup(old(Snapshot()), id)
    {
      if id !in memArrays {
        order, memArrays := order + [id], memArrays[id := NO_MEMORY];
      }
      m := memArrays[id];
    }

    method Set(id: ArrayId, val: Versioned)
      modifies this
      ensures Snapshot() == Update(old(Snapshot()), id, val)
    {
      if id !in memArrays {
        order := order + [id];
      }
      memArrays := memArrays[id := val];
    }

    method ReadExprFromMemory(id: ArrayId, ix: IntExpr) returns (e: IntExpr)
      modifies this
      ensures Snapshot() == Touch(old(Snapshot()), id)
      ensures e == Select(Lookup(old(Snapshot()), id).arr, ix)
    {
      var m := Get(id);
      e := Select(m.arr, ix);
    }

    method WriteExprToMemory(id: ArrayId, ix: IntExpr, val: IntExpr)
      modifies this
      ensures Snapshot() == Update(old(Snapshot()), id, StoreVersioned(Lookup(old(Snapshot()), id), ix, val))
    {
      var m := Get(id);
      Set(id, Versioned(Store(m.arr, ix, val), m.version + 1));
      assert Snapshot().arrays
        == Update(old(Snapshot()), id, StoreVersioned(Lookup(old(Snapshot()), id), ix, val)).arrays;
    }

    /** Equates an external variable with each array and puts it in the array's place. */
    method ExternalizeEverythingMutable(tick: nat) returns (ret: Formula)
      modifies this
      ensures (ret, Snapshot()) == Externalize(old(Snapshot()), old(order), tick, TRUE)
    {
      ret := TRUE;
      var ids := order;
      for i := 0 to |ids|
        invariant Externalize(old(Snapshot()), ids, tick, TRUE) == Externalize(Snapshot(), ids[i..], tick, ret)
      {
        var external := ArrVar(External(ids[i], tick));
        var current := Lookup(Snapshot(), ids[i]);
        ret := ret.Conj(Plain(ArrEq(external, current.arr)));
        Set(ids[i], Versioned(external, 0));
      }
    }

    /** Replaces every array by the merge of its alternatives. */
    method SwitchOnAlternatives(contexts: seq<Alternative>)
      modifies this
      ensures Snapshot() == SwitchOn(old(Snapshot()), contexts)
    {
      var ids := UnionOrder(order, contexts);
      var merged: map<ArrayId, Versioned> := map[];
      var start := Snapshot();
      for i := 0 to |ids|
        invariant IsMerged(start, contexts, ids[..i], merged)
      {
        var m := MergeVersioned(Lookup(start, ids[i]), ArraysOf(contexts, ids[i]));
        AddMerged(start, contexts, ids, i, merged, m);
        merged := merged[ids[i] := m];
      }
      assert ids[..|ids|] == ids;
      assert merged == map id | id in ids :: MergedArray(start, contexts, id);
      order, memArrays := ids, merged;
    }

    lemma AddMerged(start: Context, contexts: seq<Alternative>, ids: seq<ArrayId>, i: nat,
                    merged: map<ArrayId, Versioned>, m: Versioned)
      requires i < |ids| && m == MergedArray(start, contexts, ids[i])
      requires IsMerged(start, contexts, ids[..i], merged)
      ensures IsMerged(start, contexts, ids[..i + 1], merged[ids[i] := m])
    {
      assert ids[..i + 1] == ids[..i] + [ids[i]];
    }

    ghost predicate IsMerged(start: Context, contexts: seq<Alternative>, ids: seq<ArrayId>,
                             merged: map<ArrayId, Versioned>) {
      && (forall id :: id in merged <==> id in ids)
      && forall id | id in merged :: merged[id] == MergedArray(start, contexts, id)
    }

    /** Replaces every array by the external variable of this choice. */
    method ExternalSwitchOnAlternatives(contexts: seq<Alternative>, tick: nat)
      modifies this
      ensures Snapshot() == ExternalSwitchOn(old(Snapshot()), contexts, tick)
    {
      var ids := UnionOrder(order, contexts);
      var merged: map<ArrayId, Versioned> := map[];
      for i := 0 to |ids|
        invariant merged == map id | id in ids[..i] :: Versioned(ArrVar(External(id, tick)), 0)
      {
        merged := merged[ids[i] := Versioned(ArrVar(External(ids[i], tick)), 0)];
        assert ids[..i + 1] == ids[..i] + [ids[i]];
      }
      assert ids[..|ids|] == ids;
      order, memArrays := ids, merged;
    }
  }

  // ---------- terms and predicates ----------

  method DoitInt(t: IntTerm, ctx: ExecutionContext) returns (e: IntExpr)
    modifies ctx
    ensures (e, ctx.Snapshot()) == EncodeInt(t, old(ctx.Snapshot()))
    decreases t
  {
    match t {
      case Const(n) => e := Num(n);
      case Value(x) => e := IntVar(x);
      case Load(id, ptr) =>
        var p := DoitInt(ptr, ctx);
        e := ctx.ReadExprFromMemory(id, p);
      case Binary(op, l, r) =>
        var a := DoitInt(l, ctx);
        var b := DoitInt(r, ctx);
        e := Arith(op, a, b);
    }
  }

  method DoitBool(t: BoolTerm, ctx: ExecutionContext) returns (e: BoolExpr)
    modifies ctx
    ensures (e, ctx.Snapshot()) == EncodeBool(t, old(ctx.Snapshot()))
    decreases t
  {
    match t {
      case BoolLit(b) => e := BoolConst(b);
      case Flag(x) => e := BoolVar(x);
      case Compare(op, l, r) =>
        var a := DoitInt(l, ctx);
        var b := DoitInt(r, ctx);
        e := Cmp(op, a, b);
      case Combine(op, p, q) =>
        var a := DoitBool(p, ctx);
        var b := DoitBool(q, ctx);
        e := Logic(op, a, b);
    }
  }

  method DoitAction(a: Action, ctx: ExecutionContext) returns (e: BoolExpr)
    modifies ctx
    ensures (e, ctx.Snapshot()) == EncodeAction(a, old(ctx.Snapshot()))
  {
    match a {
      case Equality(l, r) =>
        var x := DoitInt(l, ctx);
        var y := DoitInt(r, ctx);
        e := Cmp(Eq, x, y);
      case Inequality(l, r) =>
        var x := DoitInt(l, ctx);
        var y := DoitInt(r, ctx);
        e := Cmp(Neq, x, y);
      case BoolEquality(p, q) =>
        var x := DoitBool(p, ctx);
        var y := DoitBool(q, ctx);
        e := BoolEq(x, y);
      case Write(id, ptr, val) =>
        var p := DoitInt(ptr, ctx);
        var v := DoitInt(val, ctx);
        ctx.WriteExprToMemory(id, p, v);
        e := BoolConst(true);
    }
  }

  // ---------- states ----------

  method DoitBasic(data: seq<Predicate>, ctx: ExecutionContext) returns (res: Formula)
    modifies ctx
    ensures (res, ctx.Snapshot()) == Encode(Basic(data), old(ctx.Snapshot()), false)
  {
    res := TRUE;
    for i := 0 to |data|
      invariant EncodeData(data, old(ctx.Snapshot()), TRUE) == EncodeData(data[i..], ctx.Snapshot(), res)
    {
      var e := DoitAction(data[i].action, ctx);
      if data[i].kind == INVARIANT {
        res := res.WithAxiom(Plain(e));
      } else {
        res := res.Conj(Plain(e));
      }
      assert data[i..][1..] == data[i + 1..];
    }
    res := res.Conj(TRUE);
  }

  /** Merge mode: `memories` collects the guard of each alternative and a copy of its context. */
  method Doit(s: State, ctx: ExecutionContext, pathMode: bool) returns (res: Formula)
    modifies ctx
    ensures (res, ctx.Snapshot()) == Encode(s, old(ctx.Snapshot()), pathMode)
    decreases !pathMode, s
  {
    match s {
      case Basic(data) =>
        res := DoitBasic(data, ctx);
      case Chain(base, curr) =>
        res := TRUE;
        var b := Doit(base, ctx, pathMode);
        res := res.Conj(b);
        var c := Doit(curr, ctx, pathMode);
        res := res.Conj(c);
      case Choice(choices) =>
        res := FALSE;
        var memories: seq<Alternative> := [];
        for i := 0 to |choices|
          invariant ctx.Snapshot() == old(ctx.Snapshot())
          invariant EncodeChoices(choices, old(ctx.Snapshot()), pathMode, FALSE, [])
                 == EncodeChoices(choices[i..], old(ctx.Snapshot()), pathMode, res, memories)
        {
          var choiceCtx := new ExecutionContext(ctx.Snapshot());
          var state := Doit(choices[i], choiceCtx, pathMode);
          res := res.Disj(state);
          if !pathMode {
            var path := PathOf(choices[i]);
            var guard := state;
            if path != choices[i] {
              guard := Doit(path, choiceCtx, true);
            }
            memories := memories + [Alternative(guard.expr, choiceCtx.Snapshot())];
          }
          assert choices[i..][1..] == choices[i + 1..];
        }
        if !pathMode {
          ctx.SwitchOnAlternatives(memories);
        }
    }
  }

  /** The counter that numbers the choices of free-variable mode. */
  class Uniqueness {
    var count: nat

    constructor (n: nat)
      ensures count == n
    {
      count := n;
    }
  }

  /** Free-variable mode. */
  method DoitFree(s: State, ctx: ExecutionContext, uniqueness: Uniqueness) returns (res: Formula)
    modifies ctx, uniqueness
    ensures (res, ctx.Snapshot(), uniqueness.count) == EncodeFree(s, old(ctx.Snapshot()), old(uniqueness.count))
    decreases s
  {
    match s {
      case Basic(data) =>
        res := DoitBasic(data, ctx);
      case Chain(base, curr) =>
        res := TRUE;
        var b := DoitFree(base, ctx, uniqueness);
        res := res.Conj(b);
        var c := DoitFree(curr, ctx, uniqueness);
        res := res.Conj(c);
      case Choice(choices) =>
        res := FALSE;
        var memories: seq<Alternative> := [];
        uniqueness.count := uniqueness.count + 1;
        var mine := uniqueness.count;
        ghost var before := ctx.Snapshot();
        ghost var spec := EncodeFreeChoices(choices, before, mine, mine, FALSE, []);
        for i := 0 to |choices|
          invariant ctx.Snapshot() == before
          invariant spec == EncodeFreeChoices(choices[i..], before, mine, uniqueness.count, res, memories)
        {
          var choiceCtx := new ExecutionContext(ctx.Snapshot());
          var state := DoitFree(choices[i], choiceCtx, uniqueness);
          var equations := choiceCtx.ExternalizeEverythingMutable(mine);
          res := res.Disj(state.Conj(equations));
          memories := memories + [Alternative(BoolConst(true), choiceCtx.Snapshot())];
          assert choices[i..][1..] == choices[i + 1..];
        }
        ctx.ExternalSwitchOnAlternatives(memories, mine);
    }
  }
}
