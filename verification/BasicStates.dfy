/** The loops behind the structural operations: predicate lists that are built up in place,
  * and the alternatives of a choice that are split one after the other. */
module BasicStates {
  import opened PredicateStates
  import opened StateAlgebra

  class BasicPredicateState {
    var data: seq<Predicate>

    constructor ()
      ensures data == []
    {
      data := [];
    }

    method AddPredicateInPlace(p: Predicate)
      modifies this
      ensures data == old(data) + [p]
    {
      data := data + [p];
    }

    method Map(m: Predicate -> Predicate) returns (res: BasicPredicateState)
      ensures fresh(res) && |res.data| == |data|
      ensures forall i | 0 <= i < |data| :: res.data[i] == m(data[i])
    {
      res := new BasicPredicateState();
      for n := 0 to |data|
        invariant fresh(res) && |res.data| == n
        invariant forall i | 0 <= i < n :: res.data[i] == m(data[i])
      {
        res.AddPredicateInPlace(m(data[n]));
      }
    }

    method FilterByTypes(types: set<PredicateType>) returns (res: BasicPredicateState)
      ensures fresh(res) && res.data == KeepKinds(data, types)
    {
      res := new BasicPredicateState();
      for n := 0 to |data|
        invariant fresh(res) && res.data == KeepKinds(data[..n], types)
      {
        OneMorePredicate(data, n, types);
        if data[n].kind in types {
          res.AddPredicateInPlace(data[n]);
        }
      }
      assert data[..|data|] == data;
    }

    method SplitByTypes(types: set<PredicateType>) returns (yes: BasicPredicateState, no: BasicPredicateState)
      ensures fresh(yes) && fresh(no)
      ensures yes.data == KeepKinds(data, types) && no.data == DropKinds(data, types)
    {
      yes := new BasicPredicateState();
      no := new BasicPredicateState();
      for n := 0 to |data|
        invariant fresh(yes) && fresh(no) && yes != no
        invariant yes.data == KeepKinds(data[..n], types) && no.data == DropKinds(data[..n], types)
      {
        OneMorePredicate(data, n, types);
        if data[n].kind in types {
          yes.AddPredicateInPlace(data[n]);
        } else {
          no.AddPredicateInPlace(data[n]);
        }
      }
      assert data[..|data|] == data;
    }

    method Reverse() returns (res: BasicPredicateState)
      ensures fresh(res) && res.data == ReverseSeq(data)
    {
      res := new BasicPredicateState();
      for n := |data| downto 0
        invariant fresh(res) && res.data == ReverseSeq(data[n..])
      {
        res.AddPredicateInPlace(data[n]);
        assert data[n..][1..] == data[n + 1..];
      }
      assert data[0..] == data;
    }
  }

  lemma OneMorePredicate(data: seq<Predicate>, n: nat, types: set<PredicateType>)
    requires n < |data|
    ensures KeepKinds(data[..n + 1], types)
      == if data[n].kind in types then KeepKinds(data[..n], types) + [data[n]] else KeepKinds(data[..n], types)
    ensures DropKinds(data[..n + 1], types)
      == if data[n].kind in types then DropKinds(data[..n], types) else DropKinds(data[..n], types) + [data[n]]
  {
    assert data[..n + 1] == data[..n] + [data[n]];
    KeepConcat(data[..n], [data[n]], types);
    DropConcat(data[..n], [data[n]], types);
  }

  /** Splits any state; a choice alternative by alternative. */
  method SplitState(s: State, types: set<PredicateType>) returns (yes: State, no: State)
    ensures (yes, no) == PredicateStates.SplitByTypes(s, types)
    decreases s
  {
    match s {
      case Basic(data) =>
        var b := new BasicPredicateState();
        b.data := data;
        var y, n := b.SplitByTypes(types);
        yes, no := Basic(y.data), Basic(n.data);
      case Chain(base, curr) =>
        var baseYes, baseNo := SplitState(base, types);
        var currYes, currNo := SplitState(curr, types);
        yes, no := Chain(baseYes, currYes), Chain(baseNo, currNo);
      case Choice(cs) =>
        var ys: seq<State>, ns: seq<State> := [], [];
        for i := 0 to |cs|
          invariant (ys, ns) == SplitAll(cs[..i], types)
        {
          OneMoreAlternative(cs, i, types);
          var y, n := SplitState(cs[i], types);
          ys, ns := ys + [y], ns + [n];
        }
        assert cs[..|cs|] == cs;
        yes, no := Choice(ys), Choice(ns);
    }
  }

  lemma {:induction false} OneMoreAlternative(cs: seq<State>, n: nat, types: set<PredicateType>)
    requires n < |cs|
    ensures var before, one := SplitAll(cs[..n], types), PredicateStates.SplitByTypes(cs[n], types);
      SplitAll(cs[..n + 1], types) == (before.0 + [one.0], before.1 + [one.1])
    decreases n
  {
    if n > 0 {
      OneMoreAlternative(cs[1..], n - 1, types);
      assert cs[1..][..n - 1] == cs[..n][1..] && cs[1..][..n] == cs[..n + 1][1..];
      assert cs[..n][0] == cs[..n + 1][0] == cs[0];
      var first, rest := PredicateStates.SplitByTypes(cs[0], types), SplitAll(cs[..n][1..], types);
      var one := PredicateStates.SplitByTypes(cs[n], types);
      assert [first.0] + (rest.0 + [one.0]) == [first.0] + rest.0 + [one.0];
      assert [first.1] + (rest.1 + [one.1]) == [first.1] + rest.1 + [one.1];
    } else {
      assert cs[..1][1..] == [] && cs[..0] == [];
      var one := PredicateStates.SplitByTypes(cs[0], types);
      assert [one.0] + [] == [] + [one.0] && [one.1] + [] == [] + [one.1];
    }
  }
}
