/** Balanced use of the prefix table: what an element and its descendants map goes out of scope with it. */
module PrefixScopes {
  import opened PrefixMapping

  /** Inside an element: a URI looked up, or a child element with its own uses. */
  datatype Use = Uri(uri: string) | Child(uses: seq<Use>)

  /** Everything that happens between the Push and the Pop of one element. */
  ghost function Inside(m: Mapper, uses: seq<Use>): (after: Mapper)
    requires m.WellFormed() && m.stack != []
    ensures after.WellFormed() && |after.stack| == |m.stack|
    decreases uses
  {
    if uses == [] then m
    else
      var n := |uses| - 1;
      var before := Inside(m, uses[..n]);
      match uses[n]
      case Uri(u) => before.AfterGetPrefix(u)
      case Child(inner) =>
        var deepest := Inside(before.AfterPush(), inner);
        assert forall v <- deepest.AfterPop().stack :: v in deepest.stack;
        deepest.AfterPop()
  }

  /** The table of m, with just the URIs of one more stack level added. */
  ghost predicate OneDeeper(base: Mapper, m: Mapper) {
    && |m.stack| == |base.stack| + 1
    && m.stack[..|base.stack|] == base.stack
    && (forall u :: u in m.stack[|base.stack|] ==> u in m.InScope() && u !in base.InScope())
    && (forall u :: u in m.InScope() ==> u in base.InScope() || u in m.stack[|base.stack|])
    && (forall u :: u in base.InScope() ==> u in m.InScope() && m.InScope()[u] == base.InScope()[u])
  }

  lemma GetStaysOneDeeper(base: Mapper, m: Mapper, u: string)
    requires m.WellFormed() && OneDeeper(base, m)
    ensures OneDeeper(base, m.AfterGetPrefix(u))
  {
  }

  lemma PopRestores(base: Mapper, m: Mapper)
    requires m.WellFormed() && OneDeeper(base, m)
    ensures m.AfterPop().stack == base.stack && m.AfterPop().InScope() == base.InScope()
  {
    var top := m.stack[|base.stack|];
    if m.prefixes.None? {
      assert top in m.stack;
    }
    assert m.AfterPop().InScope().Keys == base.InScope().Keys;
  }

  lemma {:induction false} InsideStaysOneDeeper(base: Mapper, uses: seq<Use>)
    requires base.WellFormed()
    ensures OneDeeper(base, Inside(base.AfterPush(), uses))
    decreases uses
  {
    if uses != [] {
      var n := |uses| - 1;
      var before := Inside(base.AfterPush(), uses[..n]);
      InsideStaysOneDeeper(base, uses[..n]);
      match uses[n]
      case Uri(u) => GetStaysOneDeeper(base, before, u);
      case Child(inner) =>
        InsideStaysOneDeeper(before, inner);
        PopRestores(before, Inside(before.AfterPush(), inner));
    }
  }

  /** Push, any balanced uses, Pop: the stack and the table in scope are exactly as before. */
  lemma BalancedUseRestores(m: Mapper, uses: seq<Use>)
    requires m.WellFormed()
    ensures Inside(m.AfterPush(), uses).AfterPop().stack == m.stack
    ensures Inside(m.AfterPush(), uses).AfterPop().InScope() == m.InScope()
  {
    InsideStaysOneDeeper(m, uses);
    PopRestores(m, Inside(m.AfterPush(), uses));
  }
}
