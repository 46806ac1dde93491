/** The URI-to-prefix table behind the XML writer. */
module PrefixMapping {
  import opened Options
  import opened PrefixNumeral

  const XML_PREFIX: string := "xml"
  const XMLNS: string := "xmlns"
  const XML_URI: string := "http://www.w3.org/XML/1998/namespace"

  /** The fields of a PrefixMapper as a value.  The three tables are allocated lazily, so they are optional. */
  datatype Mapper = Mapper(
    stack: seq<seq<string>>,
    prefixes: Option<map<string, string>>,
    fixed: Option<map<string, string>>,
    reserved: Option<set<string>>,
    counter: nat)
  {
    /** What every method keeps: the two maps are allocated together, and before that no URI is on the stack. */
    predicate WellFormed() {
      && (prefixes.None? <==> fixed.None?)
      && (prefixes.None? ==> forall v <- stack :: v == [])
    }

    predicate IsMapped(uri: string) {
      prefixes.Some? && uri in prefixes.value
    }

    /** The table a lookup sees once the maps are allocated. */
    function InScope(): map<string, string> {
      if prefixes.Some? then prefixes.value else map[XML_URI := XML_PREFIX]
    }

    function Fixed(): map<string, string> {
      if fixed.Some? then fixed.value else map[]
    }

    function Reserved(): set<string> {
      {XML_PREFIX, XMLNS} + (if reserved.Some? then reserved.value else {})
    }

    /** The counter stays clear of the values that are negative as an `int`, whatever is reserved. */
    ghost predicate Room() {
      counter + |Ahead(counter, Reserved())| < INT32_LIMIT
    }

    /** The prefix the next GetPrefix(uri) returns. */
    ghost function PrefixOf(uri: string): string {
      if uri in InScope() then InScope()[uri]
      else if uri in Fixed() then Fixed()[uri]
      else Numeral(NextFree(counter, Reserved()))
    }

    function Allocated(): Mapper {
      this.(prefixes := Some(InScope()), fixed := Some(Fixed()))
    }

    /** A URI that was not in scope gets a prefix. */
    function WithPrefix(uri: string, p: string, next: nat): Mapper
      requires stack != []
    {
      var n := |stack| - 1;
      Mapper(stack[..n] + [stack[n] + [uri]], Some(InScope()[uri := p]), Some(Fixed()[uri := p]), reserved, next)
    }

    /** The URI has a prefix, or some counter gives one that is not reserved, so that the search for it ends. */
    ghost predicate Obtainable(uri: string) {
      uri in InScope() || uri in Fixed() || (counter < UINT32_LIMIT && SomeFree(Reserved()))
    }

    /** The next GetPrefix(uri), by machine arithmetic: the prefix and the state after it. */
    ghost function Obtain(uri: string): (string, Mapper)
      requires (uri in InScope() || stack != []) && Obtainable(uri)
    {
      if uri in InScope() then (InScope()[uri], Allocated())
      else if uri in Fixed() then (Fixed()[uri], WithPrefix(uri, Fixed()[uri], counter))
      else
        var k := Passes(counter, Reserved());
        var p := PrefixFor(Advance(counter, k));
        (p, WithPrefix(uri, p, Advance(counter, k + 1)))
    }

    /** The same for an unbounded counter. */
    ghost function AfterGetPrefix(uri: string): Mapper
      requires uri in InScope() || stack != []
    {
      if uri in InScope() then Allocated()
      else WithPrefix(uri, PrefixOf(uri), if uri in Fixed() then counter else NextFree(counter, Reserved()) + 1)
    }

    function AfterAssociate(uri: string, prefix: string): Mapper {
      this.(prefixes := Some(InScope()),
            fixed := Some(Fixed()[uri := prefix]),
            reserved := Some((if reserved.Some? then reserved.value else {}) + {prefix}))
    }

    function AfterPush(): Mapper {
      this.(stack := stack + [[]])
    }

    function AfterPop(): Mapper
      requires stack != []
    {
      var n := |stack| - 1;
      this.(stack := stack[..n],
            prefixes := if prefixes.Some? then Some(prefixes.value - (set u | u in stack[n])) else None)
    }
  }

  const Fresh: Mapper := Mapper([], None, None, None, 0)

  /** While the counter stays below 2^31 the two agree. */
  lemma ObtainWithRoom(m: Mapper, uri: string)
    requires m.Room() && (uri in m.InScope() || m.stack != [])
    ensures m.Obtainable(uri) && m.Obtain(uri) == (m.PrefixOf(uri), m.AfterGetPrefix(uri))
  {
    PassesIsNextFree(m.counter, m.Reserved());
    var k := Passes(m.counter, m.Reserved());
    AdvanceBelow(m.counter, k);
    AdvanceOne(m.counter, k);
  }

  class PrefixMapper {
    var uriStack: seq<seq<string>>
    var uriPrefixMap: Option<map<string, string>>
    var uriFixedPrefixMap: Option<map<string, string>>
    var fixedPrefixSet: Option<set<string>>
    var counter: Counter

    ghost function View(): Mapper
      reads this
    {
      Mapper(uriStack, uriPrefixMap, uriFixedPrefixMap, fixedPrefixSet, counter)
    }

    constructor ()
      ensures View() == Fresh
    {
      uriStack, uriPrefixMap, uriFixedPrefixMap, fixedPrefixSet, counter := [], None, None, None, 0;
    }

    method Reset()
      modifies this
      ensures View() == Fresh
    {
      uriStack, uriPrefixMap, uriFixedPrefixMap, fixedPrefixSet, counter := [], None, None, None, 0;
    }

    method IsMapped(uri: string) returns (mapped: bool)
      ensures mapped == View().IsMapped(uri)
    {
      mapped := uriPrefixMap.Some? && uri in uriPrefixMap.value;
    }

    method AllocateMapsIfNull()
      requires View().WellFormed()
      modifies this
      ensures View() == old(View()).Allocated() && View().WellFormed()
    {
      if uriPrefixMap.Some? {
        return;
      }
      uriPrefixMap, uriFixedPrefixMap := Some(map[]), Some(map[]);
      uriPrefixMap := Some(uriPrefixMap.value[XML_URI := XML_PREFIX]);
    }

    method GetPrefix(uri: string) returns (prefix: string)
      requires View().WellFormed()
      requires (uri in View().InScope() || uriStack != []) && View().Obtainable(uri)
      modifies this
      ensures (prefix, View()) == old(View()).Obtain(uri) && View().WellFormed()
    {
      AllocateMapsIfNull();
      if uri in uriPrefixMap.value {
        return uriPrefixMap.value[uri];
      }
      if uri in uriFixedPrefixMap.value {
        prefix := uriFixedPrefixMap.value[uri];
      } else {
        prefix := GenerateNextPrefix();
      }
      uriFixedPrefixMap := Some(uriFixedPrefixMap.value[uri := prefix]);
      uriPrefixMap := Some(uriPrefixMap.value[uri := prefix]);
      var n := |uriStack| - 1;
      uriStack := uriStack[..n] + [uriStack[n] + [uri]];
    }

    method AssociatePrefix(uri: string, prefix: string)
      requires View().WellFormed()
      modifies this
      ensures View() == old(View()).AfterAssociate(uri, prefix) && View().WellFormed()
    {
      AllocateMapsIfNull();
      uriFixedPrefixMap := Some(uriFixedPrefixMap.value[uri := prefix]);
      if fixedPrefixSet.None? {
        fixedPrefixSet := Some({});
      }
      fixedPrefixSet := Some(fixedPrefixSet.value + {prefix});
    }

    method IsReservedPrefix(prefix: string) returns (isReserved: bool)
      ensures isReserved <==> prefix in View().Reserved()
    {
      if prefix == XML_PREFIX || prefix == XMLNS {
        return true;
      }
      isReserved := fixedPrefixSet.Some? && prefix in fixedPrefixSet.value;
    }

    /** One pass of the generating loop: spell the counter out, step it, and see whether the result is reserved. */
    method NextCandidate() returns (retval: string, isReserved: bool)
      modifies this`counter
      ensures retval == PrefixFor(old(counter)) && counter == Advance(old(counter), 1)
      ensures isReserved <==> retval in View().Reserved()
    {
      retval := FillPrefix(counter);
      counter := (counter + 1) % UINT32_LIMIT;
      isReserved := IsReservedPrefix(retval);
    }

    /** The loop ends if some counter has a prefix that is not reserved, and takes the first one it comes to. */
    method GenerateNextPrefix() returns (retval: string)
      requires SomeFree(View().Reserved())
      modifies this`counter
      ensures var k := Passes(old(counter), View().Reserved());
        retval == PrefixFor(Advance(old(counter), k)) && counter == Advance(old(counter), k + 1)
    {
      ghost var k := Passes(counter, View().Reserved());
      ghost var n: nat := 0;
      var isReserved := true;
      retval := "";
      while isReserved
        invariant counter == Advance(old(counter), n)
        invariant if isReserved then n <= k else n == k + 1 && retval == PrefixFor(Advance(old(counter), k))
        decreases k + 1 - n
      {
        retval, isReserved := NextCandidate();
        AdvanceOne(old(counter), n);
        n := n + 1;
      }
    }

    method Push()
      modifies this`uriStack
      ensures View() == old(View()).AfterPush()
    {
      uriStack := uriStack + [[]];
    }

    method Pop()
      requires View().WellFormed() && uriStack != []
      modifies this
      ensures View() == old(View()).AfterPop() && View().WellFormed()
    {
      var v := uriStack[|uriStack| - 1];
      assert v in uriStack;
      var i := 0;
      while i < |v|
        invariant 0 <= i <= |v|
        invariant uriPrefixMap.Some? <==> old(uriPrefixMap).Some?
        invariant uriPrefixMap.Some? ==> uriPrefixMap.value == old(uriPrefixMap).value - (set u | u in v[..i])
        invariant unchanged(`uriStack, `uriFixedPrefixMap, `fixedPrefixSet, `counter)
      {
        uriPrefixMap := Some(uriPrefixMap.value - {v[i]});
        assert v[..i + 1] == v[..i] + [v[i]];
        i := i + 1;
      }
      assert v[..i] == v;
      uriStack := uriStack[..|uriStack| - 1];
      assert forall u <- uriStack :: u in old(uriStack);
    }
  }
}
