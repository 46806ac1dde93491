/** What every run keeps about prefixes: who owns which prefix, and which URIs are in scope. */
module PrefixInvariants {
  import opened Options
  import opened PrefixNumeral
  import opened PrefixMapping
  import opened NamespaceReader

  // ----- The URIs on the stack

  function Flatten(stack: seq<seq<string>>): seq<string> {
    if stack == [] then [] else Flatten(stack[..|stack| - 1]) + stack[|stack| - 1]
  }

  function Uris(s: seq<string>): set<string> {
    set u | u in s
  }

  ghost predicate Distinct(s: seq<string>) {
    forall i, j :: 0 <= i < j < |s| ==> s[i] != s[j]
  }

  /** Usable as a prefix in a tag without clashing with the prefixes XML reserves. */
  predicate UsablePrefix(p: string) {
    NCName(p) && p != XML_PREFIX && p != XMLNS
  }

  ghost predicate Injective(m: map<string, string>) {
    forall u, v :: u in m && v in m && m[u] == m[v] ==> u == v
  }

  /** No two URIs share a prefix, whether bound by the client or generated, in scope or not. */
  ghost predicate FixedInv(m: Mapper) {
    && XML_URI !in m.Fixed()
    && Injective(m.Fixed())
    && (forall u :: u in m.Fixed() ==> UsablePrefix(m.Fixed()[u]))
    && (forall u :: u in m.Fixed() ==> m.Fixed()[u] in m.Reserved() || Value(m.Fixed()[u]) < m.counter)
  }

  /** The URIs in scope are the XML URI and those on the stack, none of them twice. */
  ghost predicate StackInv(m: Mapper) {
    && m.WellFormed()
    && Distinct(Flatten(m.stack))
    && XML_URI !in Flatten(m.stack)
    && m.InScope().Keys == {XML_URI} + Uris(Flatten(m.stack))
    && (forall u :: u in m.InScope() && u != XML_URI ==> u in m.Fixed() && m.InScope()[u] == m.Fixed()[u])
    && m.InScope()[XML_URI] == XML_PREFIX
  }

  /** The scope of one element declares exactly the prefixes of the URIs pushed for that element; besides,
      it may declare a default namespace and may repeat the binding of "xml". */
  ghost predicate LevelInv(uris: seq<string>, scope: map<string, string>, fixed: map<string, string>) {
    && (forall u :: u in uris ==> u in fixed && fixed[u] in scope)
    && (forall p :: p in scope && p != "" ==> OwnedBy(scope[p], p, uris, fixed))
  }

  ghost predicate OwnedBy(uri: string, p: string, uris: seq<string>, fixed: map<string, string>) {
    (p == XML_PREFIX && uri == XML_URI) || (uri in uris && uri in fixed && fixed[uri] == p)
  }

  ghost predicate ScopesInv(m: Mapper, scopes: seq<map<string, string>>) {
    && |scopes| == |m.stack|
    && (forall i :: 0 <= i < |scopes| ==> LevelInv(m.stack[i], scopes[i], m.Fixed()))
    && (m.prefixes.None? ==> forall i :: 0 <= i < |scopes| ==> XML_PREFIX !in scopes[i])
  }

  // ----- Looking a prefix up finds its URI

  lemma {:induction false} LookupFindsUri(stack: seq<seq<string>>, scopes: seq<map<string, string>>,
                                         fixed: map<string, string>, u: string)
    requires |scopes| == |stack| && Injective(fixed)
    requires forall v :: v in fixed ==> UsablePrefix(fixed[v])
    requires forall i :: 0 <= i < |scopes| ==> LevelInv(stack[i], scopes[i], fixed)
    requires u in Flatten(stack)
    ensures u in fixed && Lookup(scopes, fixed[u]) == Some(u)
  {
    var n := |stack| - 1;
    if u in stack[n] {
      assert LevelInv(stack[n], scopes[n], fixed);
    } else {
      LookupFindsUri(stack[..n], scopes[..n], fixed, u);
      assert fixed[u] in scopes[n] ==> OwnedBy(scopes[n][fixed[u]], fixed[u], stack[n], fixed);
    }
  }

  lemma {:induction false} LookupFindsXml(stack: seq<seq<string>>, scopes: seq<map<string, string>>,
                                         fixed: map<string, string>)
    requires |scopes| == |stack|
    requires forall v :: v in fixed ==> UsablePrefix(fixed[v])
    requires forall i :: 0 <= i < |scopes| ==> LevelInv(stack[i], scopes[i], fixed)
    ensures Lookup(scopes, XML_PREFIX) == Some(XML_URI)
  {
    if scopes != [] {
      var n := |stack| - 1;
      LookupFindsXml(stack[..n], scopes[..n], fixed);
      assert LevelInv(stack[n], scopes[n], fixed);
      if XML_PREFIX in scopes[n] {
        assert OwnedBy(scopes[n][XML_PREFIX], XML_PREFIX, stack[n], fixed);
      }
    }
  }

  /** Section 6.1: every URI in scope is what its prefix denotes to a reader. */
  lemma InScopeResolves(m: Mapper, scopes: seq<map<string, string>>, u: string)
    requires FixedInv(m) && StackInv(m) && ScopesInv(m, scopes) && u in m.InScope()
    ensures Lookup(scopes, m.InScope()[u]) == Some(u)
    ensures NCName(m.InScope()[u]) && m.InScope()[u] != XMLNS
  {
    XmlNamesAreNames();
    if u == XML_URI {
      LookupFindsXml(m.stack, scopes, m.Fixed());
    } else {
      assert u in Uris(Flatten(m.stack));
      LookupFindsUri(m.stack, scopes, m.Fixed(), u);
      assert UsablePrefix(m.Fixed()[u]);
    }
  }

  // ----- A URI that gets its prefix now

  lemma LowercaseIsName(s: string)
    requires s != "" && Lowercase(s)
    ensures NCName(s)
  {
  }

  lemma GeneratedIsUsable(c: nat, reserved: set<string>)
    requires XML_PREFIX in reserved && XMLNS in reserved
    ensures UsablePrefix(Numeral(NextFree(c, reserved)))
    ensures Value(Numeral(NextFree(c, reserved))) == NextFree(c, reserved)
    ensures Numeral(NextFree(c, reserved)) !in reserved
  {
    var k := NextFree(c, reserved);
    assert !Taken(k, reserved);
    NumeralIsLowercase(k);
    ValueOfNumeral(k);
    LowercaseIsName(Numeral(k));
  }

  /** Its prefix belongs to no other URI, though generated prefixes are not recorded as reserved. */
  lemma NewPrefixIsFree(m: Mapper, u: string)
    requires FixedInv(m) && StackInv(m) && u !in m.InScope()
    ensures UsablePrefix(m.PrefixOf(u))
    ensures forall v :: v in m.Fixed() && m.Fixed()[v] == m.PrefixOf(u) ==> v == u
    ensures u != XML_URI
  {
    if u !in m.Fixed() {
      GeneratedIsUsable(m.counter, m.Reserved());
    } else {
      assert UsablePrefix(m.Fixed()[u]);
    }
  }

  lemma GetPrefixKeepsFixed(m: Mapper, u: string)
    requires FixedInv(m) && StackInv(m)
    requires u in m.InScope() || m.stack != []
    ensures FixedInv(m.AfterGetPrefix(u))
  {
    if u !in m.InScope() {
      NewPrefixIsFree(m, u);
      if u !in m.Fixed() {
        GeneratedIsUsable(m.counter, m.Reserved());
      }
    }
  }

  lemma {:induction false} FlattenAppend(stack: seq<seq<string>>, u: string)
    requires stack != []
    ensures Flatten(stack[..|stack| - 1] + [stack[|stack| - 1] + [u]]) == Flatten(stack) + [u]
  {
    var n := |stack| - 1;
    var extended := stack[..n] + [stack[n] + [u]];
    assert extended[..n] == stack[..n];
    assert Flatten(extended) == Flatten(stack[..n]) + (stack[n] + [u]);
  }

  lemma GetPrefixKeepsStack(m: Mapper, u: string)
    requires StackInv(m)
    requires u in m.InScope() || m.stack != []
    ensures StackInv(m.AfterGetPrefix(u))
  {
    if u !in m.InScope() {
      FlattenAppend(m.stack, u);
      var flat := Flatten(m.stack);
      assert Uris(flat + [u]) == Uris(flat) + {u};
      assert u !in flat;
    }
  }

  lemma PopKeepsStack(m: Mapper)
    requires StackInv(m) && m.stack != []
    ensures StackInv(m.AfterPop())
  {
    var n := |m.stack| - 1;
    var below, top := Flatten(m.stack[..n]), m.stack[n];
    assert Flatten(m.stack) == below + top;
    assert forall i :: 0 <= i < |below| ==> (below + top)[i] == below[i];
    assert forall j :: 0 <= j < |top| ==> (below + top)[|below| + j] == top[j];
    assert forall u :: u in top ==> u !in below;
    assert Uris(below + top) == Uris(below) + Uris(top);
    if m.prefixes.None? {
      assert top in m.stack;
      assert forall v <- m.stack[..n] :: v in m.stack;
    }
  }

  lemma PushKeepsStack(m: Mapper)
    requires StackInv(m)
    ensures StackInv(m.AfterPush())
  {
  }

  // ----- Scopes follow the stack

  /** The bindings of a table are kept; others may be added. */
  ghost predicate Extends(after: map<string, string>, before: map<string, string>) {
    forall u :: u in before ==> u in after && after[u] == before[u]
  }

  lemma ExtendKeepsLevel(uris: seq<string>, scope: map<string, string>, before: map<string, string>,
                         after: map<string, string>)
    requires LevelInv(uris, scope, before) && Extends(after, before)
    ensures LevelInv(uris, scope, after)
  {
  }

  lemma PushKeepsScopes(m: Mapper, scopes: seq<map<string, string>>, scope: map<string, string>)
    requires ScopesInv(m, scopes) && forall p :: p in scope ==> p == ""
    ensures ScopesInv(m.AfterPush(), scopes + [scope])
  {
  }

  lemma PopKeepsScopes(m: Mapper, scopes: seq<map<string, string>>)
    requires ScopesInv(m, scopes) && m.stack != []
    ensures ScopesInv(m.AfterPop(), scopes[..|scopes| - 1])
  {
  }

  /** A URI not in scope has a prefix that the open start tag has not declared. */
  lemma NewPrefixIsUndeclared(m: Mapper, scope: map<string, string>, u: string)
    requires FixedInv(m) && StackInv(m) && m.stack != [] && u !in m.InScope()
    requires LevelInv(m.stack[|m.stack| - 1], scope, m.Fixed())
    ensures m.PrefixOf(u) !in scope
  {
    var p, top := m.PrefixOf(u), m.stack[|m.stack| - 1];
    NewPrefixIsFree(m, u);
    assert u !in Flatten(m.stack);
    assert p in scope ==> OwnedBy(scope[p], p, top, m.Fixed());
  }

  lemma DeclareKeepsLevel(uris: seq<string>, scope: map<string, string>, u: string, p: string,
                          before: map<string, string>, after: map<string, string>)
    requires LevelInv(uris, scope, before) && Extends(after, before)
    requires u in after && after[u] == p && p !in scope
    ensures LevelInv(uris + [u], scope[p := u], after)
  {
  }

  lemma DeclareKeepsScopes(m: Mapper, scopes: seq<map<string, string>>, u: string)
    requires FixedInv(m) && StackInv(m) && ScopesInv(m, scopes) && m.stack != [] && u !in m.InScope()
    ensures m.PrefixOf(u) !in scopes[|scopes| - 1]
    ensures ScopesInv(m.AfterGetPrefix(u), scopes[|scopes| - 1 := scopes[|scopes| - 1][m.PrefixOf(u) := u]])
  {
    var n, p, m' := |scopes| - 1, m.PrefixOf(u), m.AfterGetPrefix(u);
    NewPrefixIsUndeclared(m, scopes[n], u);
    assert Extends(m'.Fixed(), m.Fixed());
    forall i | 0 <= i <= n ensures LevelInv(m'.stack[i], scopes[n := scopes[n][p := u]][i], m'.Fixed()) {
      if i < n {
        ExtendKeepsLevel(m.stack[i], scopes[i], m.Fixed(), m'.Fixed());
      } else {
        DeclareKeepsLevel(m.stack[n], scopes[n], u, p, m.Fixed(), m'.Fixed());
      }
    }
  }

  /** The first use of the XML URI allocates the tables and repeats the binding of "xml" in the open tag. */
  lemma DeclareXmlKeepsScopes(m: Mapper, scopes: seq<map<string, string>>)
    requires ScopesInv(m, scopes) && m.stack != [] && m.prefixes.None?
    ensures XML_PREFIX !in scopes[|scopes| - 1]
    ensures ScopesInv(m.Allocated(), scopes[|scopes| - 1 := scopes[|scopes| - 1][XML_PREFIX := XML_URI]])
  {
  }

  /** What the writer relies on when it decides to declare: for any URI it considers unmapped, the prefix it
      is given may be declared in the open start tag, and the invariants hold with the declaration added. */
  lemma DeclarationIsLegal(m: Mapper, scopes: seq<map<string, string>>, u: string)
    requires FixedInv(m) && StackInv(m) && ScopesInv(m, scopes) && m.stack != []
    requires !m.IsMapped(u) && Declarable(u)
    ensures var p, n, m' := m.PrefixOf(u), |scopes| - 1, m.AfterGetPrefix(u);
      && MayDeclare(p, u) && NCName(p) && p !in scopes[n]
      && FixedInv(m') && StackInv(m') && ScopesInv(m', scopes[n := scopes[n][p := u]])
      && Extends(m'.InScope(), m.InScope()) && u in m'.InScope() && m'.InScope()[u] == p
  {
    GetPrefixKeepsFixed(m, u);
    GetPrefixKeepsStack(m, u);
    XmlNamesAreNames();
    if u in m.InScope() {
      DeclareXmlKeepsScopes(m, scopes);
    } else {
      NewPrefixIsFree(m, u);
      DeclareKeepsScopes(m, scopes, u);
    }
  }
}
