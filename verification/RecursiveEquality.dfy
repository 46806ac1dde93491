/** Recursive comparison of an acyclic graph with an arbitrary one. */
module RecursiveEquality {
  import opened Options
  import opened ObjectGraph
  import opened CycleDetection
  import NumericText
  import Matchers

  /** What user code decides: which objects are matchers and what they return, and gjstestEquals methods. */
  datatype Oracle = Oracle(
    isMatcher: Node -> bool,
    judge: (Node, Value) -> Matchers.Outcome,
    hasEquals: Node -> bool,
    equals: (Node, Value) -> bool)

  // ----- Keys and values

  function Keys(n: Node): set<string> {
    set i | 0 <= i < |n.slots| && n.slots[i].Prop? :: n.slots[i].key
  }

  /** Own property keys are unique. */
  ghost predicate UniqueKeys(n: Node) {
    forall i, j :: 0 <= i < j < |n.slots| && n.slots[i].Prop? && n.slots[j].Prop? ==> n.slots[i].key != n.slots[j].key
  }

  function Find(slots: seq<Slot>, key: string): (i: nat)
    requires exists s <- slots :: s.Prop? && s.key == key
    ensures i < |slots| && slots[i].Prop? && slots[i].key == key
  {
    if slots[0].Prop? && slots[0].key == key then 0 else 1 + Find(slots[1..], key)
  }

  function Get(n: Node, key: string): Value
    requires key in Keys(n)
  {
    n.slots[Find(n.slots, key)].value
  }

  lemma GetAt(n: Node, i: nat)
    requires UniqueKeys(n) && i < |n.slots| && n.slots[i].Prop?
    ensures n.slots[i].key in Keys(n) && Get(n, n.slots[i].key) == n.slots[i].value
  {
  }

  // ----- The tree a value unfolds to

  predicate IsMatcher(o: Oracle, v: Value) {
    v.Ref? && o.isMatcher(v.node)
  }

  /** Leaves agree if identical, or by the expected object's own method if the classes are the same. */
  predicate LeavesAgree(o: Oracle, l: Value, r: Value) {
    l == r ||
    (l.Ref? && r.Ref? && o.hasEquals(l.node) && l.node.ctor == r.node.ctor && o.equals(l.node, r))
  }

  /** What a matcher returns is compared loosely with true, so a message can be an acceptance. */
  predicate Accepted(o: Oracle, m: Node, v: Value) {
    Matchers.LooselyTrue(o.judge(m, v))
  }

  /** Agreement of an expected value with an actual one, not looking into their properties' values. */
  ghost predicate Alike(o: Oracle, l: Value, r: Value) {
    if IsMatcher(o, l) then Accepted(o, l.node, r)
    else if !IsPlain(l) then LeavesAgree(o, l, r)
    else r.Ref? && r.node.ctor == l.node.ctor && Keys(l.node) == Keys(r.node)
  }

  /** A value that is compared property by property. */
  predicate IsInner(o: Oracle, v: Value) {
    IsPlain(v) && !IsMatcher(o, v)
  }

  /** The value at the end of a path of keys. */
  ghost function At(v: Value, path: seq<string>): Option<Value>
    decreases path
  {
    if path == [] then Some(v)
    else if IsPlain(v) && path[0] in Keys(v.node) then At(Get(v.node, path[0]), path[1..])
    else None
  }

  /** The path goes only through properties that are compared; matchers are not looked into. */
  ghost predicate Compared(o: Oracle, v: Value, path: seq<string>)
    decreases path
  {
    path == [] || (IsInner(o, v) && path[0] in Keys(v.node) && Compared(o, Get(v.node, path[0]), path[1..]))
  }

  ghost predicate AgreeAt(o: Oracle, l: Value, r: Value, path: seq<string>) {
    At(l, path).Some? && At(r, path).Some? && Alike(o, At(l, path).value, At(r, path).value)
  }

  /** The two unfoldings agree in key sets, container kinds, and leaves or matchers, at every path. */
  ghost predicate SameTree(o: Oracle, l: Value, r: Value) {
    forall path :: Compared(o, l, path) ==> AgreeAt(o, l, r, path)
  }

  ghost predicate AgreeBelow(o: Oracle, l: Node, r: Node) {
    Keys(l) == Keys(r) && forall k <- Keys(l) :: SameTree(o, Get(l, k), Get(r, k))
  }

  lemma SameTreeAtChild(o: Oracle, l: Value, r: Value, k: string)
    requires SameTree(o, l, r) && IsInner(o, l) && k in Keys(l.node)
    ensures r.Ref? && k in Keys(r.node) && SameTree(o, Get(l.node, k), Get(r.node, k))
  {
    assert Compared(o, l, []);
    assert AgreeAt(o, l, r, []);
    forall path | Compared(o, Get(l.node, k), path)
      ensures AgreeAt(o, Get(l.node, k), Get(r.node, k), path)
    {
      assert ([k] + path)[1..] == path;
      assert Compared(o, l, [k] + path);
      assert AgreeAt(o, l, r, [k] + path);
    }
  }

  /** Agreement at every path is agreement here and agreement of the children. */
  lemma SameTreeUnfolds(o: Oracle, l: Value, r: Value)
    ensures SameTree(o, l, r) <==> Alike(o, l, r) && (IsInner(o, l) ==> AgreeBelow(o, l.node, r.node))
  {
    if SameTree(o, l, r) {
      assert Compared(o, l, []);
      assert AgreeAt(o, l, r, []);
      if IsInner(o, l) {
        forall k | k in Keys(l.node) ensures SameTree(o, Get(l.node, k), Get(r.node, k)) {
          SameTreeAtChild(o, l, r, k);
        }
      }
    }
    if Alike(o, l, r) && (IsInner(o, l) ==> AgreeBelow(o, l.node, r.node)) {
      forall path | Compared(o, l, path) ensures AgreeAt(o, l, r, path) {
        if path != [] {
          assert SameTree(o, Get(l.node, path[0]), Get(r.node, path[0]));
          assert AgreeAt(o, Get(l.node, path[0]), Get(r.node, path[0]), path[1..]);
        }
      }
    }
  }

  // ----- Termination: what lies below a node of an acyclic graph

  ghost predicate StrictlyBelow(n: Node, m: Node) {
    exists k: nat :: 0 < k && m in After(n, k)
  }

  ghost function Below(n: Node, graph: set<Node>): set<Node> {
    set m | m in graph && StrictlyBelow(n, m)
  }

  lemma BelowShrinks(n: Node, child: Node, graph: set<Node>)
    requires child in Children(n) && child in graph && !CycleReachable(n)
    ensures Below(child, graph) < Below(n, graph) && !CycleReachable(child)
  {
    if CycleReachable(child) {
      CycleBelow(n, child);
    }
    assert n in After(n, 0);
    assert child in After(n, 1);
    forall m <- Below(child, graph) ensures m in Below(n, graph) {
      var k: nat :| 0 < k && m in After(child, k);
      StepFirst(n, child, k, m);
    }
    if StrictlyBelow(child, child) {
      var k: nat :| 0 < k && child in After(child, k);
      assert child in After(child, 0);
      assert CycleWithin(child, 0, k);
    }
    assert child in Below(n, graph) && child !in Below(child, graph);
  }

  // ----- Comparison

  /** Where the first difference was found, as a path of keys. */
  datatype Comparison = Same | Differs(path: seq<string>)

  /** The reported difference is real: a key on one side only, or a value that does not agree. */
  ghost predicate DifferAt(o: Oracle, l: Value, r: Value, path: seq<string>) {
    (At(l, path).Some? || At(r, path).Some?) && !AgreeAt(o, l, r, path)
  }

  lemma DifferBelow(o: Oracle, l: Node, r: Node, key: string, rest: seq<string>)
    requires IsPlain(Ref(l)) && IsPlain(Ref(r)) && key in Keys(l) && key in Keys(r)
    requires DifferAt(o, Get(l, key), Get(r, key), rest)
    ensures DifferAt(o, Ref(l), Ref(r), [key] + rest)
  {
  }

  lemma DifferHere(o: Oracle, l: Node, r: Node, key: string)
    requires IsPlain(Ref(l)) && IsPlain(Ref(r))
    requires key in Keys(l) || key in Keys(r)
    requires key in Keys(l) && key in Keys(r) ==> !Alike(o, Get(l, key), Get(r, key))
    ensures DifferAt(o, Ref(l), Ref(r), [key])
  {
    assert [key][1..] == [];
    assert key in Keys(l) ==> At(Ref(l), [key]) == Some(Get(l, key));
    assert key in Keys(r) ==> At(Ref(r), [key]) == Some(Get(r, key));
  }

  lemma ChildOf(n: Node, i: nat)
    requires i < |n.slots| && IsChild(n.slots[i])
    ensures n.slots[i].value.node in Children(n)
  {
  }

  /** One key of the expected object. */
  method CompareProperty(o: Oracle, lhs: Node, rhs: Node, i: nat, ghost graph: set<Node>) returns (c: Comparison)
    requires lhs in graph && Closed(graph) && (forall n <- graph :: UniqueKeys(n)) && !CycleReachable(lhs)
    requires IsPlain(Ref(lhs)) && IsPlain(Ref(rhs)) && i < |lhs.slots| && lhs.slots[i].Prop?
    ensures c.Same? <==>
      var k := lhs.slots[i].key; k in Keys(rhs) && SameTree(o, Get(lhs, k), Get(rhs, k))
    ensures c.Differs? ==> DifferAt(o, Ref(lhs), Ref(rhs), c.path)
    decreases Below(lhs, graph), 0
  {
    var key, l := lhs.slots[i].key, lhs.slots[i].value;
    GetAt(lhs, i);
    if key !in Keys(rhs) {
      DifferHere(o, lhs, rhs, key);
      return Differs([key]);
    }
    var r := Get(rhs, key);
    SameTreeUnfolds(o, l, r);
    var agree :=
      if IsMatcher(o, l) then Accepted(o, l.node, r)
      else if !IsPlain(l) then LeavesAgree(o, l, r)
      else r.Ref? && r.node.ctor == l.node.ctor;
    if !agree {
      DifferHere(o, lhs, rhs, key);
      return Differs([key]);
    }
    if !IsInner(o, l) {
      return Same;
    }
    ChildOf(lhs, i);
    BelowShrinks(lhs, l.node, graph);
    c := CompareRecursively(o, l.node, r.node, graph);
    if c.Differs? {
      DifferBelow(o, lhs, rhs, key, c.path);
      c := Differs([key] + c.path);
    }
  }

  /** Returns no difference exactly when the unfoldings agree below the two roots. */
  method CompareRecursively(o: Oracle, lhs: Node, rhs: Node, ghost graph: set<Node>) returns (c: Comparison)
    requires lhs in graph && Closed(graph) && (forall n <- graph :: UniqueKeys(n)) && !CycleReachable(lhs)
    requires IsPlain(Ref(lhs)) && IsPlain(Ref(rhs))
    ensures c.Same? <==> AgreeBelow(o, lhs, rhs)
    ensures c.Differs? ==> DifferAt(o, Ref(lhs), Ref(rhs), c.path)
    decreases Below(lhs, graph), 1
  {
    var i := 0;
    while i < |lhs.slots|
      invariant 0 <= i <= |lhs.slots|
      invariant forall j :: 0 <= j < i && lhs.slots[j].Prop? ==>
        var k := lhs.slots[j].key; k in Keys(lhs) && k in Keys(rhs) && SameTree(o, Get(lhs, k), Get(rhs, k))
    {
      if lhs.slots[i].Prop? {
        GetAt(lhs, i);
        c := CompareProperty(o, lhs, rhs, i, graph);
        if c.Differs? {
          return;
        }
      }
      i := i + 1;
    }
    i := 0;
    while i < |rhs.slots|
      invariant 0 <= i <= |rhs.slots|
      invariant forall j :: 0 <= j < i && rhs.slots[j].Prop? ==> rhs.slots[j].key in Keys(lhs)
    {
      if rhs.slots[i].Prop? && rhs.slots[i].key !in Keys(lhs) {
        assert rhs.slots[i].key in Keys(rhs);
        DifferHere(o, lhs, rhs, rhs.slots[i].key);
        return Differs([rhs.slots[i].key]);
      }
      i := i + 1;
    }
    c := Same;
  }

  datatype Verdict = NotAContainer | NotATree | Matches(result: bool)

  /** The matcher recursivelyEquals(expected) applied to a value: it never loops, whatever the actual value. */
  method RecursivelyEquals(o: Oracle, expected: Value, actual: Value, ghost graph: set<Node>) returns (v: Verdict)
    requires Closed(graph) && (expected.Ref? ==> expected.node in graph)
    requires forall n <- graph :: UniqueKeys(n) && !n.seen && (o.isMatcher(n) ==> n.ctor.ClassCtor?)
    modifies graph`seen
    ensures forall n <- graph :: !n.seen
    ensures v.NotAContainer? <==> !IsPlain(expected)
    ensures v.NotATree? <==> IsPlain(expected) && CycleReachable(expected.node)
    ensures v.Matches? ==> (v.result <==> SameTree(o, expected, actual))
  {
    if !IsPlain(expected) {
      return NotAContainer;
    }
    var cyclic := ContainsCycle(expected.node, graph);
    if cyclic {
      return NotATree;
    }
    SameTreeUnfolds(o, expected, actual);
    if !(actual.Ref? && actual.node.ctor == expected.node.ctor) {
      return Matches(false);
    }
    var c := CompareRecursively(o, expected.node, actual.node, graph);
    v := Matches(c.Same?);
  }

  // ----- What agreement asks of each pair of values

  predicate IsContainer(v: Value) {
    v.Ref? && (v.node.ctor == ObjectCtor || v.node.ctor == ArrayCtor)
  }

  /** A matcher gives true or a message that is numerically one; otherwise containers are of one kind with the same
      keys, and anything else is identical or, of one class, equal by the expected object's own method. */
  ghost predicate PairAgrees(o: Oracle, a: Value, b: Value) {
    if a.Ref? && o.isMatcher(a.node) then
      var outcome := o.judge(a.node, b);
      outcome.True? || (outcome.Message? && NumericText.EqualsTrue(outcome.text))
    else if IsContainer(a) then IsContainer(b) && b.node.ctor == a.node.ctor && Keys(b.node) == Keys(a.node)
    else if a.Primitive? || !o.hasEquals(a.node) then b == a
    else b == a || (b.Ref? && b.node.ctor == a.node.ctor && o.equals(a.node, b))
  }

  /** A key of a container leads to the value of that property. */
  ghost predicate Leads(o: Oracle, v: Value, path: seq<string>, end: Value)
    decreases path
  {
    if path == [] then v == end
    else
      IsContainer(v) && !o.isMatcher(v.node)
      && exists i :: 0 <= i < |v.node.slots| && v.node.slots[i].Prop? && v.node.slots[i].key == path[0]
                     && Leads(o, v.node.slots[i].value, path[1..], end)
  }

  lemma {:induction false} ComparedLeads(o: Oracle, v: Value, path: seq<string>)
    requires Compared(o, v, path)
    ensures At(v, path).Some? && Leads(o, v, path, At(v, path).value)
    decreases path
  {
    if path != [] {
      var i := Find(v.node.slots, path[0]);
      ComparedLeads(o, v.node.slots[i].value, path[1..]);
    }
  }

  lemma {:induction false} LeadsIsCompared(o: Oracle, v: Value, path: seq<string>, end: Value, graph: set<Node>)
    requires Closed(graph) && (forall n <- graph :: UniqueKeys(n)) && (IsContainer(v) ==> v.node in graph)
    requires Leads(o, v, path, end)
    ensures Compared(o, v, path) && At(v, path) == Some(end)
    decreases path
  {
    if path != [] {
      var i :| 0 <= i < |v.node.slots| && v.node.slots[i].Prop? && v.node.slots[i].key == path[0]
               && Leads(o, v.node.slots[i].value, path[1..], end);
      GetAt(v.node, i);
      if IsContainer(v.node.slots[i].value) {
        ChildOf(v.node, i);
      }
      LeadsIsCompared(o, v.node.slots[i].value, path[1..], end, graph);
    }
  }

  /** Exactly the values that property names lead to, through containers that are no matchers, are compared. */
  lemma ComparedIffLeads(o: Oracle, v: Value, path: seq<string>, end: Value, graph: set<Node>)
    requires Closed(graph) && (forall n <- graph :: UniqueKeys(n)) && (IsContainer(v) ==> v.node in graph)
    ensures Leads(o, v, path, end) <==> Compared(o, v, path) && At(v, path) == Some(end)
  {
    if Leads(o, v, path, end) {
      LeadsIsCompared(o, v, path, end, graph);
    }
    if Compared(o, v, path) {
      ComparedLeads(o, v, path);
    }
  }

  lemma AlikeIsPairAgrees(o: Oracle, a: Value, b: Value)
    ensures Alike(o, a, b) <==> PairAgrees(o, a, b)
  {
  }

  ghost predicate PairAgreesAt(o: Oracle, l: Value, r: Value, path: seq<string>) {
    At(l, path).Some? && At(r, path).Some? && PairAgrees(o, At(l, path).value, At(r, path).value)
  }

  /** At every pair of values that one path leads to. */
  lemma AgreementIsPairwise(o: Oracle, l: Value, r: Value)
    ensures SameTree(o, l, r) <==> forall path :: Compared(o, l, path) ==> PairAgreesAt(o, l, r, path)
  {
    forall path ensures AgreeAt(o, l, r, path) <==> PairAgreesAt(o, l, r, path) {
      if At(l, path).Some? && At(r, path).Some? {
        AlikeIsPairAgrees(o, At(l, path).value, At(r, path).value);
      }
    }
  }

  /** A reported difference is a value on one side only, or a pair that does not agree. */
  lemma DifferenceIsReal(o: Oracle, l: Value, r: Value, path: seq<string>)
    requires DifferAt(o, l, r, path)
    ensures At(l, path).None? != At(r, path).None? || (At(l, path).Some? && !PairAgreesAt(o, l, r, path))
  {
    if At(l, path).Some? && At(r, path).Some? {
      AlikeIsPairAgrees(o, At(l, path).value, At(r, path).value);
    }
  }

  /** Neither matchers nor gjstestEquals methods anywhere in the unfolding. */
  ghost predicate PlainData(o: Oracle, v: Value) {
    forall path :: Compared(o, v, path) && At(v, path).Some? && At(v, path).value.Ref? ==>
      !o.isMatcher(At(v, path).value.node) && !o.hasEquals(At(v, path).value.node)
  }

  /** Containers of one kind with the same keys, or one value. */
  ghost predicate SameHere(a: Value, b: Value) {
    if IsContainer(a) then b.Ref? && b.node.ctor == a.node.ctor && Keys(b.node) == Keys(a.node) else b == a
  }

  ghost predicate SameAt(l: Value, r: Value, path: seq<string>) {
    At(l, path).Some? && At(r, path).Some? && SameHere(At(l, path).value, At(r, path).value)
  }

  /** Plain data agree exactly if at every path they have the same keys or the same leaf. */
  lemma PlainDataAgreeIff(o: Oracle, l: Value, r: Value)
    requires PlainData(o, l)
    ensures SameTree(o, l, r) <==> forall path :: Compared(o, l, path) ==> SameAt(l, r, path)
  {
    AgreementIsPairwise(o, l, r);
    forall path | Compared(o, l, path) ensures PairAgreesAt(o, l, r, path) <==> SameAt(l, r, path) {
    }
  }

  /** { a: x } and { a: y } agree exactly if x and y are one primitive value. */
  lemma PrimitivesDiffer(o: Oracle, l: Node, r: Node, x: int, y: int)
    requires l.ctor == r.ctor == ObjectCtor && !o.isMatcher(l)
    requires l.slots == [Prop("a", Primitive(x))] && r.slots == [Prop("a", Primitive(y))]
    ensures SameTree(o, Ref(l), Ref(r)) <==> x == y
  {
    GetAt(l, 0);
    GetAt(r, 0);
    SameTreeUnfolds(o, Ref(l), Ref(r));
    SameTreeUnfolds(o, Primitive(x), Primitive(y));
  }

  // ----- Messages read as acceptance

  /** The same matchers, with only true read as acceptance. */
  function Strict(o: Oracle): Oracle {
    o.(judge := (n: Node, v: Value) => if o.judge(n, v).True? then Matchers.True else Matchers.False)
  }

  /** A matcher on the way rejects with a message that is numerically one. */
  ghost predicate CoercedAt(o: Oracle, l: Value, r: Value, path: seq<string>) {
    && Compared(o, l, path) && At(l, path).Some? && At(r, path).Some? && IsMatcher(o, At(l, path).value)
    && var outcome := o.judge(At(l, path).value.node, At(r, path).value);
       outcome.Message? && NumericText.EqualsTrue(outcome.text)
  }

  lemma {:induction false} StrictPaths(o: Oracle, l: Value, path: seq<string>)
    ensures Compared(Strict(o), l, path) <==> Compared(o, l, path)
    decreases path
  {
    if path != [] && IsInner(o, l) && path[0] in Keys(l.node) {
      StrictPaths(o, Get(l.node, path[0]), path[1..]);
    }
  }

  lemma StrictAt(o: Oracle, l: Value, r: Value, path: seq<string>)
    requires Compared(o, l, path)
    ensures AgreeAt(Strict(o), l, r, path) <==> AgreeAt(o, l, r, path) && !CoercedAt(o, l, r, path)
  {
  }

  /** The comparison is the strict one exactly as long as no matcher on the way rejects with such a message. */
  lemma StrictIffNotCoerced(o: Oracle, l: Value, r: Value)
    ensures SameTree(Strict(o), l, r) <==> SameTree(o, l, r) && forall path :: !CoercedAt(o, l, r, path)
  {
    forall path ensures Compared(Strict(o), l, path) <==> Compared(o, l, path) {
      StrictPaths(o, l, path);
    }
    forall path | Compared(o, l, path)
      ensures AgreeAt(Strict(o), l, r, path) <==> AgreeAt(o, l, r, path) && !CoercedAt(o, l, r, path)
    {
      StrictAt(o, l, r, path);
    }
  }

  /** { x: m } equals { x: v } recursively although m rejects v, with the message '1'. */
  lemma CoercedPropertyAgrees(o: Oracle, lhs: Node, rhs: Node, m: Node, v: Value)
    requires lhs.ctor == rhs.ctor == ObjectCtor && lhs.slots == [Prop("x", Ref(m))] && rhs.slots == [Prop("x", v)]
    requires o.isMatcher(m) && !o.isMatcher(lhs) && o.judge(m, v) == Matchers.Message("1")
    ensures SameTree(o, Ref(lhs), Ref(rhs)) && !SameTree(Strict(o), Ref(lhs), Ref(rhs))
  {
    var one := NumericText.OneIsTrue();
    GetAt(lhs, 0);
    GetAt(rhs, 0);
    SameTreeUnfolds(o, Ref(m), v);
    SameTreeUnfolds(o, Ref(lhs), Ref(rhs));
    SameTreeUnfolds(Strict(o), Ref(m), v);
    SameTreeUnfolds(Strict(o), Ref(lhs), Ref(rhs));
  }

  // ----- Laws of agreement

  /** No matchers anywhere in the unfolding. */
  ghost predicate MatcherFree(o: Oracle, v: Value) {
    forall path :: Compared(o, v, path) ==> At(v, path).Some? && !IsMatcher(o, At(v, path).value)
  }

  lemma MatcherFreeChild(o: Oracle, v: Value, k: string)
    requires MatcherFree(o, v) && IsInner(o, v) && k in Keys(v.node)
    ensures MatcherFree(o, Get(v.node, k))
  {
    forall path | Compared(o, Get(v.node, k), path)
      ensures At(Get(v.node, k), path).Some? && !IsMatcher(o, At(Get(v.node, k), path).value)
    {
      assert ([k] + path)[1..] == path;
      assert Compared(o, v, [k] + path);
    }
  }

  /** A child of a node is the value of one of its keys. */
  lemma ChildHasKey(n: Node, child: Node) returns (key: string)
    requires UniqueKeys(n) && child in Children(n)
    ensures key in Keys(n) && Get(n, key) == Ref(child) && IsPlain(Ref(child))
  {
    var i :| 0 <= i < |n.slots| && IsChild(n.slots[i]) && n.slots[i].value.node == child;
    GetAt(n, i);
    key := n.slots[i].key;
  }

  /** Agreement with an acyclic, matcher-free value shows that the actual value is acyclic too. */
  lemma {:induction false} AgreementShowsAcyclic(o: Oracle, l: Node, r: Node, lhsGraph: set<Node>, rhsGraph: set<Node>)
    requires l in lhsGraph && Closed(lhsGraph) && (forall n <- lhsGraph :: UniqueKeys(n)) && !CycleReachable(l)
    requires r in rhsGraph && Closed(rhsGraph) && (forall n <- rhsGraph :: UniqueKeys(n))
    requires IsPlain(Ref(l)) && MatcherFree(o, Ref(l)) && SameTree(o, Ref(l), Ref(r))
    ensures !CycleReachable(r)
    decreases Below(l, lhsGraph)
  {
    if CycleReachable(r) {
      var child := CycleInSomeChild(r);
      var key := ChildHasKey(r, child);
      assert Compared(o, Ref(l), []);
      assert AgreeAt(o, Ref(l), Ref(r), []);
      SameTreeAtChild(o, Ref(l), Ref(r), key);
      MatcherFreeChild(o, Ref(l), key);
      var v := Get(l, key);
      assert Compared(o, v, []);
      assert AgreeAt(o, v, Ref(child), []);
      var i := Find(l.slots, key);
      ChildOf(l, i);
      BelowShrinks(l, v.node, lhsGraph);
      AgreementShowsAcyclic(o, v.node, child, lhsGraph, rhsGraph);
    }
  }

  /** Values that agree are compared along the same paths. */
  lemma {:induction false} SamePaths(o: Oracle, l: Value, r: Value, path: seq<string>)
    requires MatcherFree(o, l) && MatcherFree(o, r) && SameTree(o, l, r)
    ensures Compared(o, l, path) <==> Compared(o, r, path)
    decreases path
  {
    assert Compared(o, l, []) && Compared(o, r, []);
    assert AgreeAt(o, l, r, []);
    if path != [] && IsInner(o, l) && path[0] in Keys(l.node) {
      var k := path[0];
      SameTreeAtChild(o, l, r, k);
      MatcherFreeChild(o, l, k);
      MatcherFreeChild(o, r, k);
      SamePaths(o, Get(l.node, k), Get(r.node, k), path[1..]);
    }
  }

  lemma SameTreeSymmetric(o: Oracle, l: Value, r: Value)
    requires forall a: Value, b: Value :: LeavesAgree(o, a, b) ==> LeavesAgree(o, b, a)
    requires MatcherFree(o, l) && MatcherFree(o, r) && SameTree(o, l, r)
    ensures SameTree(o, r, l)
  {
    forall path | Compared(o, r, path) ensures AgreeAt(o, r, l, path) {
      SamePaths(o, l, r, path);
      assert AgreeAt(o, l, r, path);
      assert LeavesAgree(o, At(l, path).value, At(r, path).value) ==> LeavesAgree(o, At(r, path).value, At(l, path).value);
    }
  }

  lemma SameTreeTransitive(o: Oracle, a: Value, b: Value, c: Value)
    requires forall x: Value, y: Value, z: Value ::
      LeavesAgree(o, x, y) && LeavesAgree(o, y, z) ==> LeavesAgree(o, x, z)
    requires MatcherFree(o, a) && MatcherFree(o, b) && SameTree(o, a, b) && SameTree(o, b, c)
    ensures SameTree(o, a, c)
  {
    forall path | Compared(o, a, path) ensures AgreeAt(o, a, c, path) {
      SamePaths(o, a, b, path);
      assert AgreeAt(o, a, b, path) && AgreeAt(o, b, c, path);
      assert LeavesAgree(o, At(a, path).value, At(b, path).value) && LeavesAgree(o, At(b, path).value, At(c, path).value)
             ==> LeavesAgree(o, At(a, path).value, At(c, path).value);
    }
  }

  /** On matcher-free values agreement is an equivalence relation whenever agreement of leaves is. */
  lemma SameTreeIsEquivalence(o: Oracle, a: Value, b: Value, c: Value)
    requires forall x: Value, y: Value :: LeavesAgree(o, x, y) ==> LeavesAgree(o, y, x)
    requires forall x: Value, y: Value, z: Value ::
      LeavesAgree(o, x, y) && LeavesAgree(o, y, z) ==> LeavesAgree(o, x, z)
    requires MatcherFree(o, a) && MatcherFree(o, b)
    ensures SameTree(o, a, a)
    ensures SameTree(o, a, b) <==> SameTree(o, b, a)
    ensures SameTree(o, a, b) && SameTree(o, b, c) ==> SameTree(o, a, c)
  {
    if SameTree(o, a, b) {
      SameTreeSymmetric(o, a, b);
    }
    if SameTree(o, b, a) {
      SameTreeSymmetric(o, b, a);
    }
    if SameTree(o, a, b) && SameTree(o, b, c) {
      SameTreeTransitive(o, a, b, c);
    }
  }
}
