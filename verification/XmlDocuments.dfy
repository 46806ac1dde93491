/** Whole documents: bindings first, then any calls the writer lets through. */
module XmlDocuments {
  import opened Options
  import opened PrefixNumeral
  import opened PrefixMapping
  import opened NamespaceReader
  import opened XmlWriting
  import opened PrefixInvariants
  import opened NamespaceRoundTrip

  type Binding = (string, string)

  // ----- Runs

  ghost function Run(w: Writer, ops: seq<Op>): (end: Option<Writer>)
    requires w.WellFormed()
    ensures end.Some? ==> end.value.WellFormed()
  {
    if ops == [] then Some(w)
    else
      var n := |ops| - 1;
      var before := Run(w, ops[..n]);
      if before.None? || !Allowed(before.value, ops[n]) then None else Some(Step(before.value, ops[n]))
  }

  function Intended(ops: seq<Op>): Intent {
    if ops == [] then Intent([], [], {}) else Intend(Intended(ops[..|ops| - 1]), ops[|ops| - 1])
  }

  lemma RunOne(w: Writer, ops: seq<Op>, op: Op)
    requires w.WellFormed() && Run(w, ops).Some? && Allowed(Run(w, ops).value, op)
    ensures Run(w, ops + [op]) == Some(Step(Run(w, ops).value, op))
  {
  }

  lemma IntendOne(ops: seq<Op>, op: Op)
    ensures Intended(ops + [op]) == Intend(Intended(ops), op)
  {
  }

  function Bind(binds: seq<Binding>): (m: Mapper)
    ensures m.WellFormed() && m.stack == [] && m.counter == 0
  {
    if binds == [] then Fresh
    else
      var b := binds[|binds| - 1];
      Bind(binds[..|binds| - 1]).AfterAssociate(b.0, b.1)
  }

  function Opened(binds: seq<Binding>): (w: Writer)
    ensures w.WellFormed()
  {
    Writer(Bind(binds), false, [])
  }

  /** A later binding of the same URI replaces the earlier one. */
  function BindingTable(binds: seq<Binding>): map<string, string> {
    if binds == [] then map[]
    else BindingTable(binds[..|binds| - 1])[binds[|binds| - 1].0 := binds[|binds| - 1].1]
  }

  /** The writer aborts when the XML URI is bound, and checks nothing else. */
  predicate Unrefused(binds: seq<Binding>) {
    forall b <- binds :: b.0 != XML_URI
  }

  /** The bindings in force give different URIs different prefixes, all fit for a tag. */
  ghost predicate UsableBindings(binds: seq<Binding>) {
    Injective(BindingTable(binds)) && forall u :: u in BindingTable(binds) ==> UsablePrefix(BindingTable(binds)[u])
  }

  ghost predicate RoundTrips(binds: seq<Binding>, ops: seq<Op>) {
    var end := Run(Opened(binds), ops);
    end.Some? ==>
      var items := Read(end.value.events);
      items.Some? && ConveysAll(items.value, Intended(ops).meanings)
  }

  /** Every call asks for something that XML can say. */
  predicate ProperCalls(ops: seq<Op>) {
    ops == [] || (ProperCalls(ops[..|ops| - 1]) && Proper(Intended(ops[..|ops| - 1]), ops[|ops| - 1]))
  }

  predicate Starts(op: Op) {
    op.StartElement? || op.StartElementDefaultNamespace?
  }

  predicate SomeElement(ops: seq<Op>) {
    exists op <- ops :: Starts(op)
  }

  /** Proper calls that write a document element. */
  predicate ProperDocument(ops: seq<Op>) {
    ProperCalls(ops) && SomeElement(ops)
  }

  // ----- The theorem

  lemma {:induction false} BindRecords(binds: seq<Binding>)
    requires Unrefused(binds)
    ensures Bind(binds).Fixed() == BindingTable(binds) && XML_URI !in BindingTable(binds)
    ensures Bind(binds).InScope() == map[XML_URI := XML_PREFIX]
  {
    if binds != [] {
      assert binds[|binds| - 1] in binds;
      assert forall a <- binds[..|binds| - 1] :: a in binds;
      BindRecords(binds[..|binds| - 1]);
    }
  }

  lemma {:induction false} BindReserves(binds: seq<Binding>)
    ensures forall u :: u in BindingTable(binds) ==> BindingTable(binds)[u] in Bind(binds).Reserved()
    ensures |Bind(binds).Reserved()| <= |binds| + 2
  {
    if binds == [] {
      assert Bind(binds).Reserved() == {XML_PREFIX, XMLNS};
    } else {
      var front, b := binds[..|binds| - 1], binds[|binds| - 1];
      BindReserves(front);
      assert Bind(binds).Reserved() == Bind(front).Reserved() + {b.1};
    }
  }

  lemma OpenedInv(binds: seq<Binding>)
    requires Unrefused(binds) && UsableBindings(binds)
    ensures Inv(Opened(binds), Start, Intent([], [], {}))
  {
    BindRecords(binds);
    BindReserves(binds);
    var m := Bind(binds);
    assert FixedInv(m);
    assert StackInv(m);
    assert ScopesInv(m, []);
    assert Start.AllScopes() == [];
  }

  lemma {:induction false} RunKeepsInv(binds: seq<Binding>, ops: seq<Op>) returns (r: Reader)
    requires Unrefused(binds) && UsableBindings(binds) && ProperCalls(ops)
    requires Run(Opened(binds), ops).Some?
    ensures Inv(Run(Opened(binds), ops).value, r, Intended(ops))
  {
    if ops == [] {
      OpenedInv(binds);
      r := Start;
    } else {
      var front, op := ops[..|ops| - 1], ops[|ops| - 1];
      var before := RunKeepsInv(binds, front);
      r := StepKeepsInv(Run(Opened(binds), front).value, before, Intended(front), op);
    }
  }

  lemma IntendMeans(i: Intent, op: Op)
    ensures Intend(i, op).meanings == [] <==> i.meanings == [] && !Starts(op) && !op.AddAttribute? && !op.Data?
    ensures Intend(i, op).defaults != [] ==> i.defaults != [] || Starts(op)
  {
  }

  lemma StepOpens(w: Writer, op: Op)
    requires w.WellFormed() && Allowed(w, op)
    ensures Step(w, op).canAddAttributes ==> w.canAddAttributes || Starts(op)
  {
  }

  lemma SomeElementNext(front: seq<Op>, op: Op)
    ensures SomeElement(front + [op]) <==> SomeElement(front) || Starts(op)
  {
    assert op in front + [op];
    assert forall x <- front :: x in front + [op];
  }

  /** Nothing is meant, no element is open and no attribute is let through until an element has been started. */
  lemma {:induction false} MeantIffStarted(binds: seq<Binding>, ops: seq<Op>)
    requires Run(Opened(binds), ops).Some? && ProperCalls(ops)
    ensures Intended(ops).meanings != [] <==> SomeElement(ops)
    ensures Run(Opened(binds), ops).value.canAddAttributes || Intended(ops).defaults != [] ==> SomeElement(ops)
  {
    if ops != [] {
      var front, op := ops[..|ops| - 1], ops[|ops| - 1];
      MeantIffStarted(binds, front);
      assert ops == front + [op];
      SomeElementNext(front, op);
      IntendMeans(Intended(front), op);
      StepOpens(Run(Opened(binds), front).value, op);
    }
  }

  /** In every run that the writer lets through, a reader following section 6.1 of Namespaces in XML 1.0 finds
      the document well-formed and gets exactly the URIs, names, values and texts the caller passed. */
  lemma NamespacesRoundTrip(binds: seq<Binding>, ops: seq<Op>)
    requires Unrefused(binds) && UsableBindings(binds) && ProperDocument(ops)
    ensures RoundTrips(binds, ops)
  {
    if Run(Opened(binds), ops).Some? {
      var w := Run(Opened(binds), ops).value;
      var r := RunKeepsInv(binds, ops);
      CloseConveys(w.mapper, r, Intended(ops));
      MeantIffStarted(binds, ops);
    }
  }

  /** A document without an element is none. */
  lemma NoElementNoDocument(binds: seq<Binding>, ops: seq<Op>)
    requires Unrefused(binds) && UsableBindings(binds) && ProperCalls(ops) && !SomeElement(ops)
    requires Run(Opened(binds), ops).Some?
    ensures Read(Run(Opened(binds), ops).value.events).None?
  {
    var w := Run(Opened(binds), ops).value;
    var r := RunKeepsInv(binds, ops);
    CloseConveys(w.mapper, r, Intended(ops));
    MeantIffStarted(binds, ops);
  }

  // ----- Which calls are let through, from the calls alone

  function OpenElements(ops: seq<Op>): int {
    if ops == [] then 0
    else
      var n := |ops| - 1;
      OpenElements(ops[..n]) + if Starts(ops[n]) then 1 else if ops[n].EndElement? then -1 else 0
  }

  /** Nothing but attributes and declarations since an element was started. */
  predicate InStartTag(ops: seq<Op>) {
    ops != [] &&
    var n := |ops| - 1;
    Starts(ops[n]) || ((ops[n].AddAttribute? || ops[n].DeclareNamespaceURI?) && InStartTag(ops[..n]))
  }

  /** No element is ended that was not started, and attributes, declarations and text with a URI are in a start tag. */
  predicate LetThrough(ops: seq<Op>) {
    ops == [] ||
    var front, op := ops[..|ops| - 1], ops[|ops| - 1];
    LetThrough(front) &&
    match op
    case EndElement => 0 < OpenElements(front)
    case DeclareNamespaceURI(_) => InStartTag(front)
    case AddAttribute(_, _, _) => InStartTag(front)
    case Data(_, uri) => uri.Some? ==> InStartTag(front)
    case _ => true
  }

  ghost predicate Tracks(w: Writer, ops: seq<Op>) {
    |w.mapper.stack| == OpenElements(ops) && (w.canAddAttributes <==> InStartTag(ops))
  }

  lemma StepTracks(w: Writer, ops: seq<Op>, op: Op)
    requires w.WellFormed() && Allowed(w, op) && Tracks(w, ops)
    ensures Tracks(Step(w, op), ops + [op])
  {
    assert (ops + [op])[..|ops|] == ops;
  }

  lemma {:induction false} RunTracks(binds: seq<Binding>, ops: seq<Op>)
    ensures Run(Opened(binds), ops).Some? <==> LetThrough(ops)
    ensures Run(Opened(binds), ops).Some? ==> Tracks(Run(Opened(binds), ops).value, ops)
  {
    if ops != [] {
      var front, op := ops[..|ops| - 1], ops[|ops| - 1];
      RunTracks(binds, front);
      if Run(Opened(binds), ops).Some? {
        StepTracks(Run(Opened(binds), front).value, front, op);
        assert front + [op] == ops;
      }
    }
  }

  /** Whatever the bindings, these are the calls the writer lets through. */
  lemma RunIffLetThrough(binds: seq<Binding>, ops: seq<Op>)
    ensures Run(Opened(binds), ops).Some? <==> LetThrough(ops)
  {
    RunTracks(binds, ops);
  }

  // ----- Comments

  function CommentsIn(events: seq<Event>): seq<string> {
    if events == [] then []
    else
      var n := |events| - 1;
      CommentsIn(events[..n]) + if events[n].Comment? then [events[n].content] else []
  }

  function CommentsOf(ops: seq<Op>): seq<string> {
    if ops == [] then []
    else
      var n := |ops| - 1;
      CommentsOf(ops[..n]) + if ops[n].WriteComment? then [ops[n].comment] else []
  }

  lemma OneMoreEvent(events: seq<Event>, e: Event)
    ensures CommentsIn(events + [e]) == CommentsIn(events) + if e.Comment? then [e.content] else []
  {
    assert (events + [e])[..|events|] == events;
  }

  lemma {:induction false} NoComments(events: seq<Event>, es: seq<Event>)
    requires forall e <- es :: !e.Comment?
    ensures CommentsIn(events + es) == CommentsIn(events)
    decreases |es|
  {
    if es == [] {
      assert events + es == events;
    } else {
      var n := |es| - 1;
      assert events + es == events + es[..n] + [es[n]];
      assert forall e <- es[..n] :: e in es;
      NoComments(events, es[..n]);
      OneMoreEvent(events + es[..n], es[n]);
    }
  }

  lemma DeclareWritesNoComment(w: Writer, uri: string)
    requires w.mapper.stack != []
    ensures CommentsIn(w.AfterDeclare(uri).events) == CommentsIn(w.events)
  {
    if !w.mapper.IsMapped(uri) {
      NoComments(w.events, WriteAttributeNS(XMLNS, w.mapper.PrefixOf(uri), uri));
    }
  }

  lemma StepWritesComment(w: Writer, op: Op)
    requires w.WellFormed() && Allowed(w, op)
    ensures CommentsIn(Step(w, op).events) == CommentsIn(w.events) + if op.WriteComment? then [op.comment] else []
  {
    match op
    case StartElement(name, uri) =>
      var m := w.mapper.AfterPush();
      if uri.None? {
        NoComments(w.events, StartElementNS("", name, None));
      } else {
        NoComments(w.events, StartElementNS(m.PrefixOf(uri.value), name, if m.IsMapped(uri.value) then None else uri));
      }
    case StartElementDefaultNamespace(name, uri) => NoComments(w.events, StartElementNS("", name, Some(uri)));
    case EndElement => OneMoreEvent(w.events, EndTag);
    case DeclareNamespaceURI(uri) => DeclareWritesNoComment(w, uri);
    case AddAttribute(name, uri, value) =>
      if uri.None? {
        NoComments(w.events, WriteAttributeNS("", name, value));
      } else {
        var declared := w.AfterDeclare(uri.value);
        DeclareWritesNoComment(w, uri.value);
        NoComments(declared.events, WriteAttributeNS(declared.mapper.PrefixOf(uri.value), name, value));
      }
    case Data(text, uri) =>
      if uri.None? {
        OneMoreEvent(w.events, Event.Text(text));
      } else {
        var declared := w.AfterDeclare(uri.value);
        DeclareWritesNoComment(w, uri.value);
        OneMoreEvent(declared.events, Event.Text(Qualify(declared.mapper.PrefixOf(uri.value), text)));
      }
    case WriteComment(comment) => OneMoreEvent(w.events, Comment(comment));
  }

  /** The comments of the document are those of the calls, in order. */
  lemma {:induction false} RunKeepsComments(binds: seq<Binding>, ops: seq<Op>)
    requires Run(Opened(binds), ops).Some?
    ensures CommentsIn(Run(Opened(binds), ops).value.events) == CommentsOf(ops)
  {
    if ops != [] {
      var front := ops[..|ops| - 1];
      RunKeepsComments(binds, front);
      StepWritesComment(Run(Opened(binds), front).value, ops[|ops| - 1]);
    }
  }

  // ----- Prefixes over a document

  ghost predicate TableInv(m: Mapper) {
    FixedInv(m) && StackInv(m)
  }

  lemma GetPrefixKeepsTable(m: Mapper, u: string)
    requires TableInv(m) && (u in m.InScope() || m.stack != [])
    ensures TableInv(m.AfterGetPrefix(u)) && Extends(m.AfterGetPrefix(u).Fixed(), m.Fixed())
  {
    GetPrefixKeepsFixed(m, u);
    GetPrefixKeepsStack(m, u);
  }

  lemma PushKeepsTable(m: Mapper)
    requires TableInv(m)
    ensures TableInv(m.AfterPush()) && m.AfterPush().Fixed() == m.Fixed()
  {
    PushKeepsStack(m);
  }

  lemma PopKeepsTable(m: Mapper)
    requires TableInv(m) && m.stack != []
    ensures TableInv(m.AfterPop()) && m.AfterPop().Fixed() == m.Fixed()
  {
    PopKeepsStack(m);
  }

  /** Any call that the writer lets through keeps the table in order. */
  lemma StepKeepsTable(w: Writer, op: Op)
    requires w.WellFormed() && Allowed(w, op) && TableInv(w.mapper)
    ensures TableInv(Step(w, op).mapper) && Extends(Step(w, op).mapper.Fixed(), w.mapper.Fixed())
  {
    match op
    case StartElement(_, uri) =>
      PushKeepsTable(w.mapper);
      if uri.Some? {
        GetPrefixKeepsTable(w.mapper.AfterPush(), uri.value);
      }
    case StartElementDefaultNamespace(_, _) => PushKeepsTable(w.mapper);
    case EndElement => PopKeepsTable(w.mapper);
    case DeclareNamespaceURI(uri) => GetPrefixKeepsTable(w.mapper, uri);
    case AddAttribute(_, uri, _) =>
      if uri.Some? {
        DeclareThenGet(w, uri.value);
        GetPrefixKeepsTable(w.mapper, uri.value);
      }
    case Data(_, uri) =>
      if uri.Some? {
        DeclareThenGet(w, uri.value);
        GetPrefixKeepsTable(w.mapper, uri.value);
      }
    case WriteComment(_) =>
  }

  lemma {:induction false} RunKeepsTable(binds: seq<Binding>, ops: seq<Op>)
    requires Unrefused(binds) && UsableBindings(binds) && Run(Opened(binds), ops).Some?
    ensures TableInv(Run(Opened(binds), ops).value.mapper)
  {
    if ops == [] {
      OpenedInv(binds);
    } else {
      var front := ops[..|ops| - 1];
      RunKeepsTable(binds, front);
      StepKeepsTable(Run(Opened(binds), front).value, ops[|ops| - 1]);
    }
  }

  /** A URI keeps its prefix for the whole document, also while it is out of scope, and no other URI gets it. */
  lemma {:induction false} PrefixesNeverChange(binds: seq<Binding>, ops: seq<Op>, more: seq<Op>)
    requires Unrefused(binds) && UsableBindings(binds) && Run(Opened(binds), ops + more).Some?
    ensures Run(Opened(binds), ops).Some?
    ensures var earlier, later := Run(Opened(binds), ops).value.mapper, Run(Opened(binds), ops + more).value.mapper;
      && Extends(later.Fixed(), earlier.Fixed()) && Injective(later.Fixed())
      && forall u :: u in later.InScope() && u != XML_URI ==>
           u in later.Fixed() && later.InScope()[u] == later.Fixed()[u]
    decreases |more|
  {
    var all := ops + more;
    RunKeepsTable(binds, all);
    if more == [] {
      assert all == ops;
    } else {
      var n := |all| - 1;
      assert all[..n] == ops + more[..|more| - 1];
      PrefixesNeverChange(binds, ops, more[..|more| - 1]);
      RunKeepsTable(binds, all[..n]);
      StepKeepsTable(Run(Opened(binds), all[..n]).value, all[n]);
    }
  }

  // ----- Bindings after the first call

  /** No other URI has the prefix, whether bound or generated. */
  ghost predicate Unowned(m: Mapper, uri: string, p: string) {
    forall v :: v in m.Fixed() && v != uri ==> m.Fixed()[v] != p
  }

  lemma LateBindKeepsStack(m: Mapper, uri: string, p: string)
    requires StackInv(m) && uri !in m.InScope()
    ensures StackInv(m.AfterAssociate(uri, p))
  {
  }

  lemma LateBindKeepsFixedIff(m: Mapper, uri: string, p: string)
    requires FixedInv(m) && uri != XML_URI
    ensures FixedInv(m.AfterAssociate(uri, p)) <==> UsablePrefix(p) && Unowned(m, uri, p)
  {
    var m' := m.AfterAssociate(uri, p);
    assert m'.Fixed() == m.Fixed()[uri := p] && m'.Reserved() == m.Reserved() + {p};
    if UsablePrefix(p) && Unowned(m, uri, p) {
      assert FixedInv(m');
    } else if !UsablePrefix(p) {
      assert !UsablePrefix(m'.Fixed()[uri]);
    } else {
      var v :| v in m.Fixed() && v != uri && m.Fixed()[v] == p;
      assert m'.Fixed()[v] == m'.Fixed()[uri];
    }
  }

  /** The writer checks a later binding only for a URI in scope.  It keeps the table in order exactly if the prefix
      may be used and no other URI has it. */
  lemma LateBindKeepsTableIff(m: Mapper, uri: string, p: string)
    requires TableInv(m) && uri !in m.InScope()
    ensures TableInv(m.AfterAssociate(uri, p)) <==> UsablePrefix(p) && Unowned(m, uri, p)
  {
    LateBindKeepsStack(m, uri, p);
    LateBindKeepsFixedIff(m, uri, p);
  }

  /** Such a binding leaves the document so far, and what can follow it, right. */
  lemma LateBindKeepsInv(w: Writer, r: Reader, i: Intent, uri: string, p: string)
    requires Inv(w, r, i) && uri !in w.mapper.InScope() && UsablePrefix(p) && Unowned(w.mapper, uri, p)
    ensures Inv(w.(mapper := w.mapper.AfterAssociate(uri, p)), r, i)
  {
    var m, m' := w.mapper, w.mapper.AfterAssociate(uri, p);
    LateBindKeepsTableIff(m, uri, p);
    forall k | 0 <= k < |m.stack| ensures LevelInv(m'.stack[k], r.AllScopes()[k], m'.Fixed()) {
      assert LevelInv(m.stack[k], r.AllScopes()[k], m.Fixed());
      OnStackIsInScope(m, k, uri);
    }
  }

  lemma OnStackIsInScope(m: Mapper, k: nat, uri: string)
    requires StackInv(m) && k < |m.stack| && uri !in m.InScope()
    ensures uri !in m.stack[k]
  {
    LevelIsFlattened(m.stack, k);
  }

  lemma {:induction false} LevelIsFlattened(stack: seq<seq<string>>, k: nat)
    requires k < |stack|
    ensures forall u <- stack[k] :: u in Flatten(stack)
  {
    if k < |stack| - 1 {
      LevelIsFlattened(stack[..|stack| - 1], k);
    }
  }

  // ----- The counter over a document

  /** The counter has passed exactly as many unreserved numerals as there are URIs with a generated prefix,
      and each call uses up at most one counter besides the reserved ones. */
  ghost predicate CounterInv(m: Mapper, bound: Mapper, steps: nat) {
    && m.Reserved() == bound.Reserved()
    && |m.Fixed()| == |bound.Fixed()| + Rank(m.counter, m.Reserved())
    && m.counter + |Ahead(m.counter, m.Reserved())| <= steps + |m.Reserved()|
  }

  lemma GetPrefixCounts(m: Mapper, bound: Mapper, steps: nat, u: string)
    requires CounterInv(m, bound, steps) && (u in m.InScope() || m.stack != [])
    ensures CounterInv(m.AfterGetPrefix(u), bound, steps + 1)
    ensures u in m.InScope() ==> CounterInv(m.AfterGetPrefix(u), bound, steps)
  {
    if u !in m.InScope() && u !in m.Fixed() {
      var k := NextFree(m.counter, m.Reserved());
      RankUpTo(m.counter, k, m.Reserved());
      PassOne(k, m.Reserved());
    }
  }

  lemma StepCounts(w: Writer, op: Op, bound: Mapper, steps: nat)
    requires w.WellFormed() && Allowed(w, op) && CounterInv(w.mapper, bound, steps) && StackInv(w.mapper)
    ensures CounterInv(Step(w, op).mapper, bound, steps + 1)
  {
    match op
    case StartElement(_, uri) =>
      if uri.Some? { GetPrefixCounts(w.mapper.AfterPush(), bound, steps, uri.value); }
    case DeclareNamespaceURI(uri) => GetPrefixCounts(w.mapper, bound, steps, uri);
    case AddAttribute(_, uri, _) =>
      if uri.Some? {
        DeclareThenGet(w, uri.value);
        GetPrefixCounts(w.mapper, bound, steps, uri.value);
      }
    case Data(_, uri) =>
      if uri.Some? {
        DeclareThenGet(w, uri.value);
        GetPrefixCounts(w.mapper, bound, steps, uri.value);
      }
    case _ =>
  }

  lemma DeclareThenGet(w: Writer, uri: string)
    requires w.mapper.WellFormed() && w.mapper.stack != []
    ensures w.AfterDeclare(uri).mapper.AfterGetPrefix(uri) == w.mapper.AfterGetPrefix(uri)
  {
  }

  lemma {:induction false} RunCounts(binds: seq<Binding>, ops: seq<Op>)
    requires Unrefused(binds) && UsableBindings(binds)
    requires Run(Opened(binds), ops).Some?
    ensures CounterInv(Run(Opened(binds), ops).value.mapper, Bind(binds), |ops|)
  {
    if ops == [] {
      AllReservedAreAhead(Bind(binds).Reserved());
    } else {
      var front, op := ops[..|ops| - 1], ops[|ops| - 1];
      RunCounts(binds, front);
      RunKeepsTable(binds, front);
      StepCounts(Run(Opened(binds), front).value, op, Bind(binds), |front|);
    }
  }

  lemma AllReservedAreAhead(reserved: set<string>)
    ensures |Ahead(0, reserved)| <= |reserved|
  {
    SubsetSize(Ahead(0, reserved), reserved);
  }

  /** The k-th URI without a bound prefix gets the k-th unreserved prefix, counting from "a". */
  lemma GeneratedInOrder(binds: seq<Binding>, ops: seq<Op>, u: string)
    requires Unrefused(binds) && UsableBindings(binds) && Run(Opened(binds), ops).Some?
    requires var m := Run(Opened(binds), ops).value.mapper; u !in m.Fixed() && u != XML_URI
    ensures var m, reserved := Run(Opened(binds), ops).value.mapper, Bind(binds).Reserved();
      exists j: nat :: m.PrefixOf(u) == Numeral(j) && !Taken(j, reserved)
                       && Rank(j, reserved) == |m.Fixed()| - |BindingTable(binds)|
  {
    var m, reserved := Run(Opened(binds), ops).value.mapper, Bind(binds).Reserved();
    RunCounts(binds, ops);
    BindRecords(binds);
    RunKeepsTable(binds, ops);
    assert u !in m.InScope();
    var j := NextFree(m.counter, reserved);
    RankUpTo(m.counter, j, reserved);
    assert m.PrefixOf(u) == Numeral(j);
  }

  /** There is only one k-th unreserved prefix. */
  lemma {:induction false} RankIsInjective(i: nat, j: nat, reserved: set<string>)
    requires i < j && !Taken(i, reserved)
    ensures Rank(i, reserved) < Rank(j, reserved)
    decreases j
  {
    if i + 1 < j {
      RankIsInjective(i, j - 1, reserved);
    }
  }
}
