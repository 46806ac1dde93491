/** Exactly when bound prefixes are safe.

    Before the first call BindNamespaceUriToPrefix accepts any pair except one for the XML URI, and later any for a
    URI that is not in scope.  Here every unusable table of bindings gets a short document that the writer lets
    through and a reader misreads. */
module BindingCondition {
  import opened Options
  import opened PrefixMapping
  import opened NamespaceReader
  import opened XmlWriting
  import opened PrefixInvariants
  import opened NamespaceRoundTrip
  import opened XmlDocuments

  const E: string := "e"

  lemma ThenProper(ops: seq<Op>, op: Op)
    requires ProperCalls(ops) && Proper(Intended(ops), op)
    ensures ProperCalls(ops + [op])
  {
    assert (ops + [op])[..|ops|] == ops;
  }

  lemma ElementIsProper(i: Intent, u: string)
    requires Declarable(u) && MayBegin(i)
    ensures Proper(i, Op.StartElement(E, Some(u)))
  {
    assert IsNameStart('e');
  }

  /** One more element, in a given namespace, in the one that is open. */
  lemma ThenElement(binds: seq<Binding>, ops: seq<Op>, w: Writer, u: string) returns (ops': seq<Op>)
    requires Run(Opened(binds), ops) == Some(w) && ProperDocument(ops) && Declarable(u) && Intended(ops).defaults != []
    ensures ops' == ops + [Op.StartElement(E, Some(u))] && ProperDocument(ops') && Intended(ops').defaults != []
    ensures Run(Opened(binds), ops') == Some(w.AfterStart(E, Some(u)))
    ensures Intended(ops').meanings == Intended(ops).meanings + [ElementIn(Some(u), E)]
  {
    var op := Op.StartElement(E, Some(u));
    ops' := ops + [op];
    RunOne(Opened(binds), ops, op);
    assert Step(w, op) == w.AfterStart(E, Some(u));
    IntendOne(ops, op);
    assert Intend(Intended(ops), op).meanings == Intended(ops).meanings + [ElementIn(Some(u), E)];
    ElementIsProper(Intended(ops), u);
    ThenProper(ops, op);
    assert Starts(op);
  }

  /** What the writer accepts, for URIs that a prefix may be declared for. */
  predicate Acceptable(binds: seq<Binding>) {
    Unrefused(binds) && forall b <- binds :: Declarable(b.0)
  }

  lemma {:induction false} BoundAreDeclarable(binds: seq<Binding>, u: string)
    requires Acceptable(binds) && u in BindingTable(binds)
    ensures Declarable(u) && u != XML_URI
  {
    var front, b := binds[..|binds| - 1], binds[|binds| - 1];
    assert b in binds && forall a <- front :: a in binds;
    if u != b.0 {
      BoundAreDeclarable(front, u);
    }
  }

  /** The document that opens one element in the bound namespace. */
  lemma OpenOne(binds: seq<Binding>, u: string) returns (ops: seq<Op>, w: Writer)
    requires Acceptable(binds) && u in BindingTable(binds)
    ensures u != XML_URI && Declarable(u) && ProperDocument(ops) && ops == [Op.StartElement(E, Some(u))]
    ensures Run(Opened(binds), ops) == Some(w)
    ensures Intended(ops) == Intent([ElementIn(Some(u), E)], [None], {})
    ensures w.events == StartElementNS(BindingTable(binds)[u], E, Some(u)) && w.canAddAttributes
    ensures w.mapper.Fixed() == BindingTable(binds) && w.mapper.stack == [[u]]
    ensures w.mapper.prefixes == Some(map[XML_URI := XML_PREFIX, u := BindingTable(binds)[u]])
  {
    BindRecords(binds);
    BoundAreDeclarable(binds, u);
    var op := Op.StartElement(E, Some(u));
    ops := [op];
    RunOne(Opened(binds), [], op);
    IntendOne([], op);
    ElementIsProper(Intended([]), u);
    ThenProper([], op);
    assert [] + [op] == ops && Starts(op);
    w := Step(Opened(binds), op);
    assert w.mapper.stack[0] == [u];
  }

  /** A bound "xml" or "xmlns" may not be declared. */
  lemma ReservedPrefixFails(binds: seq<Binding>, u: string) returns (ops: seq<Op>)
    requires Acceptable(binds) && u in BindingTable(binds)
    requires BindingTable(binds)[u] == XML_PREFIX || BindingTable(binds)[u] == XMLNS
    ensures ProperDocument(ops) && !RoundTrips(binds, ops)
  {
    var w;
    ops, w := OpenOne(binds, u);
    var p := BindingTable(binds)[u];
    var tag, declaration := StartTag(Qualify(p, E)), Attribute(Qualify(XMLNS, p), u);
    assert w.events == [] + [tag] + [declaration];
    XmlNamesAreNames();
    SplitNames(p, E);
    var r := Start.(pending := Some(Tag(tag.qname, map[], [])));
    ReadNext([], tag, Start);
    ReadsAsDeclaration(r.pending.value, p, u);
    ReadNext([tag], declaration, r);
  }

  lemma DeclareHere(events: seq<Event>, r: Reader, p: string, q: string, v: string) returns (r': Reader)
    requires ReadFrom(Start, events) == Some(r) && r.pending == Some(Tag(q, map[], []))
    requires UsablePrefix(p) && v != XML_URI && Declarable(v)
    ensures ReadFrom(Start, events + [Attribute(Qualify(XMLNS, p), v)]) == Some(r')
    ensures r' == r.(pending := Some(Tag(q, map[p := v], [])))
  {
    ReadsAsDeclaration(Tag(q, map[], []), p, v);
    ReadNext(events, Attribute(Qualify(XMLNS, p), v), r);
    r' := r.(pending := Some(Tag(q, map[p := v], [])));
  }

  /** Opens one element whose prefix is declared by its own tag. */
  lemma OneDeclared(binds: seq<Binding>, u: string) returns (ops: seq<Op>, w: Writer, r: Reader)
    requires Acceptable(binds) && u in BindingTable(binds)
    requires UsablePrefix(BindingTable(binds)[u])
    ensures u != XML_URI && Declarable(u) && ProperDocument(ops) && ops == [Op.StartElement(E, Some(u))]
    ensures Run(Opened(binds), ops) == Some(w)
    ensures Intended(ops) == Intent([ElementIn(Some(u), E)], [None], {})
    ensures w.mapper.Fixed() == BindingTable(binds) && w.mapper.stack == [[u]]
    ensures w.mapper.prefixes == Some(map[XML_URI := XML_PREFIX, u := BindingTable(binds)[u]])
    ensures ReadFrom(Start, w.events) == Some(r)
    ensures r == Reader([], [], Some(Tag(Qualify(BindingTable(binds)[u], E), map[BindingTable(binds)[u] := u], [])))
  {
    ops, w := OpenOne(binds, u);
    var p := BindingTable(binds)[u];
    var tag, declaration := StartTag(Qualify(p, E)), Attribute(Qualify(XMLNS, p), u);
    assert w.events == [] + [tag] + [declaration];
    SplitNames(p, E);
    var first := Start.(pending := Some(Tag(tag.qname, map[], [])));
    ReadNext([], tag, Start);
    r := DeclareHere([tag], first, p, tag.qname, u);
  }

  lemma Misread(binds: seq<Binding>, ops: seq<Op>, r: Reader, k: nat)
    requires Run(Opened(binds), ops).Some? && ReadFrom(Start, Run(Opened(binds), ops).value.events) == Some(r)
    requires Close(r).Some? ==>
      var items := Close(r).value.items;
      k < |items| && k < |Intended(ops).meanings| && !Conveys(items[k], Intended(ops).meanings[k])
    ensures !RoundTrips(binds, ops)
  {
  }

  lemma NotQName(p: string)
    requires p != "" && !NCName(p)
    ensures !IsQName(Qualify(p, E))
  {
    var k := ColonAt(p);
    if k == |p| {
      assert p[..k] == p;
      SplitQualified(p, E);
    } else {
      FirstColon(p[..k], p[k..] + ":" + E);
      assert Qualify(p, E) == p[..k] + (p[k..] + ":" + E);
      var local := SplitQName(Qualify(p, E)).1;
      assert local[|p| - k - 1] == ':';
      if NCName(local) {
        NCNameHasNoColon(local);
      }
    }
  }

  /** A bound prefix that is no name, because of a colon for example, makes no qualified name. */
  lemma NotANameFails(binds: seq<Binding>, u: string) returns (ops: seq<Op>)
    requires Acceptable(binds) && u in BindingTable(binds)
    requires BindingTable(binds)[u] != "" && !NCName(BindingTable(binds)[u])
    ensures ProperDocument(ops) && !RoundTrips(binds, ops)
  {
    var w;
    ops, w := OpenOne(binds, u);
    var p := BindingTable(binds)[u];
    var tag, declaration := StartTag(Qualify(p, E)), Attribute(Qualify(XMLNS, p), u);
    assert w.events == [] + [tag] + [declaration];
    NotQName(p);
    ReadNext([], tag, Start);
    assert w.events[..1] == [] + [tag];
  }

  /** Opens one element that is in the bound namespace by way of a default declaration. */
  lemma OneUnprefixed(binds: seq<Binding>, u: string) returns (ops: seq<Op>, w: Writer)
    requires Acceptable(binds) && u in BindingTable(binds) && BindingTable(binds)[u] == ""
    ensures ProperDocument(ops) && Run(Opened(binds), ops) == Some(w) && Declarable(u)
    ensures Intended(ops) == Intent([ElementIn(Some(u), E)], [None], {})
    ensures w.mapper.IsMapped(u) && w.mapper.InScope()[u] == "" && w.mapper.stack != [] && w.canAddAttributes
    ensures ReadFrom(Start, w.events) == Some(Reader([], [], Some(Tag(E, map["" := u], []))))
  {
    ops, w := OpenOne(binds, u);
    ReadUnprefixed(u);
    assert w.events == [StartTag(E)] + [Attribute(XMLNS, u)];
  }

  lemma ReadUnprefixed(u: string)
    requires Declarable(u) && u != XML_URI
    ensures ReadFrom(Start, [StartTag(E)] + [Attribute(XMLNS, u)]) == Some(Reader([], [], Some(Tag(E, map["" := u], []))))
  {
    XmlNamesAreNames();
    SplitNames("", E);
    SplitNames("", XMLNS);
    assert [] + [StartTag(E)] == [StartTag(E)];
    ReadNext([], StartTag(E), Start);
    ReadNext([StartTag(E)], Attribute(XMLNS, u), Start.(pending := Some(Tag(E, map[], []))));
  }

  lemma UnprefixedAttribute(w: Writer, u: string)
    requires w.mapper.IsMapped(u) && w.mapper.InScope()[u] == "" && w.mapper.stack != []
    ensures w.AfterAttribute(E, Some(u), "").events == w.events + [Attribute(E, "")]
  {
  }

  lemma OneAttributeResolves(scopes: seq<map<string, string>>)
    ensures ResolveAttributes([(E, "")], scopes) == Some([AttributeOf(None, E, "")])
  {
    SplitQualified("", E);
    var attributes := [(E, "")];
    assert attributes[..0] == [];
    assert [] + [AttributeOf(None, E, "")] == [AttributeOf(None, E, "")];
  }

  lemma AttributeLosesUri(events: seq<Event>, u: string) returns (r: Reader)
    requires ReadFrom(Start, events) == Some(Reader([], [], Some(Tag(E, map["" := u], []))))
    ensures ReadFrom(Start, events + [Attribute(E, "")]) == Some(r)
    ensures Close(r).Some? ==> |Close(r).value.items| == 2 && Close(r).value.items[1] == AttributeOf(None, E, "")
  {
    var tag := Tag(E, map["" := u], []);
    ReadsAsAttribute(tag, "", E, "");
    ReadNext(events, Attribute(E, ""), Reader([], [], Some(tag)));
    assert tag.attributes + [(E, "")] == [(E, "")];
    r := Reader([], [], Some(Tag(E, map["" := u], [(E, "")])));
    OneAttributeResolves(r.AllScopes());
  }

  /** Opens an element and adds an attribute, both in the bound namespace. */
  lemma AttributeOnOne(binds: seq<Binding>, u: string) returns (ops: seq<Op>, w: Writer, before: seq<Event>)
    requires Acceptable(binds) && u in BindingTable(binds) && BindingTable(binds)[u] == ""
    ensures ProperDocument(ops) && Run(Opened(binds), ops) == Some(w)
    ensures Intended(ops).meanings == [ElementIn(Some(u), E)] + [AttributeIn(Some(u), E, "")]
    ensures w.events == before + [Attribute(E, "")]
    ensures ReadFrom(Start, before) == Some(Reader([], [], Some(Tag(E, map["" := u], []))))
  {
    var op := Op.AddAttribute(E, Some(u), "");
    var one, w1 := OneUnprefixed(binds, u);
    before := w1.events;
    RunOne(Opened(binds), one, op);
    IntendOne(one, op);
    ThenProper(one, op);
    UnprefixedAttribute(w1, u);
    ops, w := one + [op], w1.AfterAttribute(E, Some(u), "");
  }

  /** An empty bound prefix makes the element right, by way of the default namespace, but not its attributes. */
  lemma EmptyPrefixFails(binds: seq<Binding>, u: string) returns (ops: seq<Op>)
    requires Acceptable(binds) && u in BindingTable(binds) && BindingTable(binds)[u] == ""
    ensures ProperDocument(ops) && !RoundTrips(binds, ops)
  {
    var w, before;
    ops, w, before := AttributeOnOne(binds, u);
    var r := AttributeLosesUri(before, u);
    Misread(binds, ops, r, 1);
  }

  // ----- Two URIs with one prefix

  /** An element in a namespace that is not in scope gets a declaration with its bound prefix. */
  lemma StartBound(w: Writer, v: string, p: string)
    requires w.mapper.prefixes.Some? && v !in w.mapper.InScope() && v in w.mapper.Fixed() && w.mapper.Fixed()[v] == p
    requires p != ""
    ensures var w' := w.AfterStart(E, Some(v));
      && w'.events == w.events + [StartTag(Qualify(p, E))] + [Attribute(Qualify(XMLNS, p), v)]
      && w'.mapper.prefixes == Some(w.mapper.InScope()[v := p])
  {
  }

  /** An element in a namespace that is in scope gets none. */
  lemma StartInScope(w: Writer, u: string, p: string)
    requires w.mapper.IsMapped(u) && w.mapper.InScope()[u] == p
    ensures w.AfterStart(E, Some(u)).events == w.events + [StartTag(Qualify(p, E))]
  {
  }

  /** Three nested elements: in u, in v, and in u again.  The third is written without a declaration. */
  lemma NestThree(binds: seq<Binding>, u: string, v: string)
      returns (ops: seq<Op>, w: Writer, first: seq<Event>, r: Reader)
    requires Acceptable(binds) && u in BindingTable(binds) && v in BindingTable(binds) && u != v
    requires BindingTable(binds)[u] == BindingTable(binds)[v] && UsablePrefix(BindingTable(binds)[u])
    ensures ProperDocument(ops) && Run(Opened(binds), ops) == Some(w)
    ensures Intended(ops).meanings == [ElementIn(Some(u), E), ElementIn(Some(v), E), ElementIn(Some(u), E)]
    ensures w.events == NestedAfter(first, BindingTable(binds)[u], v)
    ensures ReadFrom(Start, first) == Some(r)
    ensures r == Reader([], [], Some(Tag(Qualify(BindingTable(binds)[u], E), map[BindingTable(binds)[u] := u], [])))
  {
    var w1;
    ops, w1, r := OneDeclared(binds, u);
    first := w1.events;
    var p := BindingTable(binds)[u];
    BindRecords(binds);
    BoundAreDeclarable(binds, v);
    ops, w := ThenTwo(binds, ops, w1, u, v, p);
    assert [ElementIn(Some(u), E)] + [ElementIn(Some(v), E)] + [ElementIn(Some(u), E)]
           == [ElementIn(Some(u), E), ElementIn(Some(v), E), ElementIn(Some(u), E)];
  }

  /** An element in v, which gets a declaration, and one in u, which does not. */
  lemma ThenTwo(binds: seq<Binding>, ops: seq<Op>, w1: Writer, u: string, v: string, p: string)
      returns (ops': seq<Op>, w: Writer)
    requires Run(Opened(binds), ops) == Some(w1) && ProperDocument(ops) && Intended(ops).defaults != []
    requires Declarable(u) && Declarable(v)
    requires w1.mapper.prefixes.Some? && v !in w1.mapper.InScope() && v in w1.mapper.Fixed() && w1.mapper.Fixed()[v] == p
    requires u in w1.mapper.InScope() && w1.mapper.InScope()[u] == p && p != ""
    ensures ProperDocument(ops') && Run(Opened(binds), ops') == Some(w) && w.events == NestedAfter(w1.events, p, v)
    ensures Intended(ops').meanings == Intended(ops).meanings + [ElementIn(Some(v), E)] + [ElementIn(Some(u), E)]
  {
    var w2 := w1.AfterStart(E, Some(v));
    StartBound(w1, v, p);
    StartInScope(w2, u, p);
    var more := ThenElement(binds, ops, w1, v);
    ops' := ThenElement(binds, more, w2, u);
    w := w2.AfterStart(E, Some(u));
  }

  /** The events of an element that declares p for v, with an element in it that declares nothing. */
  function NestedAfter(first: seq<Event>, p: string, v: string): seq<Event> {
    first + [StartTag(Qualify(p, E))] + [Attribute(Qualify(XMLNS, p), v)] + [StartTag(Qualify(p, E))]
  }

  lemma ClosesTo(r: Reader, p: string, uri: string)
    requires NCName(p) && Lookup(r.AllScopes(), p) == Some(uri)
    requires r.pending.Some? && r.pending.value.qname == Qualify(p, E) && r.pending.value.attributes == []
    ensures Close(r) == Some(Reader(r.items + [Element(Some(uri), E)], r.AllScopes(), None))
  {
    SplitNames(p, E);
    assert r.items + [Element(Some(uri), E)] + [] == r.items + [Element(Some(uri), E)];
  }

  lemma OpenAnother(events: seq<Event>, r: Reader, p: string, uri: string) returns (r': Reader)
    requires ReadFrom(Start, events) == Some(r)
    requires NCName(p) && Lookup(r.AllScopes(), p) == Some(uri)
    requires r.pending.Some? && r.pending.value.qname == Qualify(p, E) && r.pending.value.attributes == []
    ensures ReadFrom(Start, events + [StartTag(Qualify(p, E))]) == Some(r')
    ensures r' == Reader(r.items + [Element(Some(uri), E)], r.AllScopes(), Some(Tag(Qualify(p, E), map[], [])))
  {
    ClosesTo(r, p, uri);
    SplitNames(p, E);
    ReadNext(events, StartTag(Qualify(p, E)), r);
    r' := Reader(r.items + [Element(Some(uri), E)], r.AllScopes(), Some(Tag(Qualify(p, E), map[], [])));
  }

  /** The element in u, and the one in v with its declaration. */
  lemma ReadTwo(first: seq<Event>, r: Reader, p: string, u: string, v: string) returns (r': Reader)
    requires UsablePrefix(p) && v != XML_URI && Declarable(v) && ReadFrom(Start, first) == Some(r)
    requires r == Reader([], [], Some(Tag(Qualify(p, E), map[p := u], [])))
    ensures ReadFrom(Start, first + [StartTag(Qualify(p, E))] + [Attribute(Qualify(XMLNS, p), v)]) == Some(r')
    ensures r' == Reader([Element(Some(u), E)], [map[p := u]], Some(Tag(Qualify(p, E), map[p := v], [])))
  {
    var q := Qualify(p, E);
    assert r.AllScopes() == [map[p := u]];
    var r1 := OpenAnother(first, r, p, u);
    assert [] + [Element(Some(u), E)] == [Element(Some(u), E)];
    r' := DeclareHere(first + [StartTag(q)], r1, p, q, v);
  }

  /** The reader takes the innermost declaration, which is v's. */
  lemma InnermostWins(first: seq<Event>, r: Reader, p: string, u: string, v: string) returns (r': Reader)
    requires UsablePrefix(p) && v != XML_URI && Declarable(v) && ReadFrom(Start, first) == Some(r)
    requires r == Reader([], [], Some(Tag(Qualify(p, E), map[p := u], [])))
    ensures ReadFrom(Start, NestedAfter(first, p, v)) == Some(r')
    ensures Close(r').Some? && |Close(r').value.items| == 3 && Close(r').value.items[2] == Element(Some(v), E)
  {
    var r2 := ReadTwo(first, r, p, u, v);
    var scopes := r2.AllScopes();
    assert scopes == [map[p := u]] + [map[p := v]];
    r' := OpenAnother(first + [StartTag(Qualify(p, E))] + [Attribute(Qualify(XMLNS, p), v)], r2, p, v);
    InnerScope(scopes, p);
    assert r'.AllScopes() == scopes + [map[]];
    ClosesTo(r', p, v);
  }

  lemma InnerScope(scopes: seq<map<string, string>>, p: string)
    ensures Lookup(scopes + [map[]], p) == Lookup(scopes, p)
  {
    assert (scopes + [map[]])[..|scopes|] == scopes;
  }

  lemma SharedPrefixFails(binds: seq<Binding>, u: string, v: string) returns (ops: seq<Op>)
    requires Acceptable(binds) && u in BindingTable(binds) && v in BindingTable(binds) && u != v
    requires BindingTable(binds)[u] == BindingTable(binds)[v] && UsablePrefix(BindingTable(binds)[u])
    ensures ProperDocument(ops) && !RoundTrips(binds, ops)
  {
    BoundAreDeclarable(binds, v);
    var w, first, r;
    ops, w, first, r := NestThree(binds, u, v);
    var r' := InnermostWins(first, r, BindingTable(binds)[u], u, v);
    Misread(binds, ops, r', 2);
  }

  /** The tag of an element whose prefix is generated, and its declaration. */
  lemma OneGenerated(u: string) returns (w: Writer, p: string, r: Reader)
    requires Declarable(u) && u != XML_URI
    ensures w == Opened([]).AfterStart(E, Some(u)) && UsablePrefix(p)
    ensures w.mapper.prefixes == Some(map[XML_URI := XML_PREFIX, u := p])
    ensures ReadFrom(Start, w.events) == Some(r) && r == Reader([], [], Some(Tag(Qualify(p, E), map[p := u], [])))
  {
    var start := Opened([]);
    p := start.mapper.AfterPush().PrefixOf(u);
    GeneratedIsUsable(0, start.mapper.Reserved());
    UnmappedEvents(start, E, u, p);
    w := start.AfterStart(E, Some(u));
    SplitNames(p, E);
    var tag := StartTag(Qualify(p, E));
    var first := Start.(pending := Some(Tag(tag.qname, map[], [])));
    ReadNext([], tag, Start);
    r := DeclareHere([] + [tag], first, p, tag.qname, u);
  }

  /** A binding after the first element can take that element's generated prefix: of three nested elements, in u, in
      v and in u, the third is read in v. */
  lemma LateBindingFails(u: string, v: string) returns (w: Writer, p: string)
    requires Declarable(u) && Declarable(v) && u != v && u != XML_URI && v != XML_URI
    ensures w == Opened([]).AfterStart(E, Some(u)) && v !in w.mapper.InScope() && w.mapper.prefixes.Some?
    ensures var end := w.(mapper := w.mapper.AfterAssociate(v, p)).AfterStart(E, Some(v)).AfterStart(E, Some(u));
      Read(end.events).Some? && |Read(end.events).value| == 3 && Read(end.events).value[2] == Element(Some(v), E)
  {
    var r;
    w, p, r := OneGenerated(u);
    var bound := w.(mapper := w.mapper.AfterAssociate(v, p));
    StartBound(bound, v, p);
    StartInScope(bound.AfterStart(E, Some(v)), u, p);
    var r' := InnermostWins(w.events, r, p, u, v);
  }

  /** The bindings the writer accepts are safe for every document exactly when they give different URIs
      different prefixes, each a name without a colon, and neither "xml" nor "xmlns". */
  lemma UsableIffAlwaysRoundTrips(binds: seq<Binding>)
    requires Acceptable(binds)
    ensures UsableBindings(binds) <==> forall ops :: ProperDocument(ops) ==> RoundTrips(binds, ops)
  {
    if UsableBindings(binds) {
      forall ops | ProperDocument(ops) ensures RoundTrips(binds, ops) {
        NamespacesRoundTrip(binds, ops);
      }
    } else if u :| u in BindingTable(binds) && !UsablePrefix(BindingTable(binds)[u]) {
      var ops;
      if BindingTable(binds)[u] == "" {
        ops := EmptyPrefixFails(binds, u);
      } else if !NCName(BindingTable(binds)[u]) {
        ops := NotANameFails(binds, u);
      } else {
        ops := ReservedPrefixFails(binds, u);
      }
    } else {
      var u, v :| u in BindingTable(binds) && v in BindingTable(binds) && u != v
                  && BindingTable(binds)[u] == BindingTable(binds)[v];
      var ops := SharedPrefixFails(binds, u, v);
    }
  }
}
