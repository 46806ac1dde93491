/** Exactly which calls are safe.

    The writer checks neither names nor URIs nor characters, nor whether an attribute is given twice, a second root
    is begun or text is outside the first.  Here every call that asks for something XML cannot say spoils the
    document for good, whatever is written after it. */
module ImproperCalls {
  import opened Options
  import opened PrefixMapping
  import opened NamespaceReader
  import opened XmlWriting
  import opened PrefixInvariants
  import opened NamespaceRoundTrip
  import opened XmlDocuments

  // ----- What can still become of what was read

  /** How many items the reader will report, at least, of what it has read. */
  function Total(r: Reader): nat {
    |r.items| + if r.pending.Some? then 1 + |r.pending.value.attributes| else 0
  }

  predicate IsDeclaration(qname: string) {
    qname == XMLNS || SplitQName(qname).0 == Some(XMLNS)
  }

  /** How many items an event adds. */
  function Weight(e: Event): nat {
    match e
    case StartTag(_) => 1
    case Attribute(qname, _) => if IsDeclaration(qname) then 0 else 1
    case Text(_) => 1
    case _ => 0
  }

  function Weights(events: seq<Event>): nat {
    if events == [] then 0 else Weight(events[0]) + Weights(events[1..])
  }

  /** The name of the pending element, then those of its attributes. */
  function NameAt(tag: Tag, k: nat): string
    requires k <= |tag.attributes|
  {
    if k == 0 then tag.qname else tag.attributes[k - 1].0
  }

  ghost predicate Names(item: Item, qname: string) {
    !item.Content? && item.local == SplitQName(qname).1
  }

  ghost predicate DifferentNames(attributes: seq<(string, string)>) {
    forall j, k :: 0 <= j < k < |attributes| ==> attributes[j].0 != attributes[k].0
  }

  /** The items of the finished document keep what was read, and name what is pending. */
  ghost predicate Settled(r: Reader, items: seq<Item>) {
    && r.items <= items
    && (r.pending.Some? ==>
          var tag := r.pending.value;
          && Total(r) <= |items| && DifferentNames(tag.attributes)
          && forall k :: 0 <= k <= |tag.attributes| ==> Names(items[|r.items| + k], NameAt(tag, k)))
  }

  lemma {:induction false} ResolvedNames(attributes: seq<(string, string)>, scopes: seq<map<string, string>>)
    requires ResolveAttributes(attributes, scopes).Some?
    ensures |ResolveAttributes(attributes, scopes).value| == |attributes|
    ensures forall k :: 0 <= k < |attributes| ==>
      Some(ResolveAttributes(attributes, scopes).value[k]) == ResolveAttribute(attributes[k], scopes)
  {
    if attributes != [] {
      ResolvedNames(attributes[..|attributes| - 1], scopes);
    }
  }

  lemma SameQNameSameName(a: (string, string), b: (string, string), scopes: seq<map<string, string>>)
    requires ResolveAttribute(a, scopes).Some? && ResolveAttribute(b, scopes).Some?
    ensures a.0 == b.0 ==> SameName(ResolveAttribute(a, scopes).value, ResolveAttribute(b, scopes).value)
  {
  }

  lemma CloseSettles(r: Reader)
    requires Close(r).Some?
    ensures Settled(r, Close(r).value.items) && |Close(r).value.items| == Total(r)
    ensures Close(r).value.pending.None?
  {
    if r.pending.Some? {
      var tag, scopes := r.pending.value, r.AllScopes();
      var resolved := ResolveAttributes(tag.attributes, scopes).value;
      ResolvedNames(tag.attributes, scopes);
      forall j, k | 0 <= j < k < |tag.attributes| ensures tag.attributes[j].0 != tag.attributes[k].0 {
        assert !SameName(resolved[j], resolved[k]);
        SameQNameSameName(tag.attributes[j], tag.attributes[k], scopes);
      }
      forall k | 0 <= k <= |tag.attributes| ensures Names(Close(r).value.items[|r.items| + k], NameAt(tag, k)) {
        if k > 0 {
          assert Close(r).value.items[|r.items| + k] == resolved[k - 1];
          assert Some(resolved[k - 1]) == ResolveAttribute(tag.attributes[k - 1], scopes);
        }
      }
    }
  }

  lemma SettledGrows(r: Reader, items: seq<Item>, more: seq<Item>)
    requires Settled(r, items) && items <= more
    ensures Settled(r, more)
  {
    if r.pending.Some? {
      forall k | 0 <= k <= |r.pending.value.attributes|
        ensures Names(more[|r.items| + k], NameAt(r.pending.value, k))
      {
        assert Names(items[|r.items| + k], NameAt(r.pending.value, k));
      }
    }
  }

  /** Looking back over one event. */
  lemma AttributeSettles(r: Reader, e: Event, r': Reader, items: seq<Item>)
    requires e.Attribute? && ReadEvent(r, e) == Some(r') && Settled(r', items)
    ensures Settled(r, items) && Total(r') <= Total(r) + Weight(e)
  {
    var tag, tag' := r.pending.value, r'.pending.value;
    assert DifferentNames(tag'.attributes) && tag.attributes <= tag'.attributes;
    forall k | 0 <= k <= |tag.attributes| ensures Names(items[|r.items| + k], NameAt(tag, k)) {
      assert Names(items[|r'.items| + k], NameAt(tag', k));
    }
  }

  lemma EventSettles(r: Reader, e: Event, r': Reader, items: seq<Item>)
    requires ReadEvent(r, e) == Some(r') && Settled(r', items)
    ensures Settled(r, items) && Total(r') <= Total(r) + Weight(e)
  {
    if e.Attribute? {
      AttributeSettles(r, e, r', items);
    } else {
      CloseSettles(r);
      SettledGrows(r, Close(r).value.items, items);
    }
  }

  lemma {:induction false} ReadSettles(r: Reader, more: seq<Event>, end: Reader)
    requires ReadFrom(r, more) == Some(end) && Close(end).Some?
    ensures Settled(r, Close(end).value.items) && |Close(end).value.items| <= Total(r) + Weights(more)
    decreases |more|
  {
    if more == [] {
      CloseSettles(r);
    } else {
      ReadFirst(r, more);
      var next := ReadEvent(r, more[0]).value;
      ReadSettles(next, more[1..], end);
      EventSettles(r, more[0], next, Close(end).value.items);
    }
  }

  // ----- Documents that cannot be saved

  ghost predicate Good(events: seq<Event>, meanings: seq<Meaning>) {
    Read(events).Some? && ConveysAll(Read(events).value, meanings)
  }

  /** Whatever is written from now on, for whatever calls. */
  ghost predicate Doomed(events: seq<Event>, meanings: seq<Meaning>) {
    forall more: seq<Event>, later: seq<Meaning> ::
      Weights(more) <= |later| ==> !Good(events + more, meanings + later)
  }

  lemma UnreadableIsDoomed(events: seq<Event>, meanings: seq<Meaning>)
    requires ReadFrom(Start, events).None?
    ensures Doomed(events, meanings)
  {
    forall more: seq<Event>, later: seq<Meaning> | Weights(more) <= |later|
      ensures !Good(events + more, meanings + later)
    {
      ReadFromAppend(Start, events, more);
    }
  }

  /** What every good continuation would show. */
  lemma GoodSettles(events: seq<Event>, r: Reader, more: seq<Event>, meanings: seq<Meaning>)
    requires ReadFrom(Start, events) == Some(r) && Good(events + more, meanings)
    ensures Settled(r, Read(events + more).value) && |meanings| <= Total(r) + Weights(more)
  {
    ReadFromAppend(Start, events, more);
    ReadSettles(r, more, ReadFrom(r, more).value);
  }

  lemma ShortIsDoomed(events: seq<Event>, r: Reader, meanings: seq<Meaning>)
    requires ReadFrom(Start, events) == Some(r) && Total(r) < |meanings|
    ensures Doomed(events, meanings)
  {
    forall more: seq<Event>, later: seq<Meaning> | Weights(more) <= |later|
      ensures !Good(events + more, meanings + later)
    {
      if Good(events + more, meanings + later) {
        GoodSettles(events, r, more, meanings + later);
      }
    }
  }

  predicate Misnames(m: Meaning, qname: string) {
    (m.ElementIn? || m.AttributeIn?) && m.local != SplitQName(qname).1
  }

  lemma GoodNames(events: seq<Event>, r: Reader, more: seq<Event>, meanings: seq<Meaning>, k: nat)
    requires ReadFrom(Start, events) == Some(r) && r.pending.Some? && k <= |r.pending.value.attributes|
    requires Good(events + more, meanings)
    ensures |r.items| + k < |meanings| && !Misnames(meanings[|r.items| + k], NameAt(r.pending.value, k))
  {
    GoodSettles(events, r, more, meanings);
    var items, n := Read(events + more).value, |r.items| + k;
    assert Names(items[n], NameAt(r.pending.value, k));
    assert Conveys(items[n], meanings[n]);
  }

  lemma MisnamedIsDoomed(events: seq<Event>, r: Reader, meanings: seq<Meaning>, k: nat)
    requires ReadFrom(Start, events) == Some(r) && r.pending.Some? && k <= |r.pending.value.attributes|
    requires |r.items| + k < |meanings| && Misnames(meanings[|r.items| + k], NameAt(r.pending.value, k))
    ensures Doomed(events, meanings)
  {
    forall more: seq<Event>, later: seq<Meaning> | Weights(more) <= |later|
      ensures !Good(events + more, meanings + later)
    {
      if Good(events + more, meanings + later) {
        GoodNames(events, r, more, meanings + later, k);
      }
    }
  }

  lemma RepeatedIsDoomed(events: seq<Event>, r: Reader, meanings: seq<Meaning>)
    requires ReadFrom(Start, events) == Some(r) && r.pending.Some? && !DifferentNames(r.pending.value.attributes)
    ensures Doomed(events, meanings)
  {
    forall more: seq<Event>, later: seq<Meaning> | Weights(more) <= |later|
      ensures !Good(events + more, meanings + later)
    {
      if Good(events + more, meanings + later) {
        GoodSettles(events, r, more, meanings + later);
      }
    }
  }

  lemma {:induction false} WeightsAppend(a: seq<Event>, b: seq<Event>)
    ensures Weights(a + b) == Weights(a) + Weights(b)
  {
    if a == [] {
      assert a + b == b;
    } else {
      assert (a + b)[1..] == a[1..] + b;
      WeightsAppend(a[1..], b);
    }
  }

  lemma DoomedFor(events: seq<Event>, meanings: seq<Meaning>, more: seq<Event>, later: seq<Meaning>)
    requires Doomed(events, meanings) && Weights(more) <= |later|
    ensures !Good(events + more, meanings + later)
  {
  }

  lemma Regroup<T>(a: seq<T>, b: seq<T>, c: seq<T>)
    ensures a + b + c == a + (b + c)
  {
  }

  lemma DoomedStays(events: seq<Event>, meanings: seq<Meaning>, es: seq<Event>, ms: seq<Meaning>)
    requires Doomed(events, meanings) && Weights(es) <= |ms|
    ensures Doomed(events + es, meanings + ms)
  {
    forall more: seq<Event>, later: seq<Meaning> | Weights(more) <= |later|
      ensures !Good(events + es + more, meanings + ms + later)
    {
      WeightsAppend(es, more);
      DoomedFor(events, meanings, es + more, ms + later);
      Regroup(events, es, more);
      Regroup(meanings, ms, later);
    }
  }

  // ----- What a call appends

  lemma DeclarationWeighsNothing(p: string, uri: string)
    ensures Weights(WriteAttributeNS(XMLNS, p, uri)) == 0
    ensures Weights([Attribute(if p == "" then XMLNS else Qualify(XMLNS, p), uri)]) == 0
  {
    XmlNamesAreNames();
    if p != "" {
      SplitNames(XMLNS, p);
    }
  }

  lemma StartAppends(prefix: string, name: string, uri: Option<string>)
    ensures Weights(StartElementNS(prefix, name, uri)) == 1
  {
    if uri.Some? {
      DeclarationWeighsNothing(prefix, uri.value);
      WeightsAppend([StartTag(Qualify(prefix, name))],
                    [Attribute(if prefix == "" then XMLNS else Qualify(XMLNS, prefix), uri.value)]);
    } else {
      assert StartElementNS(prefix, name, uri) == [StartTag(Qualify(prefix, name))];
    }
  }

  lemma DeclareAppends(w: Writer, uri: string) returns (es: seq<Event>)
    requires w.mapper.stack != []
    ensures w.AfterDeclare(uri).events == w.events + es && Weights(es) == 0
  {
    es := if w.mapper.IsMapped(uri) then [] else WriteAttributeNS(XMLNS, w.mapper.PrefixOf(uri), uri);
    DeclarationWeighsNothing(w.mapper.PrefixOf(uri), uri);
  }

  /** A call appends no more items than it has meanings. */
  lemma StepAppends(w: Writer, i: Intent, op: Op) returns (es: seq<Event>, ms: seq<Meaning>)
    requires w.WellFormed() && Allowed(w, op)
    ensures Step(w, op).events == w.events + es && Intend(i, op).meanings == i.meanings + ms
    ensures Weights(es) <= |ms|
  {
    ms := Intend(i, op).meanings[|i.meanings|..];
    match op
    case StartElement(name, uri) =>
      var m := w.mapper.AfterPush();
      var prefix := if uri.None? then "" else m.PrefixOf(uri.value);
      var defined := if uri.None? || m.IsMapped(uri.value) then None else uri;
      es := StartElementNS(prefix, name, defined);
      StartAppends(prefix, name, defined);
    case StartElementDefaultNamespace(name, uri) =>
      es := StartElementNS("", name, Some(uri));
      StartAppends("", name, Some(uri));
    case EndElement => es := [EndTag];
    case DeclareNamespaceURI(uri) => es := DeclareAppends(w, uri);
    case AddAttribute(name, uri, value) => es := AttributeAppends(w, name, uri, value);
    case Data(text, uri) => es := DataAppends(w, text, uri);
    case WriteComment(comment) => es := [Comment(comment)];
  }

  lemma AttributeAppends(w: Writer, name: string, uri: Option<string>, value: string) returns (es: seq<Event>)
    requires w.mapper.stack != []
    ensures w.AfterAttribute(name, uri, value).events == w.events + es && Weights(es) <= 1
  {
    if uri.None? {
      es := WriteAttributeNS("", name, value);
    } else {
      var ds := DeclareAppends(w, uri.value);
      var rest := WriteAttributeNS(w.AfterDeclare(uri.value).mapper.PrefixOf(uri.value), name, value);
      es := ds + rest;
      WeightsAppend(ds, rest);
    }
  }

  lemma DataAppends(w: Writer, text: string, uri: Option<string>) returns (es: seq<Event>)
    requires uri.Some? ==> w.mapper.stack != []
    ensures w.AfterData(text, uri).events == w.events + es && Weights(es) == 1
  {
    if uri.None? {
      es := [Text(text)];
    } else {
      var ds := DeclareAppends(w, uri.value);
      var ts := [Text(Qualify(w.AfterDeclare(uri.value).mapper.PrefixOf(uri.value), text))];
      es := ds + ts;
      WeightsAppend(ds, ts);
    }
  }

  // ----- What an improper call does

  ghost predicate MapsDeclarable(m: Mapper) {
    forall u :: u in m.InScope() ==> Declarable(u)
  }

  lemma {:induction false} RunMapsDeclarable(binds: seq<Binding>, ops: seq<Op>)
    requires ProperCalls(ops) && Run(Opened(binds), ops).Some? && Unrefused(binds)
    ensures MapsDeclarable(Run(Opened(binds), ops).value.mapper)
  {
    if ops == [] {
      BindRecords(binds);
      XmlUriIsText();
    } else {
      var front, op := ops[..|ops| - 1], ops[|ops| - 1];
      RunMapsDeclarable(binds, front);
      StepMapsDeclarable(Run(Opened(binds), front).value, op);
    }
  }

  lemma StepMapsDeclarable(w: Writer, op: Op)
    requires w.WellFormed() && Allowed(w, op) && Expressible(op) && MapsDeclarable(w.mapper)
    ensures MapsDeclarable(Step(w, op).mapper)
  {
    match op
    case AddAttribute(_, uri, _) => if uri.Some? { DeclareThenGet(w, uri.value); }
    case Data(_, uri) => if uri.Some? { DeclareThenGet(w, uri.value); }
    case _ =>
  }

  /** A name with a colon is read as something else, and what is no qualified name is not read at all. */
  lemma ImproperName(name: string)
    requires !NCName(name) && IsQName(name)
    ensures SplitQName(name).0.Some? && SplitQName(name).1 != name && name != "" && name != XMLNS
  {
    XmlNamesAreNames();
    SplitNames("", XMLNS);
  }

  /** A tag whose name is not one, with or without a prefix, or a second document element. */
  lemma BadElementDooms(w: Writer, r: Reader, i: Intent, prefix: string, name: string, m: Meaning)
    requires Inv(w, r, i) && (prefix == "" || NCName(prefix)) && m.ElementIn? && m.local == name
    requires !(NCName(name) && MayBegin(i))
    ensures Doomed(w.events + [StartTag(Qualify(prefix, name))], i.meanings + [m])
  {
    var qname := Qualify(prefix, name);
    var e := StartTag(qname);
    var closed := ReadNextClosed(w, r, i, e);
    if prefix != "" {
      SplitNames(prefix, name);
    }
    if !IsQName(qname) || !MayBegin(i) {
      UnreadableIsDoomed(w.events + [e], i.meanings + [m]);
    } else {
      ImproperName(name);
      var r' := closed.(pending := Some(Tag(qname, map[], [])));
      assert (i.meanings + [m])[|closed.items|] == m;
      MisnamedIsDoomed(w.events + [e], r', i.meanings + [m], 0);
    }
  }

  /** A declaration that XML forbids. */
  lemma BadDeclarationDooms(events: seq<Event>, p: string, uri: string, meanings: seq<Meaning>)
    requires NCName(p) && !Declarable(uri)
    ensures Doomed(events + [Attribute(Qualify(XMLNS, p), uri)], meanings)
  {
    var e := Attribute(Qualify(XMLNS, p), uri);
    NoRead(events, e);
    if ReadFrom(Start, events).Some? {
      var r := ReadFrom(Start, events).value;
      if r.pending.Some? {
        ReadsAsDeclaration(r.pending.value, p, uri);
      }
    }
    UnreadableIsDoomed(events + [e], meanings);
  }

  lemma NoRead(events: seq<Event>, e: Event)
    ensures ReadFrom(Start, events + [e]) ==
      if ReadFrom(Start, events).None? then None else ReadEvent(ReadFrom(Start, events).value, e)
  {
    assert (events + [e])[..|events|] == events;
  }

  lemma StartDooms(w: Writer, r: Reader, i: Intent, name: string, uri: Option<string>)
    requires Inv(w, r, i) && MapsDeclarable(w.mapper) && !Proper(i, Op.StartElement(name, uri))
    ensures Doomed(w.AfterStart(name, uri).events, Intend(i, Op.StartElement(name, uri)).meanings)
  {
    var m := ElementIn(if uri.Some? then uri else Default(i.defaults), name);
    if uri.None? || w.mapper.IsMapped(uri.value) {
      var prefix := if uri.None? then "" else w.mapper.InScope()[uri.value];
      if uri.Some? {
        InScopeResolves(w.mapper, r.AllScopes(), uri.value);
      }
      MappedEvents(w, name, uri, prefix);
      BadElementDooms(w, r, i, prefix, name, m);
    } else {
      UnmappedDooms(w, r, i, name, uri.value);
    }
  }

  lemma UnmappedDooms(w: Writer, r: Reader, i: Intent, name: string, uri: string)
    requires Inv(w, r, i) && !w.mapper.IsMapped(uri) && !(NCName(name) && MayBegin(i) && Declarable(uri))
    ensures Doomed(w.AfterStart(name, Some(uri)).events, i.meanings + [ElementIn(Some(uri), name)])
  {
    var prefix, m := w.mapper.AfterPush().PrefixOf(uri), ElementIn(Some(uri), name);
    UnmappedPrefixIsName(w.mapper, uri);
    UnmappedEvents(w, name, uri, prefix);
    var tag := StartTag(Qualify(prefix, name));
    if !Declarable(uri) {
      BadDeclarationDooms(w.events + [tag], prefix, uri, i.meanings + [m]);
    } else {
      BadElementDooms(w, r, i, prefix, name, m);
      DeclarationDoesNotSave(w.events + [tag], prefix, uri, i.meanings + [m]);
    }
  }

  lemma BadDefaultDooms(events: seq<Event>, uri: string, meanings: seq<Meaning>)
    requires !MayBeDefault(uri)
    ensures Doomed(events + [Attribute(XMLNS, uri)], meanings)
  {
    NoRead(events, Attribute(XMLNS, uri));
    UnreadableIsDoomed(events + [Attribute(XMLNS, uri)], meanings);
  }

  /** A tag that was spoilt by its name is no better for a declaration. */
  lemma DeclarationDoesNotSave(events: seq<Event>, prefix: string, uri: string, meanings: seq<Meaning>)
    requires Doomed(events, meanings)
    ensures Doomed(events + [Attribute(if prefix == "" then XMLNS else Qualify(XMLNS, prefix), uri)], meanings)
  {
    DeclarationWeighsNothing(prefix, uri);
    DoomedStays(events, meanings, [Attribute(if prefix == "" then XMLNS else Qualify(XMLNS, prefix), uri)], []);
    assert meanings + [] == meanings;
  }

  lemma StartDefaultDooms(w: Writer, r: Reader, i: Intent, name: string, uri: string)
    requires Inv(w, r, i) && !Proper(i, Op.StartElementDefaultNamespace(name, uri))
    ensures Doomed(w.AfterStartDefault(name, uri).events,
                   Intend(i, Op.StartElementDefaultNamespace(name, uri)).meanings)
  {
    var m := ElementIn(Default(i.defaults + [Some(uri)]), name);
    var tag := StartTag(name);
    DefaultEvents(w, name, uri);
    if !(NCName(name) && MayBegin(i)) {
      BadElementDooms(w, r, i, "", name, m);
      DeclarationDoesNotSave(w.events + [tag], "", uri, i.meanings + [m]);
    } else {
      BadDefaultDooms(w.events + [tag], uri, i.meanings + [m]);
    }
  }

  /** Declaring a URI that may not be declared. */
  lemma DeclareDooms(w: Writer, r: Reader, i: Intent, uri: string, meanings: seq<Meaning>)
    requires Inv(w, r, i) && w.canAddAttributes && MapsDeclarable(w.mapper) && !Declarable(uri)
    ensures w.mapper.stack != [] && Doomed(w.AfterDeclare(uri).events, meanings)
  {
    UnmappedPrefixIsName(w.mapper, uri);
    var p := w.mapper.PrefixOf(uri);
    assert p == w.mapper.AfterPush().PrefixOf(uri);
    BadDeclarationDooms(w.events, p, uri, meanings);
  }

  lemma TotalIsMeant(w: Writer, r: Reader, i: Intent)
    requires Inv(w, r, i)
    ensures Total(r) == |i.meanings|
  {
  }

  /** The attribute event of a name that is not one, or that was given before, or with a forbidden value. */
  lemma BadAttributeDooms(w: Writer, r: Reader, i: Intent, prefix: string, name: string, uri: Option<string>, value: string)
    requires Inv(w, r, i) && w.canAddAttributes
    requires if uri.None? then prefix == "" else w.mapper.IsMapped(uri.value) && prefix == w.mapper.InScope()[uri.value]
    requires NCName(name) && XmlText(value) && (uri.None? ==> name != XMLNS) ==> (uri, name) in i.given
    ensures Doomed(w.events + WriteAttributeNS(prefix, name, value), i.meanings + [AttributeIn(uri, name, value)])
  {
    var m := AttributeIn(uri, name, value);
    TotalIsMeant(w, r, i);
    if uri.Some? {
      InScopeResolves(w.mapper, r.AllScopes(), uri.value);
    }
    if name == "" {
      assert w.events + [] == w.events;
      ShortIsDoomed(w.events, r, i.meanings + [m]);
    } else if NCName(name) && XmlText(value) && (uri.None? ==> name != XMLNS) {
      RepeatedAttributeDooms(w, r, i, prefix, name, uri, value);
    } else {
      OddAttributeDooms(w, r, i, prefix, name, m);
    }
  }

  /** An attribute given before stands in the pending tag under the same qualified name. */
  lemma GivenQName(w: Writer, r: Reader, i: Intent, prefix: string, name: string, uri: Option<string>) returns (k: nat)
    requires Inv(w, r, i) && r.pending.Some? && (uri, name) in i.given
    requires if uri.None? then prefix == "" else w.mapper.IsMapped(uri.value) && prefix == w.mapper.InScope()[uri.value]
    requires prefix == "" ==> uri.None?
    ensures k < |r.pending.value.attributes| && r.pending.value.attributes[k].0 == Qualify(prefix, name)
  {
    var rest := i.meanings[|r.items|..];
    k := NamesAreGiven(i.meanings[|r.items| + 1..], i.given, (uri, name));
    assert rest[k + 1] == i.meanings[|r.items| + 1..][k];
    assert AttributeFor(r.pending.value.attributes[k], rest[k + 1], w.mapper.InScope());
  }

  lemma RepeatedAttributeDooms(w: Writer, r: Reader, i: Intent, prefix: string, name: string, uri: Option<string>,
                               value: string)
    requires Inv(w, r, i) && w.canAddAttributes && NCName(name) && XmlText(value) && (uri.None? ==> name != XMLNS)
    requires if uri.None? then prefix == "" else w.mapper.IsMapped(uri.value) && prefix == w.mapper.InScope()[uri.value]
    requires (if prefix == "" then uri.None? else NCName(prefix)) && prefix != XMLNS && (uri, name) in i.given
    ensures Doomed(w.events + [Attribute(Qualify(prefix, name), value)], i.meanings + [AttributeIn(uri, name, value)])
  {
    var tag, qname := r.pending.value, Qualify(prefix, name);
    var k := GivenQName(w, r, i, prefix, name, uri);
    ReadsAsAttribute(tag, prefix, name, value);
    var e, n, attributes := Attribute(qname, value), |tag.attributes|, tag.attributes + [(qname, value)];
    ReadNext(w.events, e, r);
    assert attributes[k].0 == qname == attributes[n].0;
    RepeatedIsDoomed(w.events + [e], r.(pending := Some(tag.(attributes := attributes))),
                     i.meanings + [AttributeIn(uri, name, value)]);
  }

  /** A name that reads as a declaration, or as another name, or not at all, or a value that is not read. */
  lemma OddAttributeDooms(w: Writer, r: Reader, i: Intent, prefix: string, name: string, m: Meaning)
    requires Inv(w, r, i) && w.canAddAttributes && m.AttributeIn? && m.local == name
    requires prefix == "" || NCName(prefix)
    requires XmlText(m.value) ==> !NCName(name) || (prefix == "" && name == XMLNS)
    ensures Doomed(w.events + [Attribute(Qualify(prefix, name), m.value)], i.meanings + [m])
  {
    var tag, qname := r.pending.value, Qualify(prefix, name);
    var e, meanings := Attribute(qname, m.value), i.meanings + [m];
    TotalIsMeant(w, r, i);
    ReadNext(w.events, e, r);
    if prefix != "" {
      SplitNames(prefix, name);
    }
    if ReadEvent(r, e).None? {
      UnreadableIsDoomed(w.events + [e], meanings);
    } else {
      var r' := ReadEvent(r, e).value;
      if IsDeclaration(qname) {
        ShortIsDoomed(w.events + [e], r', meanings);
      } else {
        ImproperName(name);
        var n := |tag.attributes|;
        assert r'.pending.value.attributes == tag.attributes + [(qname, m.value)];
        assert meanings[|r.items| + n + 1] == m;
        MisnamedIsDoomed(w.events + [e], r', meanings, n + 1);
      }
    }
  }

  lemma AttributeEvents(w: Writer, name: string, uri: string, value: string)
    requires w.mapper.stack != [] && StackInv(w.mapper)
    ensures var w1 := w.AfterDeclare(uri);
      && w1.mapper.IsMapped(uri)
      && w.AfterAttribute(name, Some(uri), value).events
         == w1.events + WriteAttributeNS(w1.mapper.InScope()[uri], name, value)
  {
  }

  lemma QualifiedAttributeDooms(w: Writer, r: Reader, i: Intent, name: string, uri: string, value: string)
    requires Inv(w, r, i) && w.canAddAttributes && Declarable(uri)
    requires NCName(name) && XmlText(value) ==> (Some(uri), name) in i.given
    ensures w.mapper.stack != []
    ensures Doomed(w.AfterAttribute(name, Some(uri), value).events, i.meanings + [AttributeIn(Some(uri), name, value)])
  {
    var r1 := DeclareStep(w, r, i, uri);
    var w1 := w.AfterDeclare(uri);
    AttributeEvents(w, name, uri, value);
    BadAttributeDooms(w1, r1, i, w1.mapper.InScope()[uri], name, Some(uri), value);
  }

  lemma AttributeDooms(w: Writer, r: Reader, i: Intent, name: string, uri: Option<string>, value: string)
    requires Inv(w, r, i) && w.canAddAttributes && MapsDeclarable(w.mapper)
    requires !Proper(i, Op.AddAttribute(name, uri, value))
    ensures w.mapper.stack != []
    ensures Doomed(w.AfterAttribute(name, uri, value).events, i.meanings + [AttributeIn(uri, name, value)])
  {
    if uri.None? {
      BadAttributeDooms(w, r, i, "", name, uri, value);
    } else if Declarable(uri.value) {
      QualifiedAttributeDooms(w, r, i, name, uri.value, value);
    } else {
      DeclareDooms(w, r, i, uri.value, i.meanings);
      AttributeEvents(w, name, uri.value, value);
      var w1, m := w.AfterDeclare(uri.value), AttributeIn(uri, name, value);
      DoomedStays(w1.events, i.meanings, WriteAttributeNS(w1.mapper.InScope()[uri.value], name, value), [m]);
    }
  }

  /** Text that may not be written, or that is outside the document element: it is rejected, or not reported. */
  lemma BadTextDooms(w: Writer, r: Reader, i: Intent, content: string, m: Meaning)
    requires Inv(w, r, i) && (i.defaults == [] || !XmlText(content))
    ensures Doomed(w.events + [Text(content)], i.meanings + [m])
  {
    var e := Text(content);
    var closed := ReadNextClosed(w, r, i, e);
    if ReadClosed(closed, e).None? {
      UnreadableIsDoomed(w.events + [e], i.meanings + [m]);
    } else {
      ShortIsDoomed(w.events + [e], closed, i.meanings + [m]);
    }
  }

  lemma QualifiedDataDooms(w: Writer, r: Reader, i: Intent, text: string, uri: string)
    requires Inv(w, r, i) && w.canAddAttributes && Declarable(uri) && !XmlText(text)
    ensures w.mapper.stack != []
    ensures Doomed(w.AfterData(text, Some(uri)).events, i.meanings + [QualifiedText(uri, text)])
  {
    var r1 := DeclareStep(w, r, i, uri);
    var w1 := w.AfterDeclare(uri);
    MappedIsUnchanged(w1.mapper, uri);
    InScopeResolves(w1.mapper, r1.AllScopes(), uri);
    QualifiedIsText(w1.mapper.PrefixOf(uri), text);
    BadTextDooms(w1, r1, i, Qualify(w1.mapper.PrefixOf(uri), text), QualifiedText(uri, text));
  }

  lemma DataDooms(w: Writer, r: Reader, i: Intent, text: string, uri: Option<string>)
    requires Inv(w, r, i) && MapsDeclarable(w.mapper) && Allowed(w, Op.Data(text, uri)) && !Proper(i, Op.Data(text, uri))
    ensures uri.Some? ==> w.mapper.stack != []
    ensures Doomed(w.AfterData(text, uri).events, Intend(i, Op.Data(text, uri)).meanings)
  {
    if uri.None? {
      BadTextDooms(w, r, i, text, PlainText(text));
    } else if Declarable(uri.value) {
      QualifiedDataDooms(w, r, i, text, uri.value);
    } else {
      DeclareDooms(w, r, i, uri.value, i.meanings);
      var w1 := w.AfterDeclare(uri.value);
      DoomedStays(w1.events, i.meanings, [Text(Qualify(w1.mapper.PrefixOf(uri.value), text))],
                  [QualifiedText(uri.value, text)]);
    }
  }

  lemma CommentDooms(w: Writer, r: Reader, i: Intent, comment: string)
    requires Inv(w, r, i) && !CommentText(comment)
    ensures Doomed(w.events + [Comment(comment)], i.meanings)
  {
    var closed := ReadNextClosed(w, r, i, Comment(comment));
    UnreadableIsDoomed(w.events + [Comment(comment)], i.meanings);
  }

  /** The first improper call spoils the document. */
  lemma StepDooms(w: Writer, r: Reader, i: Intent, op: Op)
    requires Inv(w, r, i) && w.WellFormed() && MapsDeclarable(w.mapper) && Allowed(w, op) && !Proper(i, op)
    ensures Doomed(Step(w, op).events, Intend(i, op).meanings)
  {
    match op
    case StartElement(name, uri) => StartDooms(w, r, i, name, uri);
    case StartElementDefaultNamespace(name, uri) => StartDefaultDooms(w, r, i, name, uri);
    case DeclareNamespaceURI(uri) => DeclareDooms(w, r, i, uri, i.meanings);
    case AddAttribute(name, uri, value) => AttributeDooms(w, r, i, name, uri, value);
    case Data(text, uri) => DataDooms(w, r, i, text, uri);
    case WriteComment(comment) => CommentDooms(w, r, i, comment);
  }

  lemma {:induction false} ImproperRunIsDoomed(binds: seq<Binding>, ops: seq<Op>)
    requires Unrefused(binds) && UsableBindings(binds) && Run(Opened(binds), ops).Some? && !ProperCalls(ops)
    ensures Doomed(Run(Opened(binds), ops).value.events, Intended(ops).meanings)
  {
    var front, op := ops[..|ops| - 1], ops[|ops| - 1];
    var w, i := Run(Opened(binds), front).value, Intended(front);
    if ProperCalls(front) {
      var r := RunKeepsInv(binds, front);
      RunMapsDeclarable(binds, front);
      StepDooms(w, r, i, op);
    } else {
      ImproperRunIsDoomed(binds, front);
      var es, ms := StepAppends(w, i, op);
      DoomedStays(w.events, i.meanings, es, ms);
    }
  }

  /** With usable bindings, a document that the writer lets through is well-formed and reads back as intended if and
      only if an element was written and every call was proper: names are names, URIs may be declared, characters are
      allowed, there is one root with all text in it, and no element has two attributes of one name. */
  lemma RoundTripsIffProper(binds: seq<Binding>, ops: seq<Op>)
    requires Unrefused(binds) && UsableBindings(binds) && Run(Opened(binds), ops).Some?
    ensures RoundTrips(binds, ops) <==> ProperDocument(ops)
  {
    if ProperDocument(ops) {
      NamespacesRoundTrip(binds, ops);
    } else if ProperCalls(ops) {
      NoElementNoDocument(binds, ops);
    } else {
      var events, meanings := Run(Opened(binds), ops).value.events, Intended(ops).meanings;
      ImproperRunIsDoomed(binds, ops);
      DoomedFor(events, meanings, [], []);
      assert events + [] == events && meanings + [] == meanings;
    }
  }

  lemma OneEmptyElement(e: Op) returns (ops: seq<Op>)
    requires e.StartElement? && e.uri.None?
    ensures ops == [e, EndElement] && Run(Opened([]), ops).Some? && !MayBegin(Intended(ops))
  {
    var w := Opened([]);
    ops := [e, EndElement];
    RunOne(w, [], e);
    IntendOne([], e);
    assert [] + [e] == [e];
    RunOne(w, [e], EndElement);
    IntendOne([e], EndElement);
    assert [e] + [EndElement] == ops;
  }

  /** The writer lets two roots through. */
  lemma SecondRootFails() returns (ops: seq<Op>)
    ensures ops == [Op.StartElement("e", None), EndElement, Op.StartElement("e", None)]
    ensures Run(Opened([]), ops).Some? && !RoundTrips([], ops)
  {
    var e := Op.StartElement("e", None);
    var two := OneEmptyElement(e);
    ops := [e, EndElement, e];
    RunOne(Opened([]), two, e);
    assert two + [e] == ops && ops[..2] == two;
    RoundTripsIffProper([], ops);
  }

  /** It lets text through where no element is open, and an empty document. */
  lemma NoRootFails()
    ensures Run(Opened([]), [Op.Data("x", None)]).Some? && !RoundTrips([], [Op.Data("x", None)])
    ensures Run(Opened([]), []).Some? && !RoundTrips([], [])
  {
    assert [Op.Data("x", None)][..0] == [];
    RoundTripsIffProper([], [Op.Data("x", None)]);
    RoundTripsIffProper([], []);
  }
}
