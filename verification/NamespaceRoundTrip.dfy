/** A reader gets the caller's URIs back.

    The intent of a document is computed from the calls alone.  The theorem is that whenever the writer's
    own checks let the calls through, reading the written events succeeds and conveys that intent. */
module NamespaceRoundTrip {
  import opened Options
  import opened PrefixMapping
  import opened NamespaceReader
  import opened XmlWriting
  import opened PrefixInvariants

  // ----- The caller's intent

  datatype Meaning =
    | ElementIn(uri: Option<string>, local: string)
    | AttributeIn(uri: Option<string>, local: string, value: string)
    | PlainText(text: string)
    | QualifiedText(textUri: string, text: string)

  type Name = (Option<string>, string)

  /** Meanings in call order; for each open element the default namespace it was given, if any; and the names of
      the attributes given to the latest element. */
  datatype Intent = Intent(meanings: seq<Meaning>, defaults: seq<Option<string>>, given: set<Name>)

  function Innermost(defaults: seq<Option<string>>): Option<string> {
    if defaults == [] then None
    else if defaults[|defaults| - 1].Some? then defaults[|defaults| - 1]
    else Innermost(defaults[..|defaults| - 1])
  }

  /** The namespace of an element written without a prefix; an empty URI means no namespace. */
  function Default(defaults: seq<Option<string>>): Option<string> {
    if Innermost(defaults) == Some("") then None else Innermost(defaults)
  }

  function Intend(i: Intent, op: Op): Intent {
    match op
    case StartElement(name, uri) =>
      Intent(i.meanings + [ElementIn(if uri.Some? then uri else Default(i.defaults), name)], i.defaults + [None], {})
    case StartElementDefaultNamespace(name, uri) =>
      Intent(i.meanings + [ElementIn(Default(i.defaults + [Some(uri)]), name)], i.defaults + [Some(uri)], {})
    case EndElement =>
      i.(defaults := if i.defaults == [] then [] else i.defaults[..|i.defaults| - 1])
    case AddAttribute(name, uri, value) =>
      i.(meanings := i.meanings + [AttributeIn(uri, name, value)], given := i.given + {(uri, name)})
    case Data(text, uri) =>
      i.(meanings := i.meanings + [if uri.Some? then QualifiedText(uri.value, text) else PlainText(text)])
    case _ => i
  }

  predicate Conveys(item: Item, m: Meaning) {
    match m
    case ElementIn(uri, local) => item == Element(uri, local)
    case AttributeIn(uri, local, value) => item == AttributeOf(uri, local, value)
    case PlainText(text) => item.Content? && item.text == text
    case QualifiedText(uri, text) => item.Content? && item.reading == Some((uri, text))
  }

  ghost predicate ConveysAll(items: seq<Item>, meanings: seq<Meaning>) {
    |items| == |meanings| && forall k :: 0 <= k < |items| ==> Conveys(items[k], meanings[k])
  }

  /** Names are names without a prefix; no unprefixed attribute is called "xmlns"; a URI is one that may be
      declared at all; and values, text and comments are made of what they may contain. */
  predicate Expressible(op: Op) {
    match op
    case StartElement(name, uri) => NCName(name) && (uri.Some? ==> Declarable(uri.value))
    case StartElementDefaultNamespace(name, uri) => NCName(name) && MayBeDefault(uri)
    case EndElement => true
    case DeclareNamespaceURI(uri) => Declarable(uri)
    case AddAttribute(name, uri, value) =>
      NCName(name) && XmlText(value) && (if uri.Some? then Declarable(uri.value) else name != XMLNS)
    case Data(text, uri) => XmlText(text) && (uri.Some? ==> Declarable(uri.value))
    case WriteComment(comment) => CommentText(comment)
  }

  /** An element may begin inside another, or as the first of the document. */
  predicate MayBegin(i: Intent) {
    i.defaults != [] || i.meanings == []
  }

  /** Besides, elements have one root, text is inside it, and no element is given two attributes of one name. */
  predicate Proper(i: Intent, op: Op) {
    Expressible(op) &&
    match op
    case StartElement(_, _) => MayBegin(i)
    case StartElementDefaultNamespace(_, _) => MayBegin(i)
    case AddAttribute(name, uri, _) => (uri, name) !in i.given
    case Data(_, _) => i.defaults != []
    case _ => true
  }

  // ----- The invariant that ties the writer, the reader and the intent together

  ghost predicate ElementFor(qname: string, m: Meaning, table: map<string, string>, default: Option<string>) {
    && m.ElementIn? && NCName(m.local)
    && ((qname == m.local && m.uri == default)
        || (m.uri.Some? && m.uri.value in table && qname == Qualify(table[m.uri.value], m.local)))
  }

  ghost predicate AttributeFor(attribute: (string, string), m: Meaning, table: map<string, string>) {
    && m.AttributeIn? && NCName(m.local) && attribute.1 == m.value
    && if m.uri.None? then attribute.0 == m.local
       else m.uri.value in table && attribute.0 == Qualify(table[m.uri.value], m.local)
  }

  function NameOf(m: Meaning): Name
    requires m.AttributeIn?
  {
    (m.uri, m.local)
  }

  /** The attributes given to an element have different names, and `given` is the set of these. */
  ghost predicate GivenFor(attributes: seq<Meaning>, given: set<Name>) {
    if attributes == [] then given == {}
    else
      var n := |attributes| - 1;
      attributes[n].AttributeIn? && NameOf(attributes[n]) in given
      && GivenFor(attributes[..n], given - {NameOf(attributes[n])})
  }

  ghost predicate TagFor(tag: Tag, meanings: seq<Meaning>, table: map<string, string>, default: Option<string>) {
    && |meanings| == |tag.attributes| + 1
    && ElementFor(tag.qname, meanings[0], table, default)
    && forall k :: 0 <= k < |tag.attributes| ==> AttributeFor(tag.attributes[k], meanings[k + 1], table)
  }

  ghost predicate DefaultsInv(defaults: seq<Option<string>>, scopes: seq<map<string, string>>) {
    && |defaults| == |scopes|
    && forall k :: 0 <= k < |scopes| ==>
         defaults[k] == if "" in scopes[k] then Some(scopes[k][""]) else None
  }

  ghost predicate MeaningsInv(r: Reader, i: Intent, table: map<string, string>) {
    var n := |r.items|;
    && n <= |i.meanings|
    && ConveysAll(r.items, i.meanings[..n])
    && if r.pending.None? then n == |i.meanings|
       else TagFor(r.pending.value, i.meanings[n..], table, Default(i.defaults)) && GivenFor(i.meanings[n + 1..], i.given)
  }

  ghost predicate MapperInv(m: Mapper, scopes: seq<map<string, string>>) {
    FixedInv(m) && StackInv(m) && ScopesInv(m, scopes)
  }

  ghost predicate Inv(w: Writer, r: Reader, i: Intent) {
    && ReadFrom(Start, w.events) == Some(r)
    && MapperInv(w.mapper, r.AllScopes())
    && DefaultsInv(i.defaults, r.AllScopes())
    && MeaningsInv(r, i, w.mapper.InScope())
    && (w.canAddAttributes ==> r.pending.Some?)
  }

  // ----- Completing the pending tag

  lemma {:induction false} DefaultResolves(defaults: seq<Option<string>>, scopes: seq<map<string, string>>)
    requires DefaultsInv(defaults, scopes)
    ensures Lookup(scopes, "") == Innermost(defaults)
    ensures DefaultNamespace(scopes) == Default(defaults)
  {
    if scopes != [] {
      DefaultResolves(defaults[..|defaults| - 1], scopes[..|scopes| - 1]);
    }
  }

  lemma ElementResolves(m: Mapper, scopes: seq<map<string, string>>, defaults: seq<Option<string>>,
                        qname: string, meaning: Meaning)
    requires MapperInv(m, scopes) && DefaultsInv(defaults, scopes)
    requires ElementFor(qname, meaning, m.InScope(), Default(defaults))
    ensures ResolveElement(qname, scopes) == Some(Element(meaning.uri, meaning.local))
  {
    if qname == meaning.local && meaning.uri == Default(defaults) {
      SplitNames("", meaning.local);
      DefaultResolves(defaults, scopes);
    } else {
      InScopeResolves(m, scopes, meaning.uri.value);
      SplitNames(m.InScope()[meaning.uri.value], meaning.local);
    }
  }

  lemma AttributeResolves(m: Mapper, scopes: seq<map<string, string>>, attribute: (string, string), meaning: Meaning)
    requires MapperInv(m, scopes)
    requires AttributeFor(attribute, meaning, m.InScope())
    ensures ResolveAttribute(attribute, scopes) == Some(AttributeOf(meaning.uri, meaning.local, meaning.value))
  {
    if meaning.uri.None? {
      SplitNames("", meaning.local);
    } else {
      InScopeResolves(m, scopes, meaning.uri.value);
      SplitNames(m.InScope()[meaning.uri.value], meaning.local);
    }
  }

  lemma {:induction false} AttributesResolve(m: Mapper, scopes: seq<map<string, string>>,
                                           attributes: seq<(string, string)>, meanings: seq<Meaning>)
    requires MapperInv(m, scopes) && |meanings| == |attributes|
    requires forall k :: 0 <= k < |attributes| ==> AttributeFor(attributes[k], meanings[k], m.InScope())
    ensures ResolveAttributes(attributes, scopes).Some?
    ensures ConveysAll(ResolveAttributes(attributes, scopes).value, meanings)
  {
    if attributes != [] {
      var n := |attributes| - 1;
      AttributesResolve(m, scopes, attributes[..n], meanings[..n]);
      AttributeResolves(m, scopes, attributes[n], meanings[n]);
      var front, item := ResolveAttributes(attributes[..n], scopes).value, ResolveAttribute(attributes[n], scopes).value;
      assert ResolveAttributes(attributes, scopes) == Some(front + [item]);
      ConveysOneMore(front, meanings[..n], item, meanings[n]);
      assert meanings[..n] + [meanings[n]] == meanings;
    }
  }

  /** Each attribute's name is in the set, and each name in the set is an attribute's. */
  lemma {:induction false} GivenAreNames(attributes: seq<Meaning>, given: set<Name>, k: nat)
    requires GivenFor(attributes, given) && k < |attributes|
    ensures attributes[k].AttributeIn? && NameOf(attributes[k]) in given
  {
    var n := |attributes| - 1;
    if k < n {
      GivenAreNames(attributes[..n], given - {NameOf(attributes[n])}, k);
    }
  }

  lemma {:induction false} NamesAreGiven(attributes: seq<Meaning>, given: set<Name>, g: Name) returns (k: nat)
    requires GivenFor(attributes, given) && g in given
    ensures k < |attributes| && attributes[k].AttributeIn? && NameOf(attributes[k]) == g
  {
    k := |attributes| - 1;
    if NameOf(attributes[k]) != g {
      k := NamesAreGiven(attributes[..k], given - {NameOf(attributes[k])}, g);
    }
  }

  lemma {:induction false} ConveyedNamesAreUnique(items: seq<Item>, attributes: seq<Meaning>, given: set<Name>)
    requires ConveysAll(items, attributes) && GivenFor(attributes, given)
    ensures UniqueNames(items)
  {
    if attributes != [] {
      var n := |attributes| - 1;
      var g := NameOf(attributes[n]);
      ConveyedNamesAreUnique(items[..n], attributes[..n], given - {g});
      forall j | 0 <= j < n ensures !SameName(items[j], items[n]) {
        GivenAreNames(attributes[..n], given - {g}, j);
        assert Conveys(items[j], attributes[j]) && Conveys(items[n], attributes[n]);
      }
      assert forall j, k :: 0 <= j < k < n ==> !SameName(items[..n][j], items[..n][k]);
    }
  }

  /** A tag and its attributes, once they are complete. */
  lemma TagResolves(m: Mapper, scopes: seq<map<string, string>>, defaults: seq<Option<string>>, tag: Tag,
                    meanings: seq<Meaning>, given: set<Name>) returns (items: seq<Item>)
    requires MapperInv(m, scopes) && DefaultsInv(defaults, scopes)
    requires TagFor(tag, meanings, m.InScope(), Default(defaults)) && GivenFor(meanings[1..], given)
    ensures ResolveElement(tag.qname, scopes).Some? && ResolveAttributes(tag.attributes, scopes).Some?
    ensures UniqueNames(ResolveAttributes(tag.attributes, scopes).value)
    ensures items == [ResolveElement(tag.qname, scopes).value] + ResolveAttributes(tag.attributes, scopes).value
    ensures ConveysAll(items, meanings)
  {
    var attributes := meanings[1..];
    ElementResolves(m, scopes, defaults, tag.qname, meanings[0]);
    forall k | 0 <= k < |tag.attributes| ensures AttributeFor(tag.attributes[k], attributes[k], m.InScope()) {
      assert AttributeFor(tag.attributes[k], meanings[k + 1], m.InScope());
    }
    AttributesResolve(m, scopes, tag.attributes, attributes);
    var resolved := ResolveAttributes(tag.attributes, scopes).value;
    ConveyedNamesAreUnique(resolved, attributes, given);
    items := [ResolveElement(tag.qname, scopes).value] + resolved;
    ConveysBoth([items[0]], [meanings[0]], resolved, attributes);
    assert [meanings[0]] + attributes == meanings;
  }

  lemma ConveysBoth(items: seq<Item>, meanings: seq<Meaning>, more: seq<Item>, later: seq<Meaning>)
    requires ConveysAll(items, meanings) && ConveysAll(more, later)
    ensures ConveysAll(items + more, meanings + later)
  {
  }

  lemma CloseAppends(r: Reader, items: seq<Item>)
    requires r.pending.Some?
    requires ResolveElement(r.pending.value.qname, r.AllScopes()).Some?
    requires ResolveAttributes(r.pending.value.attributes, r.AllScopes()).Some?
    requires UniqueNames(ResolveAttributes(r.pending.value.attributes, r.AllScopes()).value)
    requires items == [ResolveElement(r.pending.value.qname, r.AllScopes()).value]
                      + ResolveAttributes(r.pending.value.attributes, r.AllScopes()).value
    ensures Close(r) == Some(Reader(r.items + items, r.AllScopes(), None))
    ensures Close(r).value.AllScopes() == r.AllScopes()
  {
    assert Close(r).value.items == r.items + items;
  }

  lemma CloseConveys(m: Mapper, r: Reader, i: Intent)
    requires MapperInv(m, r.AllScopes()) && DefaultsInv(i.defaults, r.AllScopes())
    requires MeaningsInv(r, i, m.InScope())
    ensures Close(r).Some?
    ensures Close(r).value == Reader(Close(r).value.items, r.AllScopes(), None)
    ensures Close(r).value.AllScopes() == r.AllScopes()
    ensures ConveysAll(Close(r).value.items, i.meanings)
  {
    var n := |r.items|;
    if r.pending.None? {
      assert i.meanings[..n] == i.meanings;
    } else {
      var rest := i.meanings[n..];
      assert rest[1..] == i.meanings[n + 1..];
      var items := TagResolves(m, r.AllScopes(), i.defaults, r.pending.value, rest, i.given);
      CloseAppends(r, items);
      ConveysBoth(r.items, i.meanings[..n], items, rest);
      assert i.meanings[..n] + rest == i.meanings;
    }
  }

  // ----- One call at a time

  lemma ReadNext(events: seq<Event>, e: Event, r: Reader)
    requires ReadFrom(Start, events) == Some(r)
    ensures ReadFrom(Start, events + [e]) == ReadEvent(r, e)
  {
  }

  /** Any event but an attribute completes the pending tag first, which conveys everything meant so far. */
  lemma ReadNextClosed(w: Writer, r: Reader, i: Intent, e: Event) returns (closed: Reader)
    requires Inv(w, r, i) && !e.Attribute?
    ensures closed.pending.None? && closed.scopes == r.AllScopes() == closed.AllScopes()
    ensures ConveysAll(closed.items, i.meanings)
    ensures ReadFrom(Start, w.events + [e]) == ReadClosed(closed, e)
  {
    CloseConveys(w.mapper, r, i);
    closed := Close(r).value;
    ReadNext(w.events, e, r);
  }

  lemma PushKeepsMapper(m: Mapper, scopes: seq<map<string, string>>, scope: map<string, string>)
    requires MapperInv(m, scopes) && forall p :: p in scope ==> p == ""
    ensures MapperInv(m.AfterPush(), scopes + [scope])
  {
    PushKeepsStack(m);
    PushKeepsScopes(m, scopes, scope);
  }

  lemma PopKeepsMapper(m: Mapper, scopes: seq<map<string, string>>)
    requires MapperInv(m, scopes) && m.stack != []
    ensures MapperInv(m.AfterPop(), scopes[..|scopes| - 1])
  {
    PopKeepsStack(m);
    PopKeepsScopes(m, scopes);
  }

  /** A start tag opens an empty scope. */
  lemma OpenTag(w: Writer, r: Reader, i: Intent, qname: string) returns (tagged: Reader)
    requires Inv(w, r, i) && IsQName(qname) && MayBegin(i)
    ensures ReadFrom(Start, w.events + [StartTag(qname)]) == Some(tagged)
    ensures tagged.pending == Some(Tag(qname, map[], []))
    ensures tagged.scopes == r.AllScopes() && tagged.AllScopes() == r.AllScopes() + [map[]]
    ensures ConveysAll(tagged.items, i.meanings)
    ensures MapperInv(w.mapper.AfterPush(), tagged.AllScopes())
    ensures DefaultsInv(i.defaults + [None], tagged.AllScopes())
  {
    var closed := ReadNextClosed(w, r, i, StartTag(qname));
    tagged := closed.(pending := Some(Tag(qname, map[], [])));
    PushKeepsMapper(w.mapper, r.AllScopes(), map[]);
  }

  lemma ReadsAsDeclaration(tag: Tag, p: string, u: string)
    requires p != ""
    ensures ReadAttribute(tag, Qualify(XMLNS, p), u) ==
      if !NCName(p) || p in tag.declared || !MayDeclare(p, u) then None
      else Some(tag.(declared := tag.declared[p := u]))
  {
    XmlNamesAreNames();
    SplitNames(XMLNS, p);
    assert |Qualify(XMLNS, p)| > |XMLNS|;
  }

  /** Declaring an unmapped URI in the pending tag. */
  lemma Declare(m: Mapper, r: Reader, u: string) returns (declared: Reader)
    requires r.pending.Some? && MapperInv(m, r.AllScopes()) && !m.IsMapped(u) && Declarable(u)
    ensures m.stack != [] && NCName(m.PrefixOf(u))
    ensures ReadEvent(r, Attribute(Qualify(XMLNS, m.PrefixOf(u)), u)) == Some(declared)
    ensures declared == r.(pending := declared.pending) && declared.pending.Some?
    ensures declared.pending == Some(r.pending.value.(declared := r.pending.value.declared[m.PrefixOf(u) := u]))
    ensures MapperInv(m.AfterGetPrefix(u), declared.AllScopes())
    ensures Extends(m.AfterGetPrefix(u).InScope(), m.InScope())
    ensures u in m.AfterGetPrefix(u).InScope() && m.AfterGetPrefix(u).InScope()[u] == m.PrefixOf(u)
  {
    DeclarationIsLegal(m, r.AllScopes(), u);
    var p, n, tag := m.PrefixOf(u), |r.scopes|, r.pending.value;
    ReadsAsDeclaration(tag, p, u);
    declared := r.(pending := Some(tag.(declared := tag.declared[p := u])));
    assert declared.AllScopes() == r.AllScopes()[n := r.AllScopes()[n][p := u]];
  }

  lemma DeclareKeepsDefaults(defaults: seq<Option<string>>, r: Reader, declared: Reader, p: string, u: string)
    requires DefaultsInv(defaults, r.AllScopes()) && r.pending.Some? && p != ""
    requires declared == r.(pending := Some(r.pending.value.(declared := r.pending.value.declared[p := u])))
    ensures DefaultsInv(defaults, declared.AllScopes())
  {
  }

  lemma MappedIsUnchanged(m: Mapper, u: string)
    requires StackInv(m) && m.IsMapped(u)
    ensures m.AfterGetPrefix(u) == m && m.PrefixOf(u) == m.InScope()[u]
  {
  }

  lemma NoDefaultAdded(defaults: seq<Option<string>>)
    ensures Default(defaults + [None]) == Default(defaults)
  {
  }

  /** Everything the invariant asks of a tag that has just been opened and declared. */
  lemma Begun(m: Mapper, events: seq<Event>, r: Reader, earlier: seq<Meaning>, meaning: Meaning, qname: string,
              declared: map<string, string>, defaults: seq<Option<string>>)
    requires ReadFrom(Start, events) == Some(r) && r.pending == Some(Tag(qname, declared, []))
    requires MapperInv(m, r.AllScopes()) && DefaultsInv(defaults, r.AllScopes())
    requires ConveysAll(r.items, earlier) && ElementFor(qname, meaning, m.InScope(), Default(defaults))
    ensures Inv(Writer(m, true, events), r, Intent(earlier + [meaning], defaults, {}))
  {
  }

  lemma MappedEvents(w: Writer, name: string, uri: Option<string>, prefix: string)
    requires uri.Some? ==> w.mapper.IsMapped(uri.value) && StackInv(w.mapper)
    requires prefix == if uri.None? then "" else w.mapper.InScope()[uri.value]
    ensures w.AfterStart(name, uri) == Writer(w.mapper.AfterPush(), true, w.events + [StartTag(Qualify(prefix, name))])
  {
    assert w.events + [StartTag(Qualify(prefix, name))] + [] == w.events + [StartTag(Qualify(prefix, name))];
  }

  lemma StartMapped(w: Writer, r: Reader, i: Intent, name: string, uri: Option<string>) returns (r': Reader)
    requires Inv(w, r, i) && NCName(name) && MayBegin(i) && (uri.Some? ==> w.mapper.IsMapped(uri.value))
    ensures Inv(w.AfterStart(name, uri), r', Intend(i, Op.StartElement(name, uri)))
  {
    var prefix := if uri.None? then "" else w.mapper.InScope()[uri.value];
    var qname := Qualify(prefix, name);
    if uri.Some? {
      InScopeResolves(w.mapper, r.AllScopes(), uri.value);
    }
    SplitNames(prefix, name);
    r' := OpenTag(w, r, i, qname);
    NoDefaultAdded(i.defaults);
    var meaning := ElementIn(if uri.Some? then uri else Default(i.defaults), name);
    Begun(w.mapper.AfterPush(), w.events + [StartTag(qname)], r', i.meanings, meaning, qname, map[],
          i.defaults + [None]);
    MappedEvents(w, name, uri, prefix);
  }

  lemma UnmappedEvents(w: Writer, name: string, uri: string, prefix: string)
    requires !w.mapper.IsMapped(uri) && prefix == w.mapper.AfterPush().PrefixOf(uri) && prefix != ""
    ensures w.AfterStart(name, Some(uri)) ==
      Writer(w.mapper.AfterPush().AfterGetPrefix(uri), true,
             w.events + [StartTag(Qualify(prefix, name))] + [Attribute(Qualify(XMLNS, prefix), uri)])
  {
  }

  lemma UnmappedPrefixIsName(m: Mapper, uri: string)
    requires FixedInv(m) && StackInv(m)
    ensures NCName(m.AfterPush().PrefixOf(uri))
  {
    XmlNamesAreNames();
    if uri !in m.InScope() {
      NewPrefixIsFree(m, uri);
    }
  }

  lemma StartUnmapped(w: Writer, r: Reader, i: Intent, name: string, uri: string) returns (r': Reader)
    requires Inv(w, r, i) && NCName(name) && MayBegin(i) && !w.mapper.IsMapped(uri) && Declarable(uri)
    ensures Inv(w.AfterStart(name, Some(uri)), r', Intend(i, Op.StartElement(name, Some(uri))))
  {
    var m := w.mapper.AfterPush();
    var prefix := m.PrefixOf(uri);
    var qname := Qualify(prefix, name);
    UnmappedPrefixIsName(w.mapper, uri);
    SplitNames(prefix, name);
    var tagged := OpenTag(w, r, i, qname);
    r' := Declare(m, tagged, uri);
    var declaration := Attribute(Qualify(XMLNS, prefix), uri);
    ReadNext(w.events + [StartTag(qname)], declaration, tagged);
    DeclareKeepsDefaults(i.defaults + [None], tagged, r', prefix, uri);
    var events := w.events + [StartTag(qname)] + [declaration];
    Begun(m.AfterGetPrefix(uri), events, r', i.meanings, ElementIn(Some(uri), name), qname,
          r'.pending.value.declared, i.defaults + [None]);
    UnmappedEvents(w, name, uri, prefix);
  }

  /** The default namespace declared in a tag that was just opened. */
  lemma DeclareDefault(events: seq<Event>, tagged: Reader, name: string, uri: string) returns (r': Reader)
    requires ReadFrom(Start, events) == Some(tagged) && tagged.pending == Some(Tag(name, map[], []))
    requires MayBeDefault(uri)
    ensures ReadFrom(Start, events + [Attribute(XMLNS, uri)]) == Some(r')
    ensures r' == tagged.(pending := Some(Tag(name, map["" := uri], [])))
    ensures r'.AllScopes() == tagged.scopes + [map["" := uri]]
  {
    XmlNamesAreNames();
    SplitNames("", XMLNS);
    ReadNext(events, Attribute(XMLNS, uri), tagged);
    r' := tagged.(pending := Some(Tag(name, map["" := uri], [])));
  }

  lemma DefaultAdded(defaults: seq<Option<string>>, scopes: seq<map<string, string>>, uri: string)
    requires DefaultsInv(defaults, scopes)
    ensures DefaultsInv(defaults + [Some(uri)], scopes + [map["" := uri]])
  {
  }

  lemma DefaultEvents(w: Writer, name: string, uri: string)
    ensures w.AfterStartDefault(name, uri) ==
      Writer(w.mapper.AfterPush(), true, w.events + [StartTag(name)] + [Attribute(XMLNS, uri)])
  {
  }

  lemma StartDefaultStep(w: Writer, r: Reader, i: Intent, name: string, uri: string) returns (r': Reader)
    requires Inv(w, r, i) && NCName(name) && MayBegin(i) && MayBeDefault(uri)
    ensures Inv(w.AfterStartDefault(name, uri), r', Intend(i, Op.StartElementDefaultNamespace(name, uri)))
  {
    SplitNames("", name);
    var tagged := OpenTag(w, r, i, name);
    r' := DeclareDefault(w.events + [StartTag(name)], tagged, name, uri);
    PushKeepsMapper(w.mapper, r.AllScopes(), map["" := uri]);
    var defaults := i.defaults + [Some(uri)];
    DefaultAdded(i.defaults, r.AllScopes(), uri);
    var events := w.events + [StartTag(name)] + [Attribute(XMLNS, uri)];
    Begun(w.mapper.AfterPush(), events, r', i.meanings, ElementIn(Default(defaults), name), name, map["" := uri],
          defaults);
    DefaultEvents(w, name, uri);
  }

  lemma PopKeepsDefaults(defaults: seq<Option<string>>, scopes: seq<map<string, string>>)
    requires DefaultsInv(defaults, scopes) && scopes != []
    ensures DefaultsInv(defaults[..|defaults| - 1], scopes[..|scopes| - 1])
  {
  }

  /** A URI going out of scope takes its declaration with it. */
  lemma EndStep(w: Writer, r: Reader, i: Intent) returns (r': Reader)
    requires Inv(w, r, i) && w.mapper.stack != []
    ensures Inv(w.AfterEnd(), r', Intend(i, Op.EndElement))
  {
    var closed := ReadNextClosed(w, r, i, EndTag);
    r' := closed.(scopes := closed.scopes[..|closed.scopes| - 1]);
    PopKeepsMapper(w.mapper, r.AllScopes());
    PopKeepsDefaults(i.defaults, r.AllScopes());
    assert r'.AllScopes() == r.AllScopes()[..|r.AllScopes()| - 1];
    Conveyed(r', Intend(i, Op.EndElement), w.AfterEnd().mapper.InScope());
  }

  lemma TableGrows(r: Reader, r': Reader, i: Intent, table: map<string, string>, table': map<string, string>)
    requires MeaningsInv(r, i, table) && Extends(table', table)
    requires r.pending.Some? && r'.pending.Some? && r'.items == r.items
    requires r'.pending.value.qname == r.pending.value.qname
    requires r'.pending.value.attributes == r.pending.value.attributes
    ensures MeaningsInv(r', i, table')
  {
  }

  lemma DeclareStep(w: Writer, r: Reader, i: Intent, uri: string) returns (r': Reader)
    requires Inv(w, r, i) && w.canAddAttributes && Declarable(uri)
    ensures w.mapper.stack != []
    ensures Inv(w.AfterDeclare(uri), r', i)
    ensures w.AfterDeclare(uri).mapper.IsMapped(uri) && w.AfterDeclare(uri).canAddAttributes
  {
    r' := r;
    if !w.mapper.IsMapped(uri) {
      r' := Declare(w.mapper, r, uri);
      var p, m' := w.mapper.PrefixOf(uri), w.mapper.AfterGetPrefix(uri);
      ReadNext(w.events, Attribute(Qualify(XMLNS, p), uri), r);
      DeclareKeepsDefaults(i.defaults, r, r', p, uri);
      TableGrows(r, r', i, w.mapper.InScope(), m'.InScope());
    }
  }

  lemma ReadsAsAttribute(tag: Tag, prefix: string, name: string, value: string)
    requires (prefix == "" || NCName(prefix)) && prefix != XMLNS && NCName(name) && (prefix == "" ==> name != XMLNS)
    requires XmlText(value)
    ensures ReadAttribute(tag, Qualify(prefix, name), value)
            == Some(tag.(attributes := tag.attributes + [(Qualify(prefix, name), value)]))
  {
    SplitNames(prefix, name);
    if prefix != "" {
      assert Qualify(prefix, name)[|prefix|] == ':';
      assert ':' in Qualify(prefix, name);
    }
  }

  lemma GiveOneMore(attributes: seq<Meaning>, given: set<Name>, m: Meaning)
    requires GivenFor(attributes, given) && m.AttributeIn? && NameOf(m) !in given
    ensures GivenFor(attributes + [m], given + {NameOf(m)})
  {
    assert (attributes + [m])[..|attributes|] == attributes;
    assert given + {NameOf(m)} - {NameOf(m)} == given;
  }

  lemma AppendAttribute(r: Reader, r': Reader, i: Intent, meaning: Meaning, attribute: (string, string),
                        table: map<string, string>)
    requires MeaningsInv(r, i, table) && r.pending.Some? && AttributeFor(attribute, meaning, table)
    requires r' == r.(pending := Some(r.pending.value.(attributes := r.pending.value.attributes + [attribute])))
    requires (meaning.uri, meaning.local) !in i.given
    ensures MeaningsInv(r', i.(meanings := i.meanings + [meaning], given := i.given + {(meaning.uri, meaning.local)}), table)
  {
    var n := |r.items|;
    GiveOneMore(i.meanings[n + 1..], i.given, meaning);
    assert (i.meanings + [meaning])[n + 1..] == i.meanings[n + 1..] + [meaning];
  }

  /** One more attribute in the pending tag. */
  lemma AttributeRead(w: Writer, r: Reader, i: Intent, qname: string, meaning: Meaning) returns (r': Reader)
    requires Inv(w, r, i) && w.canAddAttributes && meaning.AttributeIn? && NameOf(meaning) !in i.given
    requires AttributeFor((qname, meaning.value), meaning, w.mapper.InScope())
    requires var tag := r.pending.value;
      ReadAttribute(tag, qname, meaning.value)
      == Some(tag.(attributes := tag.attributes + [(qname, meaning.value)]))
    ensures Inv(w.(events := w.events + [Attribute(qname, meaning.value)]), r',
                i.(meanings := i.meanings + [meaning], given := i.given + {NameOf(meaning)}))
  {
    var tag := r.pending.value;
    r' := r.(pending := Some(tag.(attributes := tag.attributes + [(qname, meaning.value)])));
    ReadNext(w.events, Attribute(qname, meaning.value), r);
    AppendAttribute(r, r', i, meaning, (qname, meaning.value), w.mapper.InScope());
    assert r'.AllScopes() == r.AllScopes();
  }

  /** An attribute whose URI is mapped, or that has none. */
  lemma WriteAttribute(w: Writer, r: Reader, i: Intent, name: string, uri: Option<string>, value: string)
      returns (r': Reader)
    requires Inv(w, r, i) && w.canAddAttributes && NCName(name) && XmlText(value)
    requires if uri.Some? then w.mapper.IsMapped(uri.value) else name != XMLNS
    requires (uri, name) !in i.given
    ensures var qname := Qualify(if uri.Some? then w.mapper.InScope()[uri.value] else "", name);
      Inv(w.(events := w.events + [Attribute(qname, value)]), r',
          i.(meanings := i.meanings + [AttributeIn(uri, name, value)], given := i.given + {(uri, name)}))
  {
    var prefix := if uri.Some? then w.mapper.InScope()[uri.value] else "";
    if uri.Some? {
      InScopeResolves(w.mapper, r.AllScopes(), uri.value);
    }
    ReadsAsAttribute(r.pending.value, prefix, name, value);
    r' := AttributeRead(w, r, i, Qualify(prefix, name), AttributeIn(uri, name, value));
  }

  lemma AttributeWritten(w: Writer, name: string, uri: Option<string>, value: string)
    requires w.mapper.stack != [] && StackInv(w.mapper) && name != ""
    ensures var w1 := if uri.None? then w else w.AfterDeclare(uri.value);
      && (uri.Some? ==> w1.mapper.IsMapped(uri.value))
      && var prefix := if uri.None? then "" else w1.mapper.InScope()[uri.value];
         w.AfterAttribute(name, uri, value) == w1.(events := w1.events + [Attribute(Qualify(prefix, name), value)])
  {
  }

  lemma AttributeStep(w: Writer, r: Reader, i: Intent, name: string, uri: Option<string>, value: string)
      returns (r': Reader)
    requires Inv(w, r, i) && w.canAddAttributes && Proper(i, Op.AddAttribute(name, uri, value))
    ensures w.mapper.stack != []
    ensures Inv(w.AfterAttribute(name, uri, value), r', Intend(i, Op.AddAttribute(name, uri, value)))
  {
    AttributeWritten(w, name, uri, value);
    if uri.None? {
      r' := WriteAttribute(w, r, i, name, uri, value);
    } else {
      var r1 := DeclareStep(w, r, i, uri.value);
      r' := WriteAttribute(w.AfterDeclare(uri.value), r1, i, name, uri, value);
    }
  }

  lemma Conveyed(r: Reader, i: Intent, table: map<string, string>)
    requires r.pending.None? && ConveysAll(r.items, i.meanings)
    ensures MeaningsInv(r, i, table)
  {
  }

  lemma ReadsAsQName(m: Mapper, scopes: seq<map<string, string>>, uri: string, text: string)
    requires MapperInv(m, scopes) && m.IsMapped(uri)
    ensures ReadQName(Qualify(m.InScope()[uri], text), scopes) == Some((uri, text))
  {
    InScopeResolves(m, scopes, uri);
    SplitNames(m.InScope()[uri], text);
  }

  /** Nothing is pending and the scopes are as they were. */
  lemma StillTracked(w: Writer, r: Reader, i: Intent, w': Writer, r': Reader, meanings: seq<Meaning>)
    requires Inv(w, r, i) && ReadFrom(Start, w'.events) == Some(r')
    requires w'.mapper == w.mapper && !w'.canAddAttributes
    requires r'.pending.None? && r'.scopes == r.AllScopes() && ConveysAll(r'.items, meanings)
    ensures Inv(w', r', i.(meanings := meanings))
  {
    assert r'.AllScopes() == r.AllScopes();
    Conveyed(r', i.(meanings := meanings), w.mapper.InScope());
  }

  lemma ConveysOneMore(items: seq<Item>, meanings: seq<Meaning>, item: Item, m: Meaning)
    requires ConveysAll(items, meanings) && Conveys(item, m)
    ensures ConveysAll(items + [item], meanings + [m])
  {
  }

  /** Text completes the start tag; its prefix is read in the scopes of the element it is in. */
  lemma WriteText(w: Writer, r: Reader, i: Intent, content: string, m: Meaning) returns (r': Reader)
    requires Inv(w, r, i) && i.defaults != [] && XmlText(content)
    requires Conveys(Content(content, ReadQName(content, r.AllScopes())), m)
    ensures Inv(w.(canAddAttributes := false, events := w.events + [Text(content)]), r',
                i.(meanings := i.meanings + [m]))
  {
    var closed := ReadNextClosed(w, r, i, Text(content));
    var item := Content(content, ReadQName(content, r.AllScopes()));
    ConveysOneMore(closed.items, i.meanings, item, m);
    r' := closed.(items := closed.items + [item]);
    var w' := w.(canAddAttributes := false, events := w.events + [Text(content)]);
    StillTracked(w, r, i, w', r', i.meanings + [m]);
  }

  lemma QualifiedDataStep(w: Writer, r: Reader, i: Intent, text: string, uri: string) returns (r': Reader)
    requires Inv(w, r, i) && w.canAddAttributes && Declarable(uri) && XmlText(text)
    ensures w.mapper.stack != []
    ensures Inv(w.AfterData(text, Some(uri)), r', i.(meanings := i.meanings + [QualifiedText(uri, text)]))
  {
    var r1 := DeclareStep(w, r, i, uri);
    var w1 := w.AfterDeclare(uri);
    MappedIsUnchanged(w1.mapper, uri);
    ReadsAsQName(w1.mapper, r1.AllScopes(), uri, text);
    InScopeResolves(w1.mapper, r1.AllScopes(), uri);
    QualifiedIsText(w1.mapper.InScope()[uri], text);
    var content := Qualify(w1.mapper.PrefixOf(uri), text);
    assert w.AfterData(text, Some(uri)) == w1.(canAddAttributes := false, events := w1.events + [Text(content)]);
    r' := WriteText(w1, r1, i, content, QualifiedText(uri, text));
  }

  lemma CommentStep(w: Writer, r: Reader, i: Intent, comment: string) returns (r': Reader)
    requires Inv(w, r, i) && CommentText(comment)
    ensures Inv(w.(canAddAttributes := false, events := w.events + [Comment(comment)]), r', i)
  {
    r' := ReadNextClosed(w, r, i, Comment(comment));
    StillTracked(w, r, i, w.(canAddAttributes := false, events := w.events + [Comment(comment)]), r', i.meanings);
  }

  lemma StepKeepsInv(w: Writer, r: Reader, i: Intent, op: Op) returns (r': Reader)
    requires Inv(w, r, i) && w.WellFormed() && Allowed(w, op) && Proper(i, op)
    ensures Inv(Step(w, op), r', Intend(i, op))
  {
    match op
    case StartElement(name, uri) =>
      if uri.None? || w.mapper.IsMapped(uri.value) {
        r' := StartMapped(w, r, i, name, uri);
      } else {
        r' := StartUnmapped(w, r, i, name, uri.value);
      }
    case StartElementDefaultNamespace(name, uri) => r' := StartDefaultStep(w, r, i, name, uri);
    case EndElement => r' := EndStep(w, r, i);
    case DeclareNamespaceURI(uri) => r' := DeclareStep(w, r, i, uri);
    case AddAttribute(name, uri, value) => r' := AttributeStep(w, r, i, name, uri, value);
    case Data(text, uri) =>
      if uri.None? {
        r' := WriteText(w, r, i, text, PlainText(text));
      } else {
        r' := QualifiedDataStep(w, r, i, text, uri.value);
      }
    case WriteComment(comment) => r' := CommentStep(w, r, i, comment);
  }
}
