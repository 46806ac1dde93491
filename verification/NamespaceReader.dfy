/** A namespace-aware reader of a written document.

    It accepts well-formed documents of XML 1.0 only: one document element, no other text outside it than white
    space, no two hyphens in a row in comments or at their end, and nothing but
    the characters of section 2.2 in text, values and comments.  Elements still open at the end are closed there.
    It follows Namespaces in XML 1.0: a prefix denotes the URI of the innermost declaration in scope
    (section 6.1), the default namespace applies to unprefixed elements but not to attributes (section 6.2),
    the prefixes "xml" and "xmlns" are fixed (section 3), names are qualified names (section 4), and a start tag
    may neither declare a prefix twice nor have two attributes of one expanded name (section 6.3).
    The document is the list of calls that reached the underlying text writer. */
module NamespaceReader {
  import opened Options
  import opened PrefixMapping

  datatype Event =
    | StartTag(qname: string)
    | Attribute(qname: string, value: string)
    | Text(content: string)
    | Comment(content: string)
    | EndTag

  /** What the reader reports: names with their URIs, and text together with its reading as a qualified name. */
  datatype Item =
    | Element(uri: Option<string>, local: string)
    | AttributeOf(uri: Option<string>, local: string, value: string)
    | Content(text: string, reading: Option<(string, string)>)

  /** A start tag that may still get attributes; its names are resolved once it is complete. */
  datatype Tag = Tag(qname: string, declared: map<string, string>, attributes: seq<(string, string)>)

  /** One scope for each open element; the default namespace is declared under the empty prefix. */
  datatype Reader = Reader(items: seq<Item>, scopes: seq<map<string, string>>, pending: Option<Tag>)
  {
    /** All scopes, the pending tag's included. */
    function AllScopes(): seq<map<string, string>> {
      scopes + (if pending.Some? then [pending.value.declared] else [])
    }
  }

  const Start: Reader := Reader([], [], None)

  // ----- Qualified names

  function ColonAt(q: string): (k: nat)
    ensures k <= |q| && ':' !in q[..k] && (k < |q| ==> q[k] == ':')
  {
    if q == [] || q[0] == ':' then 0 else 1 + ColonAt(q[1..])
  }

  /** The prefix, if there is a colon, and the local name. */
  function SplitQName(q: string): (Option<string>, string) {
    var k := ColonAt(q);
    if k == |q| then (None, q) else (Some(q[..k]), q[k + 1..])
  }

  /** The characters that may begin a name: NameStartChar of XML 1.0 (fifth edition), without the colon. */
  predicate IsNameStart(c: char) {
    var n := c as int;
    || 'A' <= c <= 'Z' || c == '_' || 'a' <= c <= 'z' || 0xC0 <= n <= 0xD6 || 0xD8 <= n <= 0xF6
    || 0xF8 <= n <= 0x2FF || 0x370 <= n <= 0x37D || 0x37F <= n <= 0x1FFF || 0x200C <= n <= 0x200D
    || 0x2070 <= n <= 0x218F || 0x2C00 <= n <= 0x2FEF || 0x3001 <= n <= 0xD7FF || 0xF900 <= n <= 0xFDCF
    || 0xFDF0 <= n <= 0xFFFD || 0x10000 <= n <= 0xEFFFF
  }

  predicate IsNameChar(c: char) {
    var n := c as int;
    IsNameStart(c) || c == '-' || c == '.' || '0' <= c <= '9' || n == 0xB7 || 0x300 <= n <= 0x36F || 0x203F <= n <= 0x2040
  }

  /** The production Char of XML 1.0. */
  predicate IsXmlChar(c: char) {
    var n := c as int;
    n == 9 || n == 10 || n == 13 || 0x20 <= n <= 0xD7FF || 0xE000 <= n <= 0xFFFD || 0x10000 <= n <= 0x10FFFF
  }

  predicate XmlText(s: string) {
    forall i :: 0 <= i < |s| ==> IsXmlChar(s[i])
  }

  /** The production S, or nothing. */
  predicate WhiteSpace(s: string) {
    forall c <- s :: c == ' ' || c == '\t' || c == '\r' || c == '\n'
  }

  /** A hyphen before another one, or before the end. */
  predicate EndsComment(s: string, i: nat)
    requires i < |s|
  {
    s[i] == '-' && (i + 1 == |s| || s[i + 1] == '-')
  }

  predicate CommentText(s: string) {
    XmlText(s) && forall i :: 0 <= i < |s| ==> !EndsComment(s, i)
  }

  /** A name without a colon. */
  predicate NCName(s: string) {
    s != "" && IsNameStart(s[0]) && forall i :: 0 <= i < |s| ==> IsNameChar(s[i])
  }

  predicate IsQName(q: string) {
    var (prefix, local) := SplitQName(q);
    (prefix.Some? ==> NCName(prefix.value)) && NCName(local)
  }

  function Qualify(prefix: string, name: string): string {
    if prefix == "" then name else prefix + ":" + name
  }

  lemma {:induction false} FirstColon(before: string, after: string)
    requires ':' !in before && (after == "" || after[0] == ':')
    ensures ColonAt(before + after) == |before|
  {
    if before == "" {
      assert before + after == after;
    } else {
      assert (before + after)[1..] == before[1..] + after;
      assert (before + after)[0] == before[0] && before[0] in before;
      FirstColon(before[1..], after);
    }
  }

  lemma SplitQualified(prefix: string, name: string)
    requires ':' !in prefix && (prefix == "" ==> ':' !in name)
    ensures SplitQName(Qualify(prefix, name)) == if prefix == "" then (None, name) else (Some(prefix), name)
  {
    if prefix == "" {
      FirstColon(name, "");
      assert name + "" == name;
    } else {
      FirstColon(prefix, ":" + name);
      assert Qualify(prefix, name) == prefix + (":" + name);
    }
  }

  lemma NCNameHasNoColon(s: string)
    requires NCName(s)
    ensures s != "" && ':' !in s
  {
  }

  /** A name with a prefix, or a name of its own. */
  lemma SplitNames(prefix: string, name: string)
    requires if prefix == "" then NCName(name) else NCName(prefix)
    ensures SplitQName(Qualify(prefix, name)) == if prefix == "" then (None, name) else (Some(prefix), name)
    ensures IsQName(Qualify(prefix, name)) <==> NCName(name)
  {
    NCNameHasNoColon(if prefix == "" then name else prefix);
    SplitQualified(prefix, name);
  }

  lemma NamesAreText(s: string)
    requires NCName(s)
    ensures XmlText(s)
  {
    forall i | 0 <= i < |s| ensures IsXmlChar(s[i]) {
      assert IsNameChar(s[i]);
    }
  }

  lemma QualifiedIsText(prefix: string, name: string)
    requires prefix == "" || NCName(prefix)
    ensures XmlText(Qualify(prefix, name)) <==> XmlText(name)
  {
    if prefix != "" {
      NamesAreText(prefix);
      var q, n := Qualify(prefix, name), |prefix| + 1;
      assert forall i :: 0 <= i < |name| ==> q[n + i] == name[i];
      assert forall i :: n <= i < |q| ==> q[i] == name[i - n];
      assert forall i :: 0 <= i < |prefix| ==> q[i] == prefix[i];
    }
  }

  /** Section 3 fixes two prefixes and their namespaces. */
  lemma FixedNames()
    ensures XML_PREFIX == "xml" && XML_URI == "http://www.w3.org/XML/1998/namespace"
    ensures XMLNS == "xmlns" && XMLNS_URI == "http://www.w3.org/2000/xmlns/"
  {
  }

  lemma XmlUriIsText()
    ensures XmlText(XML_URI)
  {
  }

  lemma XmlNamesAreNames()
    ensures NCName(XML_PREFIX) && NCName(XMLNS)
  {
    assert IsNameStart('x');
    assert forall c <- XMLNS :: IsNameChar(c);
  }

  // ----- Scopes

  /** The innermost declaration of a prefix.  "xml" is bound without being declared. */
  function Lookup(scopes: seq<map<string, string>>, prefix: string): Option<string> {
    if scopes == [] then
      if prefix == XML_PREFIX then Some(XML_URI) else None
    else
      var n := |scopes| - 1;
      if prefix in scopes[n] then Some(scopes[n][prefix]) else Lookup(scopes[..n], prefix)
  }

  /** An empty default namespace means no namespace. */
  function DefaultNamespace(scopes: seq<map<string, string>>): Option<string> {
    if Lookup(scopes, "") == Some("") then None else Lookup(scopes, "")
  }

  function ResolveElement(qname: string, scopes: seq<map<string, string>>): Option<Item> {
    var (prefix, local) := SplitQName(qname);
    if prefix.None? then Some(Element(DefaultNamespace(scopes), local))
    else if Lookup(scopes, prefix.value).None? then None
    else Some(Element(Lookup(scopes, prefix.value), local))
  }

  function ResolveAttribute(attribute: (string, string), scopes: seq<map<string, string>>): Option<Item> {
    var (prefix, local) := SplitQName(attribute.0);
    if prefix.None? then Some(AttributeOf(None, local, attribute.1))
    else if Lookup(scopes, prefix.value).None? then None
    else Some(AttributeOf(Lookup(scopes, prefix.value), local, attribute.1))
  }

  function ResolveAttributes(attributes: seq<(string, string)>, scopes: seq<map<string, string>>): Option<seq<Item>> {
    if attributes == [] then Some([])
    else
      var n := |attributes| - 1;
      var front, last := ResolveAttributes(attributes[..n], scopes), ResolveAttribute(attributes[n], scopes);
      if front.None? || last.None? then None else Some(front.value + [last.value])
  }

  /** Text read as a qualified name, when its prefix is in scope. */
  function ReadQName(text: string, scopes: seq<map<string, string>>): Option<(string, string)> {
    var (prefix, local) := SplitQName(text);
    if prefix.None? || Lookup(scopes, prefix.value).None? then None
    else Some((Lookup(scopes, prefix.value).value, local))
  }

  // ----- Reading

  const XMLNS_URI: string := "http://www.w3.org/2000/xmlns/"

  /** A name that a prefix may be declared for: not the empty one, and not the one of "xmlns". */
  predicate Declarable(uri: string) {
    uri != "" && uri != XMLNS_URI && XmlText(uri)
  }

  /** Section 3: "xmlns" is never declared, and "xml" and its URI belong only to each other. */
  predicate MayDeclare(prefix: string, uri: string) {
    prefix != "" && prefix != XMLNS && Declarable(uri) && (prefix == XML_PREFIX <==> uri == XML_URI)
  }

  predicate MayBeDefault(uri: string) {
    uri != XML_URI && uri != XMLNS_URI && XmlText(uri)
  }

  /** One attribute of the pending tag: a declaration or an ordinary attribute. */
  function ReadAttribute(tag: Tag, qname: string, value: string): Option<Tag> {
    var (prefix, local) := SplitQName(qname);
    if !IsQName(qname) || !XmlText(value) then None
    else if qname == XMLNS then
      if "" in tag.declared || !MayBeDefault(value) then None
      else Some(tag.(declared := tag.declared["" := value]))
    else if prefix == Some(XMLNS) then
      if local in tag.declared || !MayDeclare(local, value) then None
      else Some(tag.(declared := tag.declared[local := value]))
    else Some(tag.(attributes := tag.attributes + [(qname, value)]))
  }

  predicate SameName(a: Item, b: Item) {
    a.AttributeOf? && b.AttributeOf? && a.uri == b.uri && a.local == b.local
  }

  /** Section 6.3. */
  predicate UniqueNames(attributes: seq<Item>) {
    forall j, k :: 0 <= j < k < |attributes| ==> !SameName(attributes[j], attributes[k])
  }

  /** Completes the pending tag: its declarations come into scope and its names are resolved. */
  function Close(r: Reader): Option<Reader> {
    if r.pending.None? then Some(r)
    else
      var tag := r.pending.value;
      var element := ResolveElement(tag.qname, r.AllScopes());
      var attributes := ResolveAttributes(tag.attributes, r.AllScopes());
      if element.None? || attributes.None? || !UniqueNames(attributes.value) then None
      else Some(Reader(r.items + [element.value] + attributes.value, r.AllScopes(), None))
  }

  /** An event other than an attribute, once the pending tag is completed.  Outside the document element there is
      nothing but comments and white space, and neither is reported. */
  function ReadClosed(r: Reader, e: Event): Option<Reader>
    requires r.pending.None? && !e.Attribute?
  {
    match e
    case StartTag(qname) =>
      if IsQName(qname) && (r.scopes != [] || r.items == []) then Some(r.(pending := Some(Tag(qname, map[], []))))
      else None
    case Text(content) =>
      if r.scopes == [] then if WhiteSpace(content) then Some(r) else None
      else if !XmlText(content) then None
      else Some(r.(items := r.items + [Content(content, ReadQName(content, r.scopes))]))
    case Comment(content) => if CommentText(content) then Some(r) else None
    case EndTag => if r.scopes == [] then None else Some(r.(scopes := r.scopes[..|r.scopes| - 1]))
  }

  function ReadEvent(r: Reader, e: Event): Option<Reader> {
    if e.Attribute? then
      if r.pending.None? then None
      else
        var tag := ReadAttribute(r.pending.value, e.qname, e.value);
        if tag.None? then None else Some(r.(pending := tag))
    else if Close(r).None? then None
    else ReadClosed(Close(r).value, e)
  }

  function ReadFrom(reader: Reader, events: seq<Event>): Option<Reader> {
    if events == [] then Some(reader)
    else
      var before := ReadFrom(reader, events[..|events| - 1]);
      if before.None? then None else ReadEvent(before.value, events[|events| - 1])
  }

  /** The items of a whole document; None if it is not well-formed, namespaces included. */
  function Read(events: seq<Event>): Option<seq<Item>> {
    var r := ReadFrom(Start, events);
    if r.None? || Close(r.value).None? || Close(r.value).value.items == [] then None
    else Some(Close(r.value).value.items)
  }

  lemma {:induction false} ReadFromAppend(reader: Reader, a: seq<Event>, b: seq<Event>)
    ensures ReadFrom(reader, a + b) ==
            if ReadFrom(reader, a).None? then None else ReadFrom(ReadFrom(reader, a).value, b)
    decreases |b|
  {
    if b == [] {
      assert a + b == a;
    } else {
      var n := |b| - 1;
      assert (a + b)[..|a + b| - 1] == a + b[..n];
      ReadFromAppend(reader, a, b[..n]);
    }
  }

  lemma ReadFirst(reader: Reader, events: seq<Event>)
    requires events != []
    ensures ReadFrom(reader, events) ==
            if ReadEvent(reader, events[0]).None? then None
            else ReadFrom(ReadEvent(reader, events[0]).value, events[1..])
  {
    assert events == [events[0]] + events[1..];
    assert [events[0]][..0] == [];
    assert ReadFrom(reader, [events[0]]) == ReadEvent(reader, events[0]);
    ReadFromAppend(reader, [events[0]], events[1..]);
  }
}
