/** The XML writer: it turns calls that name a URI into calls on the text writer that use prefixes.

    The text writer underneath is represented by the list of events it received.  A failed CHECK or
    LOG(FATAL) ends the process; here it makes the call return ok == false. */
module XmlWriting {
  import opened Options
  import opened PrefixMapping
  import opened NamespaceReader

  datatype Op =
    | StartElement(name: string, uri: Option<string>)
    | StartElementDefaultNamespace(name: string, defaultUri: string)
    | EndElement
    | DeclareNamespaceURI(nsUri: string)
    | AddAttribute(name: string, uri: Option<string>, value: string)
    | Data(text: string, uri: Option<string>)
    | WriteComment(comment: string)

  // ----- The text writer's two namespace-aware calls

  /** Opens a tag; a URI makes the text writer add the declaration of the prefix. */
  function StartElementNS(prefix: string, name: string, uri: Option<string>): seq<Event> {
    [StartTag(Qualify(prefix, name))]
    + if uri.None? then []
      else [Attribute(if prefix == "" then XMLNS else Qualify(XMLNS, prefix), uri.value)]
  }

  /** An attribute without a name is not written. */
  function WriteAttributeNS(prefix: string, name: string, value: string): seq<Event> {
    if name == "" then [] else [Attribute(Qualify(prefix, name), value)]
  }

  // ----- What one call does to the writer's state

  datatype Writer = Writer(mapper: Mapper, canAddAttributes: bool, events: seq<Event>)
  {
    predicate WellFormed() {
      mapper.WellFormed() && (canAddAttributes ==> mapper.stack != [])
    }

    ghost function AfterStart(name: string, uri: Option<string>): Writer {
      var m := mapper.AfterPush();
      if uri.None? then Writer(m, true, events + StartElementNS("", name, None))
      else
        Writer(m.AfterGetPrefix(uri.value), true,
               events + StartElementNS(m.PrefixOf(uri.value), name, if m.IsMapped(uri.value) then None else uri))
    }

    function AfterStartDefault(name: string, uri: string): Writer {
      Writer(mapper.AfterPush(), true, events + StartElementNS("", name, Some(uri)))
    }

    function AfterEnd(): Writer
      requires mapper.stack != []
    {
      Writer(mapper.AfterPop(), false, events + [EndTag])
    }

    ghost function AfterDeclare(uri: string): Writer
      requires mapper.stack != []
    {
      if mapper.IsMapped(uri) then this
      else Writer(mapper.AfterGetPrefix(uri), canAddAttributes,
                  events + WriteAttributeNS(XMLNS, mapper.PrefixOf(uri), uri))
    }

    ghost function AfterAttribute(name: string, uri: Option<string>, value: string): Writer
      requires mapper.stack != []
    {
      if uri.None? then this.(events := events + WriteAttributeNS("", name, value))
      else
        var w := AfterDeclare(uri.value);
        Writer(w.mapper.AfterGetPrefix(uri.value), canAddAttributes,
               w.events + WriteAttributeNS(w.mapper.PrefixOf(uri.value), name, value))
    }

    ghost function AfterData(text: string, uri: Option<string>): Writer
      requires uri.Some? ==> mapper.stack != []
    {
      if uri.None? then Writer(mapper, false, events + [Text(text)])
      else
        var w := AfterDeclare(uri.value);
        Writer(w.mapper.AfterGetPrefix(uri.value), false,
               w.events + [Text(Qualify(w.mapper.PrefixOf(uri.value), text))])
    }
  }

  // ----- The calls that ask for a prefix, with the machine's 32-bit counter

  ghost function MachineStart(w: Writer, name: string, uri: Option<string>): Writer
    requires uri.Some? ==> w.mapper.Obtainable(uri.value)
  {
    var m := w.mapper.AfterPush();
    if uri.None? then Writer(m, true, w.events + StartElementNS("", name, None))
    else
      var (p, m') := m.Obtain(uri.value);
      Writer(m', true, w.events + StartElementNS(p, name, if m.IsMapped(uri.value) then None else uri))
  }

  ghost function MachineDeclare(w: Writer, uri: string): (next: Writer)
    requires w.mapper.stack != [] && w.mapper.Obtainable(uri)
    ensures uri in next.mapper.InScope()
  {
    if w.mapper.IsMapped(uri) then w
    else
      var (p, m') := w.mapper.Obtain(uri);
      Writer(m', w.canAddAttributes, w.events + WriteAttributeNS(XMLNS, p, uri))
  }

  ghost function MachineAttribute(w: Writer, name: string, uri: Option<string>, value: string): Writer
    requires uri.Some? ==> w.mapper.stack != [] && w.mapper.Obtainable(uri.value)
  {
    if uri.None? then w.(events := w.events + WriteAttributeNS("", name, value))
    else
      var declared := MachineDeclare(w, uri.value);
      var (p, m') := declared.mapper.Obtain(uri.value);
      Writer(m', w.canAddAttributes, declared.events + WriteAttributeNS(p, name, value))
  }

  ghost function MachineData(w: Writer, text: string, uri: Option<string>): Writer
    requires uri.Some? ==> w.mapper.stack != [] && w.mapper.Obtainable(uri.value)
  {
    if uri.None? then Writer(w.mapper, false, w.events + [Text(text)])
    else
      var declared := MachineDeclare(w, uri.value);
      var (p, m') := declared.mapper.Obtain(uri.value);
      Writer(m', false, declared.events + [Text(Qualify(p, text))])
  }

  /** While the counter stays below 2^31, the machine's calls are those of the unbounded counter. */
  lemma MachineAgrees(w: Writer, op: Op)
    requires w.WellFormed() && w.mapper.Room() && Allowed(w, op)
    ensures match op
      case StartElement(name, uri) =>
        (uri.Some? ==> w.mapper.Obtainable(uri.value)) && MachineStart(w, name, uri) == Step(w, op)
      case DeclareNamespaceURI(uri) => w.mapper.Obtainable(uri) && MachineDeclare(w, uri) == Step(w, op)
      case AddAttribute(name, uri, value) =>
        (uri.Some? ==> w.mapper.Obtainable(uri.value)) && MachineAttribute(w, name, uri, value) == Step(w, op)
      case Data(text, uri) =>
        (uri.Some? ==> w.mapper.Obtainable(uri.value)) && MachineData(w, text, uri) == Step(w, op)
      case _ => true
  {
    match op
    case StartElement(_, uri) => if uri.Some? { ObtainWithRoom(w.mapper.AfterPush(), uri.value); }
    case DeclareNamespaceURI(uri) => ObtainWithRoom(w.mapper, uri);
    case AddAttribute(_, uri, _) => if uri.Some? { ObtainWithRoom(w.mapper, uri.value); }
    case Data(_, uri) => if uri.Some? { ObtainWithRoom(w.mapper, uri.value); }
    case _ =>
  }

  const NewDocument: Writer := Writer(Fresh, false, [])

  /** A call that the state does not allow: the writer's own checks, and EndElement without an open element. */
  predicate Allowed(w: Writer, op: Op) {
    match op
    case EndElement => w.mapper.stack != []
    case DeclareNamespaceURI(_) => w.canAddAttributes
    case AddAttribute(_, _, _) => w.canAddAttributes
    case Data(_, uri) => uri.Some? ==> w.canAddAttributes
    case _ => true
  }

  ghost function Step(w: Writer, op: Op): (next: Writer)
    requires w.WellFormed() && Allowed(w, op)
    ensures next.WellFormed()
  {
    match op
    case StartElement(name, uri) => w.AfterStart(name, uri)
    case StartElementDefaultNamespace(name, uri) => w.AfterStartDefault(name, uri)
    case EndElement =>
      assert forall v <- w.AfterEnd().mapper.stack :: v in w.mapper.stack;
      w.AfterEnd()
    case DeclareNamespaceURI(uri) => w.AfterDeclare(uri)
    case AddAttribute(name, uri, value) => w.AfterAttribute(name, uri, value)
    case Data(text, uri) => w.AfterData(text, uri)
    case WriteComment(comment) => w.(canAddAttributes := false, events := w.events + [Comment(comment)])
  }

  // ----- The class

  class XmlWriter {
    const prefixMapper: PrefixMapper
    var attributeAddingStillOk: bool
    var events: seq<Event>

    ghost function View(): Writer
      reads this, prefixMapper
    {
      Writer(prefixMapper.View(), attributeAddingStillOk, events)
    }

    constructor ()
      ensures fresh(prefixMapper) && View() == NewDocument
    {
      prefixMapper := new PrefixMapper();
      attributeAddingStillOk := false;
      events := [];
    }

    method StartDocument()
      modifies this, prefixMapper
      ensures View() == NewDocument
    {
      prefixMapper.Reset();
      attributeAddingStillOk := false;
      events := [];
    }

    method BindNamespaceUriToPrefix(uri: string, prefix: string) returns (ok: bool)
      requires View().WellFormed()
      modifies this, prefixMapper
      ensures View() == old(View()).(mapper := old(View()).mapper.AfterAssociate(uri, prefix))
      ensures ok <==> uri !in View().mapper.InScope()
    {
      prefixMapper.AssociatePrefix(uri, prefix);
      var mapped := prefixMapper.IsMapped(uri);
      ok := !mapped;
    }

    method StartElement(name: string, uri: Option<string>) returns (ok: bool)
      requires View().WellFormed() && (uri.Some? ==> View().mapper.Obtainable(uri.value))
      modifies this, prefixMapper
      ensures ok && View() == MachineStart(old(View()), name, uri) && View().WellFormed()
    {
      prefixMapper.Push();
      attributeAddingStillOk := true;
      var nsPrefix := "";
      var defineNsUri := false;
      if uri.Some? {
        var mapped := prefixMapper.IsMapped(uri.value);
        defineNsUri := !mapped;
        nsPrefix := prefixMapper.GetPrefix(uri.value);
      }
      events := events + StartElementNS(nsPrefix, name, if defineNsUri then uri else None);
      ok := true;
      if uri.Some? {
        ok := prefixMapper.IsMapped(uri.value);
      }
    }

    method StartElementDefaultNamespace(name: string, uri: string)
      requires View().WellFormed()
      modifies this, prefixMapper
      ensures View() == old(View()).AfterStartDefault(name, uri) && View().WellFormed()
    {
      prefixMapper.Push();
      attributeAddingStillOk := true;
      events := events + StartElementNS("", name, Some(uri));
    }

    method EndElement()
      requires View().WellFormed() && View().mapper.stack != []
      modifies this, prefixMapper
      ensures View() == old(View()).AfterEnd() && View().WellFormed()
    {
      events := events + [EndTag];
      prefixMapper.Pop();
      attributeAddingStillOk := false;
    }

    method DeclareNamespaceURI(uri: string) returns (ok: bool)
      requires View().WellFormed() && (attributeAddingStillOk ==> View().mapper.Obtainable(uri))
      modifies this, prefixMapper
      ensures ok <==> old(attributeAddingStillOk)
      ensures ok ==> View() == MachineDeclare(old(View()), uri) && View().WellFormed() && View().mapper.IsMapped(uri)
    {
      if !attributeAddingStillOk {
        return false;
      }
      var mapped := prefixMapper.IsMapped(uri);
      if !mapped {
        var nsPrefix := prefixMapper.GetPrefix(uri);
        events := events + WriteAttributeNS(XMLNS, nsPrefix, uri);
      }
      ok := prefixMapper.IsMapped(uri);
    }

    method AddAttribute(name: string, uri: Option<string>, value: string) returns (ok: bool)
      requires View().WellFormed() && (attributeAddingStillOk && uri.Some? ==> View().mapper.Obtainable(uri.value))
      modifies this, prefixMapper
      ensures ok <==> old(attributeAddingStillOk)
      ensures ok ==> View() == MachineAttribute(old(View()), name, uri, value) && View().WellFormed()
    {
      if !attributeAddingStillOk {
        return false;
      }
      var nsPrefix := "";
      if uri.Some? {
        ok := DeclareNamespaceURI(uri.value);
        nsPrefix := prefixMapper.GetPrefix(uri.value);
      }
      events := events + WriteAttributeNS(nsPrefix, name, value);
      ok := true;
    }

    method Data(text: string, uri: Option<string>) returns (ok: bool)
      requires View().WellFormed() && (attributeAddingStillOk && uri.Some? ==> View().mapper.Obtainable(uri.value))
      modifies this, prefixMapper
      ensures ok <==> (uri.Some? ==> old(attributeAddingStillOk))
      ensures ok ==> View() == MachineData(old(View()), text, uri) && View().WellFormed()
    {
      var nsPrefix := "";
      if uri.Some? {
        ok := DeclareNamespaceURI(uri.value);
        if !ok {
          return;
        }
        nsPrefix := prefixMapper.GetPrefix(uri.value);
      }
      events := events + [Text(if nsPrefix != "" then nsPrefix + ":" + text else text)];
      attributeAddingStillOk := false;
      ok := true;
    }

    method WriteComment(comment: string)
      modifies this
      ensures View() == old(View()).(canAddAttributes := false, events := old(events) + [Comment(comment)])
    {
      events := events + [Comment(comment)];
      attributeAddingStillOk := false;
    }
  }
}
