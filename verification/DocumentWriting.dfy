/** The writer object driven through a whole document. */
module DocumentWriting {
  import opened Options
  import opened PrefixNumeral
  import opened PrefixMapping
  import opened NamespaceReader
  import opened XmlWriting
  import opened NamespaceRoundTrip
  import opened XmlDocuments
  import opened ImproperCalls

  lemma {:induction false} RefusedStaysRefused(w: Writer, ops: seq<Op>, k: nat)
    requires w.WellFormed() && k <= |ops| && Run(w, ops[..k]).None?
    ensures Run(w, ops).None?
  {
    if k == |ops| {
      assert ops[..k] == ops;
    } else {
      var front := ops[..|ops| - 1];
      assert front[..k] == ops[..k];
      RefusedStaysRefused(w, front, k);
    }
  }

  /** One call on the object. */
  method Perform(w: XmlWriter, op: Op) returns (ok: bool)
    requires w.View().WellFormed() && w.prefixMapper.View().Room()
    modifies w, w.prefixMapper
    ensures ok <==> Allowed(old(w.View()), op)
    ensures ok ==> w.View() == Step(old(w.View()), op)
  {
    if Allowed(w.View(), op) {
      MachineAgrees(w.View(), op);
    }
    ok := true;
    match op
    case StartElement(name, uri) => ok := w.StartElement(name, uri);
    case StartElementDefaultNamespace(name, uri) => w.StartElementDefaultNamespace(name, uri);
    case EndElement =>
      ok := w.prefixMapper.uriStack != [];
      if ok {
        w.EndElement();
      }
    case DeclareNamespaceURI(uri) => ok := w.DeclareNamespaceURI(uri);
    case AddAttribute(name, uri, value) => ok := w.AddAttribute(name, uri, value);
    case Data(text, uri) => ok := w.Data(text, uri);
    case WriteComment(comment) => w.WriteComment(comment);
  }

  /** The counter stays below 2^31 in documents with fewer bindings and calls than that. */
  lemma RunHasRoom(binds: seq<Binding>, ops: seq<Op>)
    requires Unrefused(binds) && UsableBindings(binds)
    requires Run(Opened(binds), ops).Some? && |binds| + |ops| + 2 < INT32_LIMIT
    ensures Run(Opened(binds), ops).value.mapper.Room()
  {
    RunCounts(binds, ops);
    BindReserves(binds);
  }

  method BindAll(w: XmlWriter, binds: seq<Binding>) returns (ok: bool)
    requires w.View() == NewDocument
    modifies w, w.prefixMapper
    ensures ok <==> Unrefused(binds)
    ensures ok ==> w.View() == Opened(binds)
  {
    var k := 0;
    while k < |binds|
      invariant 0 <= k <= |binds|
      invariant Unrefused(binds[..k]) && w.View() == Opened(binds[..k])
    {
      assert binds[..k + 1][..k] == binds[..k];
      BindRecords(binds[..k]);
      ok := w.BindNamespaceUriToPrefix(binds[k].0, binds[k].1);
      if !ok {
        assert binds[k].0 == XML_URI;
        return;
      }
      k := k + 1;
    }
    assert binds[..k] == binds;
    ok := true;
  }

  lemma RunNext(w: Writer, ops: seq<Op>, k: nat)
    requires w.WellFormed() && k < |ops| && Run(w, ops[..k]).Some?
    ensures var before := Run(w, ops[..k]).value;
      Run(w, ops[..k + 1]) == if Allowed(before, ops[k]) then Some(Step(before, ops[k])) else None
  {
    assert ops[..k + 1][..k] == ops[..k];
  }

  /** One call after another, up to the first that the writer does not let through. */
  method PerformAll(w: XmlWriter, binds: seq<Binding>, ops: seq<Op>) returns (ok: bool)
    requires Unrefused(binds) && UsableBindings(binds) && |binds| + |ops| + 2 < INT32_LIMIT
    requires w.View() == Opened(binds)
    modifies w, w.prefixMapper
    ensures ok <==> Run(Opened(binds), ops).Some?
    ensures ok ==> Run(Opened(binds), ops) == Some(w.View())
  {
    var k := 0;
    while k < |ops|
      invariant 0 <= k <= |ops|
      invariant Run(Opened(binds), ops[..k]) == Some(w.View())
    {
      RunNext(Opened(binds), ops, k);
      RunHasRoom(binds, ops[..k]);
      ok := Perform(w, ops[k]);
      if !ok {
        RefusedStaysRefused(Opened(binds), ops, k + 1);
        return;
      }
      k := k + 1;
    }
    assert ops[..k] == ops;
    ok := true;
  }

  /** The object writes exactly the documents of calls that are let through, and of these exactly those of proper
      calls read back as intended. */
  method WriteDocument(binds: seq<Binding>, ops: seq<Op>) returns (written: Option<seq<Event>>)
    requires UsableBindings(binds) && |binds| + |ops| + 2 < INT32_LIMIT
    ensures written.Some? <==> Unrefused(binds) && LetThrough(ops)
    ensures written.Some? ==> Run(Opened(binds), ops).Some? && written.value == Run(Opened(binds), ops).value.events
    ensures written.Some? ==>
      (Read(written.value).Some? && ConveysAll(Read(written.value).value, Intended(ops).meanings)
       <==> ProperDocument(ops))
  {
    RunIffLetThrough(binds, ops);
    var w := new XmlWriter();
    w.StartDocument();
    var ok := BindAll(w, binds);
    if ok {
      ok := PerformAll(w, binds, ops);
    }
    if !ok {
      return None;
    }
    RoundTripsIffProper(binds, ops);
    written := Some(w.events);
  }
}
