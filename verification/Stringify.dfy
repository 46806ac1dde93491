/** Describing a graph that may be shared or cyclic.

    The code threads a linked list through the objects it visits, in a property of the objects themselves.
    The specification is a walk that carries the set of visited objects explicitly. */
module Stringification {
  import opened Options
  import opened ObjectGraph
  import opened DescriptionText

  const ROOT_DEPTH: nat := 5
  const PART_LIMIT: nat := 25
  const ELLIPSIS: string := "..."

  ghost function References(n: Node): set<Node> {
    set i | 0 <= i < |n.slots| && n.slots[i].Prop? && n.slots[i].value.Ref? :: n.slots[i].value.node
  }

  ghost predicate ClosedUnderReferences(graph: set<Node>) {
    forall n <- graph :: References(n) <= graph
  }

  function Open(shape: Shape): string {
    if shape.ArrayShape? then "[" else "{"
  }

  function ShutText(shape: Shape): string {
    if shape.ArrayShape? then "]" else "}"
  }

  function Join(parts: seq<string>): string {
    if parts == [] then ""
    else if |parts| == 1 then parts[0]
    else Join(parts[..|parts| - 1]) + ", " + parts[|parts| - 1]
  }

  /** The assembled description of an object. */
  function Assemble(shape: Shape, depth: nat, parts: seq<string>): string {
    if parts == [] then Open(shape) + ShutText(shape)
    else if depth == 0 then Open(shape) + ELLIPSIS + ShutText(shape)
    else Open(shape) + " " + Join(parts) + " " + ShutText(shape)
  }

  function Label(shape: Shape, key: string): string {
    if shape.ArrayShape? then "" else key + ": "
  }

  // ----- The assembled text can be read

  lemma {:induction false} JoinFirst(parts: seq<string>)
    requires 1 < |parts|
    ensures Join(parts) == parts[0] + ", " + Join(parts[1..])
  {
    var n := |parts| - 1;
    if n > 1 {
      JoinFirst(parts[..n]);
      assert parts[..n][1..] == parts[1..][..n - 1];
      assert parts[0] + ", " + Join(parts[1..][..n - 1]) + ", " + parts[n]
             == parts[0] + ", " + (Join(parts[1..][..n - 1]) + ", " + parts[n]);
    } else {
      assert parts[..1] == [parts[0]] && parts[1..] == [parts[1]];
    }
  }

  lemma {:induction false} PiecesOfJoin(parts: seq<string>)
    requires parts != [] && AllSeparable(parts)
    ensures Pieces(Join(parts)) == parts
  {
    if |parts| == 1 {
      PiecesOne(parts[0]);
    } else {
      JoinFirst(parts);
      PiecesOfJoin(parts[1..]);
      PiecesMore(parts[0], Join(parts[1..]));
      assert parts == [parts[0]] + parts[1..];
    }
  }

  /** What a description shows: nothing if there are no parts, dots if there are but none is to be shown, or else the
      parts, which a reader of the text gets back unless they contain the separator. */
  ghost predicate Shows(text: string, isArray: bool, depth: nat, parts: seq<string>) {
    if parts == [] then text == if isArray then "[]" else "{}"
    else if depth == 0 then text == if isArray then "[...]" else "{...}"
    else AllSeparable(parts) ==> ReadShown(text) == Some(Shown(isArray, parts))
  }

  lemma AssembledShows(shape: Shape, depth: nat, parts: seq<string>)
    ensures Shows(Assemble(shape, depth, parts), shape.ArrayShape?, depth, parts)
  {
    if parts != [] && depth > 0 && AllSeparable(parts) {
      PiecesOfJoin(parts);
      ReadsInside(shape.ArrayShape?, Join(parts));
    }
  }

  // ----- The reference walk

  /** The objects visited so far, and every description of an object begun so far with its depth. */
  datatype Walk = Walk(visited: set<Node>, log: seq<(Node, nat)>)

  type Renderer = (int, nat) -> string

  ghost function Reached(v: Value, w: Walk): Walk {
    if v.Ref? then w.(visited := w.visited + {v.node}) else w
  }

  ghost function Describe(render: Renderer, v: Value, depth: nat, w: Walk): (described: (string, Walk))
    ensures w.visited <= described.1.visited
    decreases depth, if v.Ref? then |v.node.slots| + 1 else 0
  {
    match v
    case Primitive(code) => (render(code, depth), w)
    case Ref(n) =>
      if n.shape.TextShape? then (n.shape.text, w)
      else
        var (parts, after) := DescribeSlots(render, n, |n.slots|, depth, w.(log := w.log + [(n, depth)]));
        (Assemble(n.shape, depth, parts), after)
  }

  /** The parts contributed by the first k slots. */
  ghost function DescribeSlots(render: Renderer, n: Node, k: nat, depth: nat, w: Walk)
      : (described: (seq<string>, Walk))
    requires k <= |n.slots|
    ensures w.visited <= described.1.visited
    decreases depth, k
  {
    if k == 0 then ([], w)
    else
      var (parts, before) := DescribeSlots(render, n, k - 1, depth, w);
      DescribeSlot(render, n, n.slots[k - 1], depth, parts, before)
  }

  /** The parts and the walk after one more slot.  Missing array elements are not subject to any limit. */
  ghost function DescribeSlot(render: Renderer, n: Node, slot: Slot, depth: nat, parts: seq<string>, before: Walk)
      : (described: (seq<string>, Walk))
    ensures before.visited <= described.1.visited
    decreases depth, 0
  {
    match slot
    case Hole => (parts + [""], before)
    case Prop(key, v) =>
      if depth == 0 then (if parts == [] then [ELLIPSIS] else parts[0 := ELLIPSIS], before)
      else if |parts| == PART_LIMIT then (parts + [ELLIPSIS], before)
      else if |parts| > PART_LIMIT then (parts, before)
      else if v.Ref? && v.node in before.visited then
        var (text, after) := Describe(render, v, 0, before);
        (parts + [Label(n.shape, key) + text], after)
      else
        var (text, after) := Describe(render, v, depth - 1, Reached(v, before));
        (parts + [Label(n.shape, key) + text], after)
  }

  // ----- The list threaded through the visited objects

  function Elements(chain: seq<Node>): set<Node> {
    set n | n in chain
  }

  ghost predicate NoneMarked(graph: set<Node>)
    reads graph
  {
    forall n <- graph :: n.nextObject == null
  }

  /** The successor of chain[i]: the next object of the list, or the sentinel that ends it. */
  function Successor(chain: seq<Node>, sentinel: Node, i: nat): Node
    requires i < |chain|
  {
    if i + 1 < |chain| then chain[i + 1] else sentinel
  }

  /** The marked objects form one list without repetition that ends in the sentinel. */
  ghost predicate Threaded(chain: seq<Node>, sentinel: Node, graph: set<Node>)
    reads graph, sentinel
  {
    && chain != [] && sentinel !in graph && sentinel.nextObject == null
    && (forall i :: 0 <= i < |chain| ==> chain[i] in graph)
    && (forall i {:trigger Successor(chain, sentinel, i)} :: 0 <= i < |chain| ==>
          chain[i].nextObject == Successor(chain, sentinel, i))
    && (forall i, j :: 0 <= i < j < |chain| ==> chain[i] != chain[j])
    && (forall n <- graph :: n !in chain ==> n.nextObject == null)
  }

  lemma Splice(chain: seq<Node>, sentinel: Node, p: nat, child: Node) returns (longer: seq<Node>)
    requires p < |chain| && child !in chain
    requires forall i, j :: 0 <= i < j < |chain| ==> chain[i] != chain[j]
    ensures |longer| == |chain| + 1 && longer[0] == chain[0] && longer[p] == chain[p] && longer[p + 1] == child
    ensures forall i, j :: 0 <= i < j < |longer| ==> longer[i] != longer[j]
    ensures forall n :: n in longer <==> n in chain || n == child
    ensures Elements(longer) == Elements(chain) + {child}
    ensures forall i {:trigger Successor(longer, sentinel, i)} :: 0 <= i < |longer| && i != p && i != p + 1 ==>
      var k := if i < p then i else i - 1;
      longer[i] == chain[k] && longer[i] != chain[p] && Successor(longer, sentinel, i) == Successor(chain, sentinel, k)
    ensures Successor(longer, sentinel, p) == child
    ensures Successor(longer, sentinel, p + 1) == Successor(chain, sentinel, p)
  {
    longer := chain[..p + 1] + [child] + chain[p + 1..];
    assert forall n :: n in longer <==> n in chain || n == child;
  }

  /** An unmarked child goes in right after its parent, wherever that is in the list. */
  method InsertAfter(obj: Node, child: Node, ghost chain: seq<Node>, ghost sentinel: Node, ghost graph: set<Node>)
      returns (ghost longer: seq<Node>)
    requires Threaded(chain, sentinel, graph) && obj in chain && child in graph && child.nextObject == null
    modifies graph`nextObject
    ensures Threaded(longer, sentinel, graph) && longer[0] == chain[0]
    ensures Elements(longer) == Elements(chain) + {child}
  {
    ghost var p :| 0 <= p < |chain| && chain[p] == obj;
    MarkedIffInChain(chain, sentinel, graph);
    assert obj.nextObject == Successor(chain, sentinel, p);
    longer := Splice(chain, sentinel, p, child);
    label Before:
    child.nextObject := obj.nextObject;
    if child.nextObject != null {
      obj.nextObject := child;
    }
    forall i | 0 <= i < |longer| ensures longer[i].nextObject == Successor(longer, sentinel, i) {
      if i < p {
        assert old@Before(chain[i].nextObject) == Successor(chain, sentinel, i);
      } else if i > p + 1 {
        assert old@Before(chain[i - 1].nextObject) == Successor(chain, sentinel, i - 1);
      }
    }
  }

  lemma MarkedIffInChain(chain: seq<Node>, sentinel: Node, graph: set<Node>)
    requires Threaded(chain, sentinel, graph)
    ensures forall n <- graph :: n in chain <==> n.nextObject != null
  {
    forall n <- graph ensures n in chain <==> n.nextObject != null {
      if n in chain {
        var i :| 0 <= i < |chain| && chain[i] == n;
        assert n.nextObject == Successor(chain, sentinel, i);
      }
    }
  }

  /** Follows the list from its first object and deletes the marks. */
  method Unthread(first: Node, ghost chain: seq<Node>, ghost sentinel: Node, ghost graph: set<Node>)
    requires Threaded(chain, sentinel, graph) && first == chain[0]
    modifies graph`nextObject, sentinel`nextObject
    ensures NoneMarked(graph) && sentinel.nextObject == null
  {
    var obj: Node? := first;
    ghost var k := 0;
    while obj != null
      invariant 0 <= k <= |chain| + 1
      invariant obj == if k < |chain| then chain[k] else if k == |chain| then sentinel else null
      invariant sentinel.nextObject == null
      invariant forall i :: 0 <= i < k && i < |chain| ==> chain[i].nextObject == null
      invariant forall i {:trigger Successor(chain, sentinel, i)} :: k <= i < |chain| ==>
          chain[i].nextObject == Successor(chain, sentinel, i)
      invariant forall n <- graph :: n !in chain ==> n.nextObject == null
      decreases |chain| + 1 - k
    {
      assert k < |chain| ==> obj.nextObject == Successor(chain, sentinel, k);
      var nextObj := obj.nextObject;
      obj.nextObject := null;
      obj := nextObj;
      k := k + 1;
    }
  }

  // ----- The builder and the recursion that drives it

  /** What a method may assume and must keep while the list is being built. */
  ghost predicate Linked(chain: seq<Node>, sentinel: Node?, graph: set<Node>, w: Walk)
    reads graph, if sentinel == null then {} else {sentinel}
  {
    sentinel != null && Threaded(chain, sentinel, graph) && w.visited == Elements(chain)
  }

  class ObjectDescriptionBuilder {
    const depth: nat
    const obj: Node
    const isRoot: bool
    var parts: seq<string>

    constructor (parent: Node, depth: nat)
      modifies parent`nextObject
      ensures this.obj == parent && this.depth == depth && parts == []
      ensures isRoot <==> old(parent.nextObject) == null
      ensures !isRoot ==> parent.nextObject == old(parent.nextObject)
      ensures isRoot ==>
        parent.nextObject != null && fresh(parent.nextObject) && parent.nextObject.nextObject == null
    {
      this.depth, this.obj, parts := depth, parent, [];
      isRoot := parent.nextObject == null;
      new;
      if isRoot {
        parent.nextObject := new Node(ObjectCtor, RecordShape, []);
      }
    }

    /** Adds slot k, a property, of the object. */
    method AddKeyWithPrefix(render: Renderer, k: nat, ghost graph: set<Node>, ghost chain: seq<Node>,
                            ghost sentinel: Node?, ghost before: Walk)
        returns (ghost longer: seq<Node>, ghost after: Walk)
      requires ClosedUnderReferences(graph) && obj in graph && k < |obj.slots| && obj.slots[k].Prop?
      requires obj in chain && Linked(chain, sentinel, graph, before)
      modifies this, graph`nextObject
      ensures (parts, after) == DescribeSlot(render, obj, obj.slots[k], depth, old(parts), before)
      ensures Linked(longer, sentinel, graph, after) && longer[0] == chain[0] && obj in longer
      decreases depth, 2
    {
      longer, after := chain, before;
      if depth <= 0 {
        parts := if parts == [] then [ELLIPSIS] else parts[0 := ELLIPSIS];
        return;
      }
      if |parts| == PART_LIMIT {
        parts := parts + [ELLIPSIS];
      }
      if |parts| > PART_LIMIT {
        return;
      }
      var child := obj.slots[k].value;
      var text;
      text, longer, after := DescribeChild(render, child, graph, chain, sentinel, before);
      parts := parts + [Label(obj.shape, obj.slots[k].key) + text];
    }

    /** A visited child is described at depth 0; any other joins the list first. */
    method DescribeChild(render: Renderer, child: Value, ghost graph: set<Node>, ghost chain: seq<Node>,
                         ghost sentinel: Node?, ghost before: Walk)
        returns (text: string, ghost longer: seq<Node>, ghost after: Walk)
      requires ClosedUnderReferences(graph) && obj in graph && (child.Ref? ==> child.node in graph)
      requires obj in chain && Linked(chain, sentinel, graph, before) && depth > 0
      modifies graph`nextObject
      ensures (text, after) ==
        if child.Ref? && child.node in before.visited then Describe(render, child, 0, before)
        else Describe(render, child, depth - 1, Reached(child, before))
      ensures Linked(longer, sentinel, graph, after) && longer[0] == chain[0] && obj in longer
      decreases depth, 1
    {
      MarkedIffInChain(chain, sentinel, graph);
      if child.Ref? && child.node.nextObject != null {
        assert child.node in Elements(chain);
        text, longer, after := StringifyToDepth(render, child, 0, graph, chain, sentinel, before);
      } else {
        assert child.Ref? ==> child.node !in Elements(chain);
        text, longer, after := DescribeNewChild(render, child, graph, chain, sentinel, before);
      }
      assert obj in Elements(chain) && before.visited <= after.visited;
      assert obj in Elements(longer);
    }

    method DescribeNewChild(render: Renderer, child: Value, ghost graph: set<Node>, ghost chain: seq<Node>,
                            ghost sentinel: Node?, ghost before: Walk)
        returns (text: string, ghost longer: seq<Node>, ghost after: Walk)
      requires ClosedUnderReferences(graph) && obj in graph && obj in chain && Linked(chain, sentinel, graph, before)
      requires (child.Ref? ==> child.node in graph && child.node.nextObject == null) && depth > 0
      modifies graph`nextObject
      ensures (text, after) == Describe(render, child, depth - 1, Reached(child, before))
      ensures before.visited <= after.visited && Linked(longer, sentinel, graph, after) && longer[0] == chain[0]
      decreases depth, 0
    {
      longer := Reach(child, graph, chain, sentinel, before);
      text, longer, after := StringifyToDepth(render, child, depth - 1, graph, longer, sentinel,
        Reached(child, before));
    }

    /** A child that can have properties goes into the list. */
    method Reach(child: Value, ghost graph: set<Node>, ghost chain: seq<Node>, ghost sentinel: Node?,
                 ghost before: Walk) returns (ghost longer: seq<Node>)
      requires child.Ref? ==> child.node in graph && child.node.nextObject == null
      requires obj in chain && Linked(chain, sentinel, graph, before)
      modifies graph`nextObject
      ensures Linked(longer, sentinel, graph, Reached(child, before)) && longer[0] == chain[0]
      ensures child.Ref? ==> child.node in longer
    {
      longer := chain;
      if child.Ref? {
        longer := InsertAfter(obj, child.node, chain, sentinel, graph);
        assert child.node in Elements(longer);
      }
    }

    method AddRawText(text: string)
      modifies this
      ensures parts == old(parts) + [text]
    {
      parts := parts + [text];
    }

    method Finish(ghost graph: set<Node>, ghost chain: seq<Node>, ghost sentinel: Node) returns (text: string)
      requires Threaded(chain, sentinel, graph) && (isRoot ==> obj == chain[0])
      modifies graph`nextObject, if isRoot then {sentinel} else {}
      ensures text == Assemble(obj.shape, depth, parts) && Shows(text, obj.shape.ArrayShape?, depth, parts)
      ensures isRoot ==> NoneMarked(graph)
      ensures !isRoot ==> Threaded(chain, sentinel, graph)
    {
      if isRoot {
        Unthread(obj, chain, sentinel, graph);
      }
      text := Assemble(obj.shape, depth, parts);
      AssembledShows(obj.shape, depth, parts);
    }
  }

  /** The loop over the elements of an array or the keys of an object. */
  method AddSlots(render: Renderer, description: ObjectDescriptionBuilder, ghost graph: set<Node>,
                  ghost chain: seq<Node>, ghost sentinel: Node?, ghost begun: Walk)
      returns (ghost longer: seq<Node>, ghost after: Walk)
    requires ClosedUnderReferences(graph) && description.obj in graph && description.parts == []
    requires description.obj in chain && Linked(chain, sentinel, graph, begun)
    modifies description, graph`nextObject
    ensures (description.parts, after) ==
      DescribeSlots(render, description.obj, |description.obj.slots|, description.depth, begun)
    ensures Linked(longer, sentinel, graph, after) && longer[0] == chain[0] && description.obj in longer
    decreases description.depth, 3
  {
    var n, depth := description.obj, description.depth;
    longer, after := chain, begun;
    var k := 0;
    while k < |n.slots|
      invariant 0 <= k <= |n.slots|
      invariant (description.parts, after) == DescribeSlots(render, n, k, depth, begun)
      invariant Linked(longer, sentinel, graph, after) && longer[0] == chain[0] && n in longer
    {
      if n.slots[k].Hole? {
        description.AddRawText("");
      } else {
        longer, after := description.AddKeyWithPrefix(render, k, graph, longer, sentinel, after);
      }
      k := k + 1;
    }
  }

  method StringifyToDepth(render: Renderer, v: Value, depth: nat, ghost graph: set<Node>, ghost chain: seq<Node>,
                          ghost sentinel: Node?, ghost w: Walk)
      returns (text: string, ghost longer: seq<Node>, ghost after: Walk)
    requires ClosedUnderReferences(graph) && (v.Ref? ==> v.node in graph)
    requires if chain == [] then NoneMarked(graph) && w.visited == (if v.Ref? then {v.node} else {})
             else Linked(chain, sentinel, graph, w) && (v.Ref? ==> v.node in chain)
    modifies graph`nextObject
    ensures (text, after) == Describe(render, v, depth, w)
    ensures chain == [] ==> NoneMarked(graph)
    ensures chain != [] ==> Linked(longer, sentinel, graph, after) && longer[0] == chain[0]
    decreases depth, 4
  {
    longer, after := chain, w;
    if v.Primitive? {
      text := render(v.code, depth);
      return;
    }
    if v.node.shape.TextShape? {
      text := v.node.shape.text;
      return;
    }
    var n := v.node;
    if chain != [] {
      MarkedIffInChain(chain, sentinel, graph);
    }
    var description := new ObjectDescriptionBuilder(n, depth);
    ghost var begun := w.(log := w.log + [(n, depth)]);
    ghost var start := if chain == [] then [n] else chain;
    ghost var end := if chain == [] then n.nextObject else sentinel;
    longer, after := AddSlots(render, description, graph, start, end, begun);
    text := description.Finish(graph, longer, end);
  }

  /** The description is the reference walk's, and the objects are left as they were found. */
  method Stringify(render: Renderer, v: Value, ghost graph: set<Node>) returns (text: string)
    requires ClosedUnderReferences(graph) && (v.Ref? ==> v.node in graph) && NoneMarked(graph)
    modifies graph`nextObject
    ensures text == Describe(render, v, 5, Walk(if v.Ref? then {v.node} else {}, [])).0
    ensures NoneMarked(graph)
  {
    ghost var chain, after;
    text, chain, after := StringifyToDepth(render, v, ROOT_DEPTH, graph, [], null, Walk(if v.Ref? then {v.node} else {}, []));
  }

  // ----- What the walk expands

  /** Only the first description of an object may go into it; every later one is at depth 0. */
  ghost predicate ExpandedOnce(log: seq<(Node, nat)>) {
    forall i, j :: 0 <= i < j < |log| && log[i].0 == log[j].0 ==> log[j].1 == 0
  }

  ghost predicate LoggedAreVisited(w: Walk) {
    forall i :: 0 <= i < |w.log| ==> w.log[i].0 in w.visited
  }

  /** The object to be described next has not been described, or will only be described at depth 0. */
  ghost predicate FirstOrFlat(v: Value, depth: nat, w: Walk) {
    v.Ref? ==> v.node in w.visited && (depth == 0 || forall i :: 0 <= i < |w.log| ==> w.log[i].0 != v.node)
  }

  lemma {:induction false} DescribeExpandsOnce(render: Renderer, v: Value, depth: nat, w: Walk)
    requires ExpandedOnce(w.log) && LoggedAreVisited(w) && FirstOrFlat(v, depth, w)
    ensures ExpandedOnce(Describe(render, v, depth, w).1.log) && LoggedAreVisited(Describe(render, v, depth, w).1)
    decreases depth, if v.Ref? then |v.node.slots| + 1 else 0
  {
    if v.Ref? && !v.node.shape.TextShape? {
      SlotsExpandOnce(render, v.node, |v.node.slots|, depth, w.(log := w.log + [(v.node, depth)]));
    }
  }

  lemma {:induction false} SlotsExpandOnce(render: Renderer, n: Node, k: nat, depth: nat, w: Walk)
    requires k <= |n.slots| && ExpandedOnce(w.log) && LoggedAreVisited(w)
    ensures var after := DescribeSlots(render, n, k, depth, w).1; ExpandedOnce(after.log) && LoggedAreVisited(after)
    decreases depth, k
  {
    if k > 0 {
      SlotsExpandOnce(render, n, k - 1, depth, w);
      var (parts, before) := DescribeSlots(render, n, k - 1, depth, w);
      var slot := n.slots[k - 1];
      if slot.Prop? && depth > 0 && |parts| < PART_LIMIT {
        if slot.value.Ref? && slot.value.node in before.visited {
          DescribeExpandsOnce(render, slot.value, 0, before);
        } else {
          DescribeExpandsOnce(render, slot.value, depth - 1, Reached(slot.value, before));
        }
      }
    }
  }

  /** In one call of stringify every object is expanded at most once, at its first reference. */
  lemma StringifyExpandsOnce(render: Renderer, v: Value)
    ensures ExpandedOnce(Describe(render, v, 5, Walk(if v.Ref? then {v.node} else {}, [])).1.log)
  {
    DescribeExpandsOnce(render, v, 5, Walk(if v.Ref? then {v.node} else {}, []));
  }

  function Holes(slots: seq<Slot>): nat {
    if slots == [] then 0 else Holes(slots[..|slots| - 1]) + if slots[|slots| - 1].Hole? then 1 else 0
  }

  /** Properties contribute at most 26 parts, at depth 0 at most one; every missing array element adds one more,
      without any limit. */
  lemma {:induction false} PartsAreBounded(render: Renderer, n: Node, k: nat, depth: nat, w: Walk)
    requires k <= |n.slots|
    ensures var count := |DescribeSlots(render, n, k, depth, w).0|;
      var holes := Holes(n.slots[..k]);
      holes <= count <= holes + if depth == 0 then 1 else 26
  {
    if k > 0 {
      PartsAreBounded(render, n, k - 1, depth, w);
      assert n.slots[..k][..k - 1] == n.slots[..k - 1];
    }
  }
}
