/** What a description says about the object: the reference walk, read slot by slot. */
module Descriptions {
  import opened Options
  import opened ObjectGraph
  import opened DescriptionText
  import opened Stringification

  // ----- The part of each slot

  ghost function Parts(render: Renderer, n: Node, k: nat, depth: nat, w: Walk): seq<string>
    requires k <= |n.slots|
  {
    DescribeSlots(render, n, k, depth, w).0
  }

  /** What the walk has reached when it comes to slot k. */
  ghost function Before(render: Renderer, n: Node, k: nat, depth: nat, w: Walk): Walk
    requires k <= |n.slots|
  {
    DescribeSlots(render, n, k, depth, w).1
  }

  /** A missing element leaves a blank; an element is described, a property behind its key; and what was visited before
      is described at depth 0, anything else one level down. */
  ghost function PartFor(render: Renderer, n: Node, slot: Slot, depth: nat, before: Walk): string
    requires depth > 0
  {
    match slot
    case Hole => ""
    case Prop(key, v) =>
      (if n.shape.ArrayShape? then "" else key + ": ")
      + if v.Ref? && v.node in before.visited then Describe(render, v, 0, before).0
        else Describe(render, v, depth - 1, Reached(v, before)).0
  }

  lemma NextSlot(render: Renderer, n: Node, k: nat, depth: nat, w: Walk)
    requires k < |n.slots|
    ensures DescribeSlots(render, n, k + 1, depth, w) ==
      DescribeSlot(render, n, n.slots[k], depth, Parts(render, n, k, depth, w), Before(render, n, k, depth, w))
  {
  }

  lemma EarlySlot(render: Renderer, n: Node, slot: Slot, depth: nat, parts: seq<string>, before: Walk)
    requires depth > 0 && |parts| < 25
    ensures DescribeSlot(render, n, slot, depth, parts, before).0 == parts + [PartFor(render, n, slot, depth, before)]
  {
  }

  lemma LateSlot(render: Renderer, n: Node, slot: Slot, depth: nat, parts: seq<string>, before: Walk)
    requires depth > 0 && 25 <= |parts|
    ensures DescribeSlot(render, n, slot, depth, parts, before) ==
      (parts + if slot.Hole? then [""] else if |parts| == 25 then ["..."] else [], before)
  {
    assert parts + [] == parts;
  }

  lemma FlatSlot(render: Renderer, n: Node, slot: Slot, parts: seq<string>, before: Walk)
    ensures DescribeSlot(render, n, slot, 0, parts, before).0 != []
    ensures DescribeSlot(render, n, slot, 0, parts, before).1 == before
  {
  }

  lemma PartsNext(render: Renderer, n: Node, k: nat, depth: nat, w: Walk)
    requires k < |n.slots| && depth > 0 && |Parts(render, n, k, depth, w)| < 25
    ensures Parts(render, n, k + 1, depth, w) ==
      Parts(render, n, k, depth, w) + [PartFor(render, n, n.slots[k], depth, Before(render, n, k, depth, w))]
  {
    NextSlot(render, n, k, depth, w);
    EarlySlot(render, n, n.slots[k], depth, Parts(render, n, k, depth, w), Before(render, n, k, depth, w));
  }

  /** The first 25 slots give one part each. */
  lemma {:induction false} FirstParts(render: Renderer, n: Node, k: nat, depth: nat, w: Walk)
    requires k <= |n.slots| && k <= 25 && depth > 0
    ensures |Parts(render, n, k, depth, w)| == k
  {
    if k > 0 {
      FirstParts(render, n, k - 1, depth, w);
      PartsNext(render, n, k - 1, depth, w);
    }
  }

  lemma {:induction false} PartIs(render: Renderer, n: Node, i: nat, k: nat, depth: nat, w: Walk)
    requires i < k <= |n.slots| && k <= 25 && depth > 0
    ensures i < |Parts(render, n, k, depth, w)|
    ensures Parts(render, n, k, depth, w)[i] == PartFor(render, n, n.slots[i], depth, Before(render, n, i, depth, w))
  {
    FirstParts(render, n, k - 1, depth, w);
    PartsNext(render, n, k - 1, depth, w);
    if i < k - 1 {
      PartIs(render, n, i, k - 1, depth, w);
    }
  }

  /** From then on only missing elements do, after the dots for the first that is not shown. */
  lemma LaterPart(render: Renderer, n: Node, k: nat, depth: nat, w: Walk)
    requires k < |n.slots| && depth > 0 && 25 <= |Parts(render, n, k, depth, w)|
    ensures Parts(render, n, k + 1, depth, w) == Parts(render, n, k, depth, w) +
      if n.slots[k].Hole? then [""] else if |Parts(render, n, k, depth, w)| == 25 then ["..."] else []
  {
    NextSlot(render, n, k, depth, w);
    LateSlot(render, n, n.slots[k], depth, Parts(render, n, k, depth, w), Before(render, n, k, depth, w));
  }

  /** Of more than 25 properties the first 25 are shown, and dots for the others. */
  lemma {:induction false} LongObjects(render: Renderer, n: Node, k: nat, depth: nat, w: Walk)
    requires 25 < k <= |n.slots| && depth > 0 && forall i :: 0 <= i < k ==> n.slots[i].Prop?
    ensures Parts(render, n, k, depth, w) == Parts(render, n, 25, depth, w) + ["..."]
  {
    if k == 26 {
      FirstParts(render, n, 25, depth, w);
      LaterPart(render, n, 25, depth, w);
    } else {
      LongObjects(render, n, k - 1, depth, w);
      FirstParts(render, n, 25, depth, w);
      LaterPart(render, n, k - 1, depth, w);
    }
  }

  // ----- The whole text

  ghost predicate IsContainer(n: Node) {
    n.shape.ArrayShape? || n.shape.RecordShape?
  }

  ghost function Begun(n: Node, depth: nat, w: Walk): Walk {
    w.(log := w.log + [(n, depth)])
  }

  /** An empty object, at any depth. */
  lemma EmptyText(render: Renderer, n: Node, depth: nat, w: Walk)
    requires IsContainer(n) && n.slots == []
    ensures Describe(render, Ref(n), depth, w).0 == if n.shape.ArrayShape? then "[]" else "{}"
  {
    AssembledShows(n.shape, depth, []);
  }

  lemma {:induction false} FlatParts(render: Renderer, n: Node, k: nat, w: Walk)
    requires k <= |n.slots|
    ensures Parts(render, n, k, 0, w) == [] <==> k == 0
    ensures Before(render, n, k, 0, w) == w
  {
    if k > 0 {
      FlatParts(render, n, k - 1, w);
      NextSlot(render, n, k - 1, 0, w);
      FlatSlot(render, n, n.slots[k - 1], Parts(render, n, k - 1, 0, w), w);
    }
  }

  /** An object that is not empty, where none is to be expanded any more. */
  lemma FlatText(render: Renderer, n: Node, w: Walk)
    requires IsContainer(n) && n.slots != []
    ensures Describe(render, Ref(n), 0, w) == (if n.shape.ArrayShape? then "[...]" else "{...}", Begun(n, 0, w))
  {
    var begun := Begun(n, 0, w);
    FlatParts(render, n, |n.slots|, begun);
    AssembledShows(n.shape, 0, Parts(render, n, |n.slots|, 0, begun));
  }

  /** An object that is expanded: the text gives back its kind and the part of each of its slots. */
  lemma TextReadsBack(render: Renderer, n: Node, depth: nat, w: Walk)
    requires IsContainer(n) && depth > 0
    requires AllSeparable(Parts(render, n, |n.slots|, depth, Begun(n, depth, w)))
    ensures ReadShown(Describe(render, Ref(n), depth, w).0)
            == Some(Shown(n.shape.ArrayShape?, Parts(render, n, |n.slots|, depth, Begun(n, depth, w))))
  {
    AssembledShows(n.shape, depth, Parts(render, n, |n.slots|, depth, Begun(n, depth, w)));
  }

  /** What describes itself does so at any depth, and primitive values are rendered for theirs. */
  lemma LeafText(render: Renderer, v: Value, depth: nat, w: Walk)
    ensures v.Primitive? ==> Describe(render, v, depth, w) == (render(v.code, depth), w)
    ensures v.Ref? && v.node.shape.TextShape? ==> Describe(render, v, depth, w) == (v.node.shape.text, w)
  {
  }

  // ----- Flat objects

  /** The walk that stringify starts. */
  ghost function StartAt(v: Value): Walk {
    Walk(if v.Ref? then {v.node} else {}, [])
  }

  /** What stringify returns. */
  ghost function Text(render: Renderer, v: Value): string {
    Describe(render, v, 5, StartAt(v)).0
  }

  /** The part of a primitive value one level down. */
  function FlatPart(render: Renderer, shape: Shape, slot: Slot): string
    requires slot.Prop? && slot.value.Primitive?
  {
    (if shape.ArrayShape? then "" else slot.key + ": ") + render(slot.value.code, 4)
  }

  /** At most 25 properties, with primitive values, none of them written with the separator. */
  ghost predicate Flat(render: Renderer, n: Node) {
    && IsContainer(n) && |n.slots| <= 25
    && forall i :: 0 <= i < |n.slots| ==>
         n.slots[i].Prop? && n.slots[i].value.Primitive? && Separable(FlatPart(render, n.shape, n.slots[i]))
  }

  ghost function FlatPartsOf(render: Renderer, n: Node): (parts: seq<string>)
    requires Flat(render, n)
    ensures |parts| == |n.slots|
    ensures forall i :: 0 <= i < |parts| ==> parts[i] == FlatPart(render, n.shape, n.slots[i])
  {
    seq(|n.slots|, i requires 0 <= i < |n.slots| => FlatPart(render, n.shape, n.slots[i]))
  }

  /** The text of a flat object gives back its kind and the text of each property, in order. */
  lemma FlatReadsBack(render: Renderer, n: Node)
    requires Flat(render, n)
    ensures ReadShown(Text(render, Ref(n))) == Some(Shown(n.shape.ArrayShape?, FlatPartsOf(render, n)))
  {
    var w := Begun(n, 5, StartAt(Ref(n)));
    var parts := Parts(render, n, |n.slots|, 5, w);
    FirstParts(render, n, |n.slots|, 5, w);
    forall i | 0 <= i < |parts| ensures parts[i] == FlatPart(render, n.shape, n.slots[i]) && Separable(parts[i]) {
      PartIs(render, n, i, |n.slots|, 5, w);
      LeafText(render, n.slots[i].value, 4, Before(render, n, i, 5, w));
    }
    assert parts == FlatPartsOf(render, n);
    TextReadsBack(render, n, 5, StartAt(Ref(n)));
  }

  /** No colon in the key, so that a part is read as key and value in one way only. */
  predicate PlainKey(key: string) {
    forall i :: 0 <= i < |key| ==> key[i] != ':'
  }

  lemma {:induction false} KeyEnds(a: string, x: string, b: string, y: string)
    requires PlainKey(a) && PlainKey(b) && a + ": " + x == b + ": " + y
    ensures a == b && x == y
  {
    if a == "" || b == "" {
      assert a == "" ==> (a + ": " + x)[0] == ':';
      assert b == "" ==> (b + ": " + y)[0] == ':';
      assert (": " + x)[2..] == x && (": " + y)[2..] == y;
      assert "" + ": " + x == ": " + x && "" + ": " + y == ": " + y;
    } else {
      assert (a + ": " + x)[1..] == a[1..] + ": " + x && (b + ": " + y)[1..] == b[1..] + ": " + y;
      KeyEnds(a[1..], x, b[1..], y);
      assert a == [a[0]] + a[1..] && b == [b[0]] + b[1..];
      assert a[0] == (a + ": " + x)[0] == (b + ": " + y)[0] == b[0];
    }
  }

  /** Two flat objects with the same text are of one kind and have the same values in the same order, and properties
      have the same keys. */
  lemma FlatTextsTell(render: Renderer, a: Node, b: Node, i: nat)
    requires Flat(render, a) && Flat(render, b) && Text(render, Ref(a)) == Text(render, Ref(b))
    requires forall x, y :: render(x, 4) == render(y, 4) ==> x == y
    ensures a.shape.ArrayShape? == b.shape.ArrayShape? && |a.slots| == |b.slots|
    ensures i < |a.slots| && (a.shape.ArrayShape? || (PlainKey(a.slots[i].key) && PlainKey(b.slots[i].key))) ==>
      a.slots[i].value == b.slots[i].value && (!a.shape.ArrayShape? ==> a.slots[i].key == b.slots[i].key)
  {
    FlatReadsBack(render, a);
    FlatReadsBack(render, b);
    if i < |a.slots| && (a.shape.ArrayShape? || (PlainKey(a.slots[i].key) && PlainKey(b.slots[i].key))) {
      assert FlatPartsOf(render, a)[i] == FlatPartsOf(render, b)[i];
      SamePart(render, a.shape, a.slots[i], b.shape, b.slots[i]);
    }
  }

  lemma SamePart(render: Renderer, shape: Shape, s: Slot, shape': Shape, t: Slot)
    requires s.Prop? && s.value.Primitive? && t.Prop? && t.value.Primitive? && shape.ArrayShape? == shape'.ArrayShape?
    requires FlatPart(render, shape, s) == FlatPart(render, shape', t)
    requires shape.ArrayShape? || (PlainKey(s.key) && PlainKey(t.key))
    ensures render(s.value.code, 4) == render(t.value.code, 4) && (!shape.ArrayShape? ==> s.key == t.key)
  {
    var x, y := render(s.value.code, 4), render(t.value.code, 4);
    if shape.ArrayShape? {
      assert "" + x == x && "" + y == y;
    } else {
      KeyEnds(s.key, x, t.key, y);
    }
  }

  // ----- Depth, sharing and cycles

  lemma DescribeUnfolds(render: Renderer, n: Node, depth: nat, w: Walk)
    requires IsContainer(n)
    ensures Describe(render, Ref(n), depth, w).0 ==
      Assemble(n.shape, depth, Parts(render, n, |n.slots|, depth, Begun(n, depth, w)))
  {
  }

  lemma OnePart(shape: Shape, depth: nat, text: string)
    requires !shape.ArrayShape? && depth > 0
    ensures Assemble(shape, depth, ["a: " + text]) == "{ a: " + text + " }"
  {
    assert "{" + " " + ("a: " + text) + " " + "}" == "{ a: " + text + " }";
  }

  /** The description of the value of an only property. */
  ghost function Inside(render: Renderer, v: Value, depth: nat, w: Walk): string
    requires depth > 0
  {
    if v.Ref? && v.node in w.visited then Describe(render, v, 0, w).0 else Describe(render, v, depth - 1, Reached(v, w)).0
  }

  lemma OnlyPart(render: Renderer, n: Node, v: Value, depth: nat, w: Walk)
    requires n.shape.RecordShape? && n.slots == [Prop("a", v)] && depth > 0
    ensures Parts(render, n, 1, depth, w) == ["a: " + Inside(render, v, depth, w)]
  {
    FirstParts(render, n, 1, depth, w);
    PartIs(render, n, 0, 1, depth, w);
    assert PartFor(render, n, n.slots[0], depth, w) == "a: " + Inside(render, v, depth, w);
    assert Before(render, n, 0, depth, w) == w;
  }

  lemma OneProperty(render: Renderer, n: Node, v: Value, depth: nat, w: Walk)
    requires n.shape.RecordShape? && n.slots == [Prop("a", v)] && depth > 0
    ensures Describe(render, Ref(n), depth, w).0 == "{ a: " + Inside(render, v, depth, Begun(n, depth, w)) + " }"
  {
    DescribeUnfolds(render, n, depth, w);
    OnlyPart(render, n, v, depth, Begun(n, depth, w));
    OnePart(n.shape, depth, Inside(render, v, depth, Begun(n, depth, w)));
  }

  /** Objects, each the only property of the one before it. */
  ghost predicate Nested(chain: seq<Node>) {
    && (forall i :: 0 <= i < |chain| - 1 ==>
          chain[i].shape.RecordShape? && chain[i].slots == [Prop("a", Ref(chain[i + 1]))])
    && forall i, j :: 0 <= i < j < |chain| ==> chain[i] != chain[j]
  }

  function NestedText(depth: nat): string {
    if depth == 0 then "{...}" else "{ a: " + NestedText(depth - 1) + " }"
  }

  lemma {:induction false} NestedIsExpanded(render: Renderer, chain: seq<Node>, depth: nat, w: Walk)
    requires Nested(chain) && depth + 1 < |chain|
    requires forall i :: 0 < i < |chain| ==> chain[i] !in w.visited
    ensures Describe(render, Ref(chain[0]), depth, w).0 == NestedText(depth)
  {
    if depth == 0 {
      FlatText(render, chain[0], w);
    } else {
      OneProperty(render, chain[0], Ref(chain[1]), depth, w);
      NestedIsExpanded(render, chain[1..], depth - 1, Reached(Ref(chain[1]), Begun(chain[0], depth, w)));
    }
  }

  /** Five levels are expanded, and the next is not. */
  lemma FiveLevels(render: Renderer, chain: seq<Node>)
    requires Nested(chain) && 7 <= |chain|
    ensures Text(render, Ref(chain[0])) == NestedText(5)
  {
    NestedIsExpanded(render, chain, 5, StartAt(Ref(chain[0])));
  }

  /** An object that holds itself. */
  lemma SelfReferenceIsFlat(render: Renderer, n: Node)
    requires n.shape.RecordShape? && n.slots == [Prop("a", Ref(n))]
    ensures Text(render, Ref(n)) == "{ a: {...} }"
  {
    var w := StartAt(Ref(n));
    OneProperty(render, n, Ref(n), 5, w);
    FlatText(render, n, Begun(n, 5, w));
  }
}
