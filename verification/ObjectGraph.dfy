/** JavaScript values as a graph of objects, some of whose properties the library sets and deletes. */
module ObjectGraph {

  /** The `constructor` of an object: comparisons descend into plain objects and arrays only. */
  datatype Constructor = ObjectCtor | ArrayCtor | ClassCtor(id: int)

  /** How a value describes itself: arrays and arguments objects list their elements, objects whose toString
      gives '[object Object]' list their keys, anything else has a text of its own. */
  datatype Shape = ArrayShape | RecordShape | TextShape(text: string)

  datatype Value = Primitive(code: int) | Ref(node: Node)

  /** An own property, or a missing array element. */
  datatype Slot = Hole | Prop(key: string, value: Value)

  class Node {
    const ctor: Constructor
    const shape: Shape
    const slots: seq<Slot>
    /** The property __gjstest_containsCycle_already_seen. */
    var seen: bool
    /** The property __gjstest_next_object; null stands for its absence. */
    var nextObject: Node?

    constructor (ctor: Constructor, shape: Shape, slots: seq<Slot>)
      ensures this.ctor == ctor && this.shape == shape && this.slots == slots
      ensures !seen && nextObject == null
    {
      this.ctor, this.shape, this.slots := ctor, shape, slots;
      seen, nextObject := false, null;
    }
  }

  /** Not a leaf: a plain object or array. */
  predicate IsPlain(v: Value) {
    v.Ref? && !v.node.ctor.ClassCtor?
  }

  predicate IsChild(s: Slot) {
    s.Prop? && IsPlain(s.value)
  }

  ghost function Children(n: Node): set<Node> {
    set i | 0 <= i < |n.slots| && IsChild(n.slots[i]) :: n.slots[i].value.node
  }

  ghost predicate Closed(graph: set<Node>) {
    forall n <- graph :: Children(n) <= graph
  }

  // ----- Reachability, by number of steps

  ghost function After(start: Node, steps: nat): set<Node> {
    if steps == 0 then {start} else set n, c | n in After(start, steps - 1) && c in Children(n) :: c
  }

  /** Some node that can be reached can be reached again from itself. */
  ghost predicate CycleReachable(start: Node) {
    exists j: nat, k: nat :: CycleWithin(start, j, k)
  }

  ghost predicate CycleWithin(start: Node, j: nat, k: nat) {
    0 < k && exists n <- After(start, j) :: n in After(n, k)
  }

  lemma {:induction false} StepFirst(start: Node, child: Node, steps: nat, end: Node)
    requires child in Children(start) && end in After(child, steps)
    ensures end in After(start, steps + 1)
  {
    if steps == 0 {
      assert start in After(start, 0);
    } else {
      var n :| n in After(child, steps - 1) && end in Children(n);
      StepFirst(start, child, steps - 1, n);
    }
  }

  lemma {:induction false} FirstStep(start: Node, steps: nat, end: Node) returns (child: Node)
    requires end in After(start, steps + 1)
    ensures child in Children(start) && end in After(child, steps)
  {
    var n :| n in After(start, steps) && end in Children(n);
    if steps == 0 {
      child := end;
    } else {
      child := FirstStep(start, steps - 1, n);
    }
  }

  lemma CycleBelow(start: Node, child: Node)
    requires child in Children(start) && CycleReachable(child)
    ensures CycleReachable(start)
  {
    var j: nat, k: nat :| CycleWithin(child, j, k);
    var n :| n in After(child, j) && n in After(n, k);
    StepFirst(start, child, j, n);
    assert CycleWithin(start, j + 1, k);
  }

  /** A cycle through the start passes through one of its children. */
  lemma CycleInSomeChild(start: Node) returns (child: Node)
    requires CycleReachable(start)
    ensures child in Children(start) && CycleReachable(child)
  {
    var j: nat, k: nat :| CycleWithin(start, j, k);
    var n :| n in After(start, j) && n in After(n, k);
    if j == 0 {
      child := FirstStep(start, k - 1, start);
      assert CycleWithin(child, k - 1, k);
    } else {
      child := FirstStep(start, j - 1, n);
      assert CycleWithin(child, j - 1, k);
    }
  }

  // ----- Cycles as walks along properties

  /** A property of a holds b, which is a plain object or an array. */
  ghost predicate Holds(a: Node, b: Node) {
    (b.ctor == ObjectCtor || b.ctor == ArrayCtor) && exists s <- a.slots :: s.Prop? && s.value == Ref(b)
  }

  ghost predicate IsWalk(path: seq<Node>) {
    path != [] && forall i :: 0 <= i < |path| - 1 ==> Holds(path[i], path[i + 1])
  }

  lemma HoldsIsChild(a: Node, b: Node)
    ensures Holds(a, b) <==> b in Children(a)
  {
    if b in Children(a) {
      var i :| 0 <= i < |a.slots| && IsChild(a.slots[i]) && a.slots[i].value.node == b;
      assert a.slots[i] in a.slots;
    }
  }

  lemma {:induction false} WalkReaches(path: seq<Node>)
    requires IsWalk(path)
    ensures path[|path| - 1] in After(path[0], |path| - 1)
  {
    var n := |path| - 1;
    if n > 0 {
      WalkReaches(path[..n]);
      assert Holds(path[n - 1], path[n]);
      HoldsIsChild(path[n - 1], path[n]);
    }
  }

  lemma {:induction false} ReachedByWalk(start: Node, steps: nat, end: Node) returns (path: seq<Node>)
    requires end in After(start, steps)
    ensures IsWalk(path) && |path| == steps + 1 && path[0] == start && path[steps] == end
  {
    if steps == 0 {
      path := [start];
    } else {
      var n :| n in After(start, steps - 1) && end in Children(n);
      path := ReachedByWalk(start, steps - 1, n);
      HoldsIsChild(n, end);
      path := path + [end];
    }
  }

  /** The walk comes back to where it has been. */
  ghost predicate Loops(path: seq<Node>, j: nat) {
    IsWalk(path) && j < |path| - 1 && path[j] == path[|path| - 1]
  }

  lemma LoopIsCycle(path: seq<Node>, j: nat)
    requires Loops(path, j)
    ensures CycleReachable(path[0])
  {
    WalkReaches(path[..j + 1]);
    WalkReaches(path[j..]);
    assert CycleWithin(path[0], j, |path| - 1 - j);
  }

  lemma CycleHasLoop(start: Node) returns (path: seq<Node>, j: nat)
    requires CycleReachable(start)
    ensures Loops(path, j) && path[0] == start
  {
    var k: nat;
    j, k :| CycleWithin(start, j, k);
    var n :| n in After(start, j) && n in After(n, k);
    var front := ReachedByWalk(start, j, n);
    var loop := ReachedByWalk(n, k, n);
    path := front + loop[1..];
    forall i | 0 <= i < |path| - 1 ensures Holds(path[i], path[i + 1]) {
      if i < j {
        assert Holds(front[i], front[i + 1]);
      } else {
        assert Holds(loop[i - j], loop[i - j + 1]);
      }
    }
  }

  /** A cycle can be reached exactly if some walk along properties, through plain objects and arrays only, comes back
      to where it has been. */
  lemma CycleIffLoop(start: Node)
    ensures CycleReachable(start) <==> exists path, j: nat :: Loops(path, j) && path[0] == start
  {
    if CycleReachable(start) {
      var path, j := CycleHasLoop(start);
    }
    if path, j: nat :| Loops(path, j) && path[0] == start {
      LoopIsCycle(path, j);
    }
  }

  /** A plain object or an array that holds itself. */
  lemma SelfReferenceIsCycle(n: Node, key: string)
    requires n.ctor == ObjectCtor || n.ctor == ArrayCtor
    requires Prop(key, Ref(n)) in n.slots
    ensures CycleReachable(n)
  {
    assert Holds(n, n);
    assert Loops([n, n], 0);
    LoopIsCycle([n, n], 0);
  }

  /** An object that is held by nothing but an instance of a class that it holds itself. */
  lemma CycleThroughInstanceIsNone(n: Node, instance: Node)
    requires instance.ctor.ClassCtor? && n.slots == [Prop("x", Ref(instance))] && instance.slots == [Prop("y", Ref(n))]
    ensures !CycleReachable(n)
  {
    assert Children(n) == {};
    if CycleReachable(n) {
      var child := CycleInSomeChild(n);
    }
  }
}
