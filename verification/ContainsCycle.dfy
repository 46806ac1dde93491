/** The depth-first search that guards recursive comparison. */
module CycleDetection {
  import opened ObjectGraph

  ghost predicate Reaches(from: Node, to: Node) {
    exists k: nat :: to in After(from, k)
  }

  ghost function Unseen(graph: set<Node>): set<Node>
    reads graph
  {
    set m | m in graph && !m.seen
  }

  lemma BackEdgeIsCycle(obj: Node, node: Node)
    requires node in Children(obj) && Reaches(node, obj)
    ensures CycleReachable(obj)
  {
    var k: nat :| obj in After(node, k);
    assert node in After(node, k + 1);
    assert obj in After(obj, 0);
    assert node in After(obj, 1);
    assert CycleWithin(obj, 1, k + 1);
  }

  lemma ReachesChild(m: Node, obj: Node, node: Node)
    requires Reaches(m, obj) && node in Children(obj)
    ensures Reaches(m, node)
  {
    var k: nat :| obj in After(m, k);
    assert node in After(m, k + 1);
  }

  /** Exact, although the root is not marked before it is walked and shared nodes are walked once per
      reference; every mark set on the way in is removed on the way out, also when a cycle was found. */
  method ContainsCycle(obj: Node, ghost graph: set<Node>) returns (found: bool)
    requires obj in graph && Closed(graph)
    requires forall m <- graph :: m.seen ==> Reaches(m, obj)
    modifies graph`seen
    ensures forall m <- graph :: m.seen == old(m.seen)
    ensures found <==> CycleReachable(obj)
    decreases Unseen(graph)
  {
    var i := 0;
    while i < |obj.slots|
      invariant 0 <= i <= |obj.slots|
      invariant forall m <- graph :: m.seen == old(m.seen)
      invariant forall j :: 0 <= j < i && IsChild(obj.slots[j]) ==> !CycleReachable(obj.slots[j].value.node)
    {
      if IsChild(obj.slots[i]) {
        var node := obj.slots[i].value.node;
        assert node in Children(obj);
        if node.seen {
          BackEdgeIsCycle(obj, node);
          return true;
        }
        node.seen := true;
        forall m <- graph | m.seen ensures Reaches(m, node) {
          if m == node {
            assert node in After(node, 0);
          } else {
            ReachesChild(m, obj, node);
          }
        }
        assert node in old(Unseen(graph)) && node !in Unseen(graph);
        found := ContainsCycle(node, graph);
        node.seen := false;
        if found {
          CycleBelow(obj, node);
          return;
        }
      }
      i := i + 1;
    }
    found := false;
    if CycleReachable(obj) {
      var child := CycleInSomeChild(obj);
    }
  }
}
