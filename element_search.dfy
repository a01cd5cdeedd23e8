/**
 * The element searches of the smoke-test automation driver (code.ts,
 * findElement and findElements): breadth-first walks over a snapshot of the
 * rendered DOM, one node dequeued at a time from a queue of pending subtrees.
 */
module ElementSearch {
  import opened Options
  import opened Sequences

  /** IElement: a node of the DOM snapshot the driver returns. */
  datatype Element = Element(
    tagName: string,
    className: string,
    textContent: string,
    attributes: map<string, string>,
    children: seq<Element>,
    top: int,
    left: int)

  /** Number of nodes in a subtree: the termination measure of the queue. */
  function Size(e: Element): nat
  {
    1 + SizeOf(e.children)
  }

  function SizeOf(es: seq<Element>): nat
  {
    if es == [] then 0 else Size(es[0]) + SizeOf(es[1..])
  }

  lemma {:induction false} SizeOfConcat(a: seq<Element>, b: seq<Element>)
    ensures SizeOf(a + b) == SizeOf(a) + SizeOf(b)
  {
    if a != [] {
      assert (a + b)[0] == a[0] && (a + b)[1..] == a[1..] + b;
      SizeOfConcat(a[1..], b);
    } else {
      assert a + b == b;
    }
  }

  /** Dequeuing the front node and pushing its children leaves one node fewer in the queue's subtrees. */
  lemma SizeOfStep(queue: seq<Element>)
    requires queue != []
    ensures SizeOf(queue[1..] + queue[0].children) < SizeOf(queue)
  {
    SizeOfConcat(queue[1..], queue[0].children);
  }

  /** The children of every node of `q`, in queue order: the next level of a level-order walk. */
  function Children(q: seq<Element>): seq<Element>
  {
    if q == [] then [] else q[0].children + Children(q[1..])
  }

  lemma {:induction false} ChildrenSize(q: seq<Element>)
    ensures SizeOf(Children(q)) + |q| == SizeOf(q)
  {
    if q != [] {
      ChildrenSize(q[1..]);
      SizeOfConcat(q[0].children, Children(q[1..]));
    }
  }

  /**
   * The order in which the search loop dequeues nodes from `queue`: the front
   * node, then whatever the rest of the queue, with the front node's children
   * pushed at its back, dequeues.
   */
  function BreadthFirst(queue: seq<Element>): seq<Element>
    decreases SizeOf(queue)
  {
    if queue == [] then []
    else
      SizeOfStep(queue);
      [queue[0]] + BreadthFirst(queue[1..] + queue[0].children)
  }

  /** Level order: the nodes of `q`, then the next level, and so on down to the leaves. */
  function LevelOrder(q: seq<Element>): seq<Element>
    decreases SizeOf(q)
  {
    if q == [] then []
    else
      ChildrenSize(q);
      q + LevelOrder(Children(q))
  }

  /** The nodes of a subtree, each once, in pre-order. */
  function Nodes(e: Element): seq<Element>
  {
    [e] + NodesOf(e.children)
  }

  function NodesOf(es: seq<Element>): seq<Element>
  {
    if es == [] then [] else Nodes(es[0]) + NodesOf(es[1..])
  }

  // ---------------------------------------------------------------------------
  // The queue walks the tree in level order and dequeues every node once
  // ---------------------------------------------------------------------------

  /** Draining `a` from the front of the queue dequeues `a`, and leaves `b` followed by `a`'s children. */
  lemma {:induction false} BreadthFirstConcat(a: seq<Element>, b: seq<Element>)
    ensures BreadthFirst(a + b) == a + BreadthFirst(b + Children(a))
    decreases |a|
  {
    if a == [] {
      assert a + b == b;
      assert b + Children(a) == b;
    } else {
      var x := a[0];
      calc {
        BreadthFirst(a + b);
        { assert (a + b)[0] == x && (a + b)[1..] == a[1..] + b; }
        [x] + BreadthFirst((a[1..] + b) + x.children);
        { AppendAssoc(a[1..], b, x.children); }
        [x] + BreadthFirst(a[1..] + (b + x.children));
        { BreadthFirstConcat(a[1..], b + x.children); }
        [x] + (a[1..] + BreadthFirst((b + x.children) + Children(a[1..])));
        { AppendAssoc(b, x.children, Children(a[1..])); }
        [x] + (a[1..] + BreadthFirst(b + Children(a)));
        { AppendAssoc([x], a[1..], BreadthFirst(b + Children(a))); assert [x] + a[1..] == a; }
        a + BreadthFirst(b + Children(a));
      }
    }
  }

  /** The search loop's queue discipline visits the nodes in level order. */
  lemma {:induction false} BreadthFirstIsLevelOrder(q: seq<Element>)
    ensures BreadthFirst(q) == LevelOrder(q)
    decreases SizeOf(q)
  {
    if q != [] {
      ChildrenSize(q);
      calc {
        BreadthFirst(q);
        { assert q + [] == q; }
        BreadthFirst(q + []);
        { BreadthFirstConcat(q, []); assert [] + Children(q) == Children(q); }
        q + BreadthFirst(Children(q));
        { BreadthFirstIsLevelOrder(Children(q)); }
        q + LevelOrder(Children(q));
      }
    }
  }

  lemma {:induction false} NodesOfConcat(a: seq<Element>, b: seq<Element>)
    ensures NodesOf(a + b) == NodesOf(a) + NodesOf(b)
  {
    if a != [] {
      assert (a + b)[0] == a[0] && (a + b)[1..] == a[1..] + b;
      NodesOfConcat(a[1..], b);
      AppendAssoc(Nodes(a[0]), NodesOf(a[1..]), NodesOf(b));
    } else {
      assert a + b == b;
    }
  }

  /** The nodes under a queue are the queue itself and the nodes under the next level. */
  lemma {:induction false} NodesOfLevel(q: seq<Element>)
    ensures multiset(NodesOf(q)) == multiset(q) + multiset(NodesOf(Children(q)))
  {
    if q != [] {
      var x := q[0];
      var a, b := NodesOf(x.children), NodesOf(q[1..]);
      calc {
        multiset(NodesOf(q));
        { assert NodesOf(q) == [x] + a + b; }
        multiset([x] + a + b);
        multiset([x]) + multiset(a) + multiset(b);
        { NodesOfLevel(q[1..]); }
        multiset([x]) + multiset(a) + (multiset(q[1..]) + multiset(NodesOf(Children(q[1..]))));
        { assert q == [x] + q[1..]; }
        multiset(q) + (multiset(a) + multiset(NodesOf(Children(q[1..]))));
        multiset(q) + multiset(a + NodesOf(Children(q[1..])));
        { NodesOfConcat(x.children, Children(q[1..])); }
        multiset(q) + multiset(NodesOf(Children(q)));
      }
    }
  }

  /** Level order lists every node under the queue, each as often as it occurs there. */
  lemma {:induction false} LevelOrderNodes(q: seq<Element>)
    ensures multiset(LevelOrder(q)) == multiset(NodesOf(q))
    decreases SizeOf(q)
  {
    if q != [] {
      ChildrenSize(q);
      LevelOrderNodes(Children(q));
      NodesOfLevel(q);
    }
  }

  /** Starting from the root alone, the search dequeues every node of the tree exactly once, root first, in level order. */
  lemma TreeWalk(e: Element)
    ensures BreadthFirst([e]) == LevelOrder([e])
    ensures BreadthFirst([e])[0] == e
    ensures multiset(BreadthFirst([e])) == multiset(Nodes(e))
  {
    BreadthFirstIsLevelOrder([e]);
    LevelOrderNodes([e]);
    assert NodesOf([e]) == Nodes(e) + [];
    assert Nodes(e) + [] == Nodes(e);
  }

  // ---------------------------------------------------------------------------
  // Matches in dequeue order
  // ---------------------------------------------------------------------------

  /** The elements of `s` that satisfy `fn`, in order. */
  function Filter(fn: Element -> bool, s: seq<Element>): seq<Element>
  {
    if s == [] then [] else (if fn(s[0]) then [s[0]] else []) + Filter(fn, s[1..])
  }

  /** The first element of `s` that satisfies `fn`. */
  function FirstMatch(fn: Element -> bool, s: seq<Element>): Option<Element>
  {
    if s == [] then None else if fn(s[0]) then Some(s[0]) else FirstMatch(fn, s[1..])
  }

  /** A first match satisfies `fn`, is in `s`, and there is none exactly when nothing in `s` satisfies `fn`. */
  lemma {:induction false} FirstMatchFound(fn: Element -> bool, s: seq<Element>)
    ensures FirstMatch(fn, s).Some? ==> fn(FirstMatch(fn, s).value) && FirstMatch(fn, s).value in s
    ensures FirstMatch(fn, s).None? <==> forall x | x in s :: !fn(x)
  {
    if s != [] && !fn(s[0]) {
      FirstMatchFound(fn, s[1..]);
      assert forall x | x in s :: x == s[0] || x in s[1..];
    }
  }

  /** The first match is the head of the list of all matches. */
  lemma {:induction false} FirstMatchFilter(fn: Element -> bool, s: seq<Element>)
    ensures FirstMatch(fn, s) == if Filter(fn, s) == [] then None else Some(Filter(fn, s)[0])
  {
    if s != [] && !fn(s[0]) {
      FirstMatchFilter(fn, s[1..]);
      assert Filter(fn, s) == [] + Filter(fn, s[1..]);
    }
  }

  /** Each element occurs among the matches as often as in `s` when it satisfies `fn`, and never otherwise. */
  lemma {:induction false} FilterCount(fn: Element -> bool, s: seq<Element>, x: Element)
    ensures multiset(Filter(fn, s))[x] == if fn(x) then multiset(s)[x] else 0
  {
    if s != [] {
      FilterCount(fn, s[1..], x);
      assert s == [s[0]] + s[1..];
    }
  }

  /**
   * Agreement of the two searches: findElement's result is the first of
   * findElements' results, and null exactly when findElements finds nothing.
   */
  lemma SearchesAgree(fn: Element -> bool, e: Element)
    ensures var all := Filter(fn, BreadthFirst([e]));
      FirstMatch(fn, BreadthFirst([e])) == if all == [] then None else Some(all[0])
  {
    FirstMatchFilter(fn, BreadthFirst([e]));
  }

  // ---------------------------------------------------------------------------
  // The two searches
  // ---------------------------------------------------------------------------

  /**
   * findElement: the root if it satisfies `fn`, otherwise the first node that
   * does in level order; none exactly when no node of the tree does.
   */
  method FindElement(element: Element, fn: Element -> bool) returns (r: Option<Element>)
    ensures r == FirstMatch(fn, LevelOrder([element]))
    ensures fn(element) ==> r == Some(element)
    ensures r.Some? ==> fn(r.value) && r.value in multiset(Nodes(element))
    ensures r.None? <==> forall x | x in multiset(Nodes(element)) :: !fn(x)
  {
    TreeWalk(element);
    FirstMatchFound(fn, BreadthFirst([element]));
    ghost var walk := BreadthFirst([element]);
    assert walk == [element] + BreadthFirst([] + element.children);
    var queue := [element];
    while |queue| > 0
      invariant FirstMatch(fn, walk) == FirstMatch(fn, BreadthFirst(queue))
      decreases SizeOf(queue)
    {
      var x := queue[0];
      if fn(x) {
        return Some(x);
      }
      SizeOfStep(queue);
      queue := queue[1..] + x.children;
    }
    return None;
  }

  /** One dequeue: the front node is a match or not, and the rest of the matches come from the updated queue. */
  lemma FilterStep(fn: Element -> bool, queue: seq<Element>)
    requires queue != []
    ensures Filter(fn, BreadthFirst(queue))
         == (if fn(queue[0]) then [queue[0]] else []) + Filter(fn, BreadthFirst(queue[1..] + queue[0].children))
  {
  }

  /** The matches in dequeue order hold each node that satisfies `fn` as often as the tree does, and no other. */
  lemma {:induction false} TreeMatches(fn: Element -> bool, e: Element)
    ensures Filter(fn, BreadthFirst([e])) == Filter(fn, LevelOrder([e]))
    ensures fn(e) ==> |Filter(fn, BreadthFirst([e]))| > 0 && Filter(fn, BreadthFirst([e]))[0] == e
    ensures forall x :: multiset(Filter(fn, BreadthFirst([e])))[x] == if fn(x) then multiset(Nodes(e))[x] else 0
  {
    TreeWalk(e);
    FilterStep(fn, [e]);
    forall x
      ensures multiset(Filter(fn, BreadthFirst([e])))[x] == if fn(x) then multiset(Nodes(e))[x] else 0
    {
      FilterCount(fn, BreadthFirst([e]), x);
    }
  }

  /**
   * findElements: all nodes that satisfy `fn`, in level order, root first;
   * each occurs as often as in the tree.
   */
  method FindElements(element: Element, fn: Element -> bool) returns (result: seq<Element>)
    ensures result == Filter(fn, LevelOrder([element]))
    ensures fn(element) ==> |result| > 0 && result[0] == element
    ensures forall x :: multiset(result)[x] == if fn(x) then multiset(Nodes(element))[x] else 0
  {
    TreeMatches(fn, element);
    ghost var matches := Filter(fn, BreadthFirst([element]));
    result := [];
    var queue := [element];
    assert matches == result + Filter(fn, BreadthFirst(queue));
    while |queue| > 0
      invariant matches == result + Filter(fn, BreadthFirst(queue))
      decreases SizeOf(queue)
    {
      var x := queue[0];
      var next := queue[1..] + x.children;
      FilterStep(fn, queue);
      if fn(x) {
        AppendAssoc(result, [x], Filter(fn, BreadthFirst(next)));
        result := result + [x];
      } else {
        assert [] + Filter(fn, BreadthFirst(next)) == Filter(fn, BreadthFirst(next));
      }
      SizeOfStep(queue);
      queue := next;
    }
    assert result + [] == result;
  }
}
