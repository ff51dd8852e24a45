/**
 * What `make_tree` does with the list `get_outline_list` builds from a whole
 * document: every node down to depth 3 becomes an item, in outline order,
 * under the item of its parent node; deeper nodes are left out (the source
 * stops at depth 3 because fully expanding the tree takes too long).
 */
module RoundTrip {
  import opened Wrappers
  import opened Outline
  import opened Gui
  import opened Tree

  /**
   * The items a forest should give: the nodes down to depth 3 in outline
   * order, each collapsed, unchecked, with its headline as text and the
   * index of its parent node's item as parent. `nodes` are siblings at
   * depth `depth` under the item `parent`, and the first of them gets the
   * index `base`.
   */
  function ExpectedItems(nodes: seq<VNode>, parent: Option<nat>, base: nat, depth: nat): seq<TreeItem>
    decreases nodes
  {
    if nodes == [] || depth > 3 then []
    else
      var kids := ExpectedItems(nodes[0].children, Some(base), base + 1, depth + 1);
      [NewItem(nodes[0].h, parent)] + kids + ExpectedItems(nodes[1..], parent, base + 1 + |kids|, depth)
  }

  /** The serialized outline of `nodes`: a node's own entry, its descendants', then its later siblings'. */
  lemma EntriesSplit(nodes: seq<VNode>, path: seq<nat>, first: nat)
    requires nodes != []
    ensures GetOutlineList(PreOrder(nodes, path, first)) ==
      [Entry(path + [first], nodes[0].gnx, nodes[0].h)]
      + GetOutlineList(PreOrder(nodes[0].children, path + [first], 0))
      + GetOutlineList(PreOrder(nodes[1..], path, first + 1))
  {
    var own := [Position(path + [first], nodes[0])];
    var below := PreOrder(nodes[0].children, path + [first], 0);
    var after := PreOrder(nodes[1..], path, first + 1);
    GetOutlineListAppend(own + below, after);
    GetOutlineListAppend(own, below);
  }

  /** Every position listed below the archived position `path` is deeper than `path`. */
  lemma {:induction false} PreOrderDeeper(nodes: seq<VNode>, path: seq<nat>, first: nat)
    ensures forall k :: 0 <= k < |PreOrder(nodes, path, first)| ==>
      |PreOrder(nodes, path, first)[k].archived| > |path|
    decreases nodes
  {
    if nodes != [] {
      PreOrderDeeper(nodes[0].children, path + [first], 0);
      PreOrderDeeper(nodes[1..], path, first + 1);
    }
  }

  /** Entries deeper than 3 leave `make_tree`'s state as it was. */
  lemma {:induction false} RunSkipsDeep(s: Built, outline: seq<Entry>)
    requires forall k :: 0 <= k < |outline| ==> Depth(outline[k]) > 3
    ensures Run(s, outline) == Done(s)
    decreases |outline|
  {
    if outline != [] {
      RunSkipsDeep(s, outline[1..]);
    }
  }

  /**
   * Rebuilding a list of sibling subtrees at depth `|path| + 1` appends
   * their expected items, hung under the stack entry at depth `|path|`,
   * and leaves the stack's first `|path|` entries (their ancestors) as they
   * were.
   */
  lemma {:induction false} RunSubforest(nodes: seq<VNode>, path: seq<nat>, first: nat, s: Built)
    requires |path| <= 2 && |s.stack| >= |path|
    ensures var parent := if path == [] then None else Some(s.stack[|path| - 1]);
      var r := Run(s, GetOutlineList(PreOrder(nodes, path, first)));
      && r.Done?
      && r.state.items == s.items + ExpectedItems(nodes, parent, |s.items|, |path| + 1)
      && |r.state.stack| >= |path|
      && (forall j :: 0 <= j < |path| ==> r.state.stack[j] == s.stack[j])
    decreases nodes, 1
  {
    if nodes == [] {
      var parent := if path == [] then None else Some(s.stack[|path| - 1]);
      assert GetOutlineList(PreOrder(nodes, path, first)) == [];
      assert s.items + ExpectedItems(nodes, parent, |s.items|, |path| + 1) == s.items;
    } else {
      var d := |path| + 1;
      var parent := if path == [] then None else Some(s.stack[|path| - 1]);
      var own := path + [first];
      var front := [Entry(own, nodes[0].gnx, nodes[0].h)] + GetOutlineList(PreOrder(nodes[0].children, own, 0));
      var after := GetOutlineList(PreOrder(nodes[1..], path, first + 1));
      EntriesSplit(nodes, path, first);
      var s2 := RunNode(nodes, path, first, s);
      var kids := ExpectedItems(nodes[0].children, Some(|s.items|), |s.items| + 1, d + 1);
      var rest := ExpectedItems(nodes[1..], parent, |s2.items|, d);
      assert |s2.items| == |s.items| + 1 + |kids|;
      ExpectedItemsFirst(nodes, parent, |s.items|, d, |s2.items|);
      RunSubforest(nodes[1..], path, first + 1, s2);
      RunAppend(s, front, after);
      var r := Run(s2, after);
      assert Run(s, GetOutlineList(PreOrder(nodes, path, first))) == r;
      ItemsAssemble(s.items, NewItem(nodes[0].h, parent), kids, rest, ExpectedItems(nodes, parent, |s.items|, d),
        s2.items, r.state.items);
    }
  }

  /** The expected items of a forest: its first node's, that node's descendants', then the later siblings'. */
  lemma ExpectedItemsFirst(nodes: seq<VNode>, parent: Option<nat>, base: nat, depth: nat, next: nat)
    requires nodes != [] && depth <= 3
    requires next == base + 1 + |ExpectedItems(nodes[0].children, Some(base), base + 1, depth + 1)|
    ensures ExpectedItems(nodes, parent, base, depth)
      == [NewItem(nodes[0].h, parent)] + ExpectedItems(nodes[0].children, Some(base), base + 1, depth + 1)
        + ExpectedItems(nodes[1..], parent, next, depth)
  {
  }

  /** Items made by a node, its descendants, then its later siblings, after the items there were. */
  lemma ItemsAssemble(before: seq<TreeItem>, item: TreeItem, kids: seq<TreeItem>, rest: seq<TreeItem>,
                      expected: seq<TreeItem>, mid: seq<TreeItem>, after: seq<TreeItem>)
    requires expected == [item] + kids + rest
    requires mid == before + [item] + kids && after == mid + rest
    ensures after == before + expected
  {
  }

  /**
   * Rebuilding the first of the sibling subtrees: the node's item under
   * the stack entry at depth `|path|`, then its descendants' items down to
   * depth 3; the ancestors' stack entries stay as they were.
   */
  lemma {:induction false} RunNode(nodes: seq<VNode>, path: seq<nat>, first: nat, s: Built) returns (s2: Built)
    requires nodes != [] && |path| <= 2 && |s.stack| >= |path|
    ensures var parent := if path == [] then None else Some(s.stack[|path| - 1]);
      var own := path + [first];
      && Run(s, [Entry(own, nodes[0].gnx, nodes[0].h)] + GetOutlineList(PreOrder(nodes[0].children, own, 0))) == Done(s2)
      && s2.items == s.items + [NewItem(nodes[0].h, parent)]
           + ExpectedItems(nodes[0].children, Some(|s.items|), |s.items| + 1, |path| + 2)
      && |s2.stack| >= |path|
      && (forall j :: 0 <= j < |path| ==> s2.stack[j] == s.stack[j])
    decreases nodes, 0
  {
    var d := |path| + 1;
    var node, own := nodes[0], path + [first];
    var head := Entry(own, node.gnx, node.h);
    var below := GetOutlineList(PreOrder(node.children, own, 0));
    var s1 := Step(s, head).value;
    assert |s1.stack| == d && s1.stack[d - 1] == |s.items|;
    if d + 1 <= 3 {
      RunSubforest(node.children, own, 0, s1);
    } else {
      PreOrderDeeper(node.children, own, 0);
      RunSkipsDeep(s1, below);
    }
    s2 := Run(s1, below).state;
    var outline := [head] + below;
    assert outline[0] == head && outline[1..] == below;
  }

  /**
   * `make_tree` over `get_outline_list` of a whole document (all positions,
   * in outline order) never fails, and creates exactly the expected items:
   * the document's nodes down to depth 3, each under its parent's item.
   */
  lemma MakeTreeRebuildsOutline(roots: seq<VNode>)
    ensures var r := Run(Built([], []), GetOutlineList(AllPositions(roots)));
      r.Done? && r.state.items == ExpectedItems(roots, None, 0, 1)
  {
    RunSubforest(roots, [], 0, Built([], []));
  }

  /** No entry is more than one level deeper than the one before it. */
  ghost predicate NoJumps(outline: seq<Entry>)
  {
    forall k :: 0 < k < |outline| ==> Depth(outline[k]) <= Depth(outline[k - 1]) + 1
  }

  /**
   * The shape the rebuild relies on: the first entry is top-level and depth
   * never grows by more than one step.
   */
  ghost predicate WellFormed(outline: seq<Entry>)
  {
    (outline != [] ==> Depth(outline[0]) == 1) && NoJumps(outline)
  }

  lemma NoJumpsConcat(a: seq<Entry>, b: seq<Entry>)
    requires NoJumps(a) && NoJumps(b)
    requires a != [] && b != [] ==> Depth(b[0]) <= Depth(a[|a| - 1]) + 1
    ensures NoJumps(a + b)
  {
    forall k | 0 < k < |a + b|
      ensures Depth((a + b)[k]) <= Depth((a + b)[k - 1]) + 1
    {
      if k > |a| {
        assert (a + b)[k] == b[k - |a|] && (a + b)[k - 1] == b[k - 1 - |a|];
      } else if k < |a| {
        assert (a + b)[k] == a[k] && (a + b)[k - 1] == a[k - 1];
      }
    }
  }

  /**
   * The serialized outline of sibling subtrees below `path` starts at depth
   * `|path| + 1`, never goes above it, and never jumps down more than one
   * level.
   */
  lemma {:induction false} PreOrderShape(nodes: seq<VNode>, path: seq<nat>, first: nat)
    ensures var es := GetOutlineList(PreOrder(nodes, path, first));
      && (es != [] ==> Depth(es[0]) == |path| + 1)
      && (forall k :: 0 <= k < |es| ==> Depth(es[k]) >= |path| + 1)
      && NoJumps(es)
    decreases nodes
  {
    if nodes != [] {
      var own := path + [first];
      var head := [Entry(own, nodes[0].gnx, nodes[0].h)];
      var below := GetOutlineList(PreOrder(nodes[0].children, own, 0));
      var after := GetOutlineList(PreOrder(nodes[1..], path, first + 1));
      EntriesSplit(nodes, path, first);
      PreOrderShape(nodes[0].children, own, 0);
      PreOrderShape(nodes[1..], path, first + 1);
      NoJumpsConcat(head, below);
      var front := head + below;
      assert Depth(front[|front| - 1]) >= |path| + 1;
      NoJumpsConcat(front, after);
      var es := front + after;
      forall k | 0 <= k < |es|
        ensures Depth(es[k]) >= |path| + 1
      {
        if k >= |front| {
          assert es[k] == after[k - |front|];
        } else if k >= 1 {
          assert es[k] == below[k - 1];
        }
      }
    }
  }

  /** The outline list of a whole document has the shape the rebuild relies on. */
  lemma AllPositionsWellFormed(roots: seq<VNode>)
    ensures WellFormed(GetOutlineList(AllPositions(roots)))
  {
    PreOrderShape(roots, [], 0);
  }

  /** Any outline of that shape, not only one read from a document, is rebuilt without failing. */
  lemma WellFormedNeverFails(items: seq<TreeItem>, outline: seq<Entry>)
    requires WellFormed(outline)
    ensures Run(Built(items, []), outline).Done?
  {
    RunFailsIff(Built(items, []), outline);
    if outline != [] {
      assert VisibleEntries(outline)[0] == outline[0];
    }
  }
}
