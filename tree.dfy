/**
 * `LeoTree`, the outline pane: `make_tree` rebuilds flexx `TreeItem`s from
 * the serialized outline, and `on_event` logs the changes of those items.
 *
 * The items of the tree widget are kept as an arena: `items[k]` is the k-th
 * item created, and its `parent` is the index of the item it was created in
 * (`with stack[-1]:`), or `None` for a top-level item, which hangs off the
 * `TreeWidget` itself. The children of an item are therefore the items that
 * name it as parent, in creation order.
 *
 * `Step` and `Run` specify `make_tree` one entry at a time; the method
 * `LeoTree.MakeTree` is proved to compute `Run`.
 */
module Tree {
  import opened Wrappers
  import opened Arith
  import opened Outline
  import opened Padding
  import opened Events
  import opened Log

  /** A `flx.TreeItem`: its text, its `collapsed` and `checked` properties, and where it hangs. */
  datatype TreeItem = TreeItem(text: string, collapsed: bool, checked: Option<bool>, parent: Option<nat>)

  /** `flx.TreeItem(text=h, checked=None, collapsed=True)`, created inside `parent`. */
  function NewItem(h: string, parent: Option<nat>): TreeItem
  {
    TreeItem(h, true, None, parent)
  }

  /** The state of `make_tree` between two entries: the items so far and the stack of open ancestors. */
  datatype Built = Built(items: seq<TreeItem>, stack: seq<nat>)

  /**
   * The end of `make_tree`: it finished, or the entry at index `at` raised
   * (at `with stack[-1]:` on an empty stack) with `state` as it was before that entry.
   */
  datatype Outcome = Done(state: Built) | Failed(state: Built, at: nat)

  /** An entry `make_tree` turns into an item: depth 1, 2 or 3. */
  predicate Visible(e: Entry)
  {
    1 <= Depth(e) <= 3
  }

  /**
   * One iteration of `make_tree`'s loop. A depth-1 entry becomes a top-level
   * item and the whole stack; a depth-2 or depth-3 entry truncates the stack
   * to `n - 1` items (Python's slice keeps all of a shorter stack), becomes
   * the last child of the last item left, and is pushed; any other depth is
   * skipped. It fails exactly when a depth-2 or depth-3 entry meets an
   * empty stack.
   */
  function Step(s: Built, e: Entry): (r: Option<Built>)
    ensures r.None? <==> (Depth(e) == 2 || Depth(e) == 3) && s.stack == []
    ensures !Visible(e) ==> r == Some(s)
    ensures r.Some? && Visible(e) ==>
      var t := r.value;
      && |t.stack| == Min(|s.stack|, Depth(e) - 1) + 1
      && (forall j :: 0 <= j < |t.stack| - 1 ==> t.stack[j] == s.stack[j])
      && t.stack[|t.stack| - 1] == |s.items|
      && t.items == s.items + [NewItem(e.h, if Depth(e) == 1 then None else Some(s.stack[|t.stack| - 2]))]
  {
    var n := Depth(e);
    if n == 1 then
      Some(Built(s.items + [NewItem(e.h, None)], [|s.items|]))
    else if n == 2 || n == 3 then
      var kept := s.stack[..Min(n - 1, |s.stack|)];
      if kept == [] then None
      else Some(Built(s.items + [NewItem(e.h, Some(kept[|kept| - 1]))], kept + [|s.items|]))
    else
      Some(s)
  }

  /** `make_tree`'s loop over `outline`, from state `s`. */
  function Run(s: Built, outline: seq<Entry>): Outcome
    decreases |outline|
  {
    if outline == [] then Done(s)
    else
      match Step(s, outline[0])
      case None => Failed(s, 0)
      case Some(next) => Shift(Run(next, outline[1..]), 1)
  }

  /** An outcome seen from `n` entries earlier in the outline. */
  function Shift(r: Outcome, n: nat): Outcome
  {
    match r
    case Done(t) => Done(t)
    case Failed(t, at) => Failed(t, at + n)
  }

  /** Running two parts of an outline one after the other is running the whole. */
  lemma {:induction false} RunAppend(s: Built, a: seq<Entry>, b: seq<Entry>)
    ensures Run(s, a + b) ==
      match Run(s, a)
      case Failed(t, at) => Failed(t, at)
      case Done(t) => Shift(Run(t, b), |a|)
    decreases |a|
  {
    if a == [] {
      assert a + b == b;
    } else {
      assert (a + b)[0] == a[0];
      assert (a + b)[1..] == a[1..] + b;
      match Step(s, a[0])
      case None =>
      case Some(next) =>
        RunAppend(next, a[1..], b);
    }
  }

  /** The loop's step: one more entry is one more `Step`. */
  lemma RunSnoc(s: Built, a: seq<Entry>, e: Entry)
    ensures Run(s, a + [e]) ==
      match Run(s, a)
      case Failed(t, at) => Failed(t, at)
      case Done(t) =>
        match Step(t, e)
        case None => Failed(t, |a|)
        case Some(u) => Done(u)
  {
    RunAppend(s, a, [e]);
    if Run(s, a).Done? {
      assert [e][1..] == [];
    }
  }

  /**
   * The arena and the stack are consistent: every item was created after
   * its parent; the stack runs from a top-level item down to the newest
   * item, each entry a child of the one before it.
   */
  ghost predicate ValidState(s: Built)
  {
    && (forall k :: 0 <= k < |s.items| && s.items[k].parent.Some? ==> s.items[k].parent.value < k)
    && (forall j :: 0 <= j < |s.stack| ==> s.stack[j] < |s.items|)
    && (|s.stack| > 0 ==> s.items[s.stack[0]].parent == None && s.stack[|s.stack| - 1] == |s.items| - 1)
    && (forall j :: 0 < j < |s.stack| ==> s.items[s.stack[j]].parent == Some(s.stack[j - 1]))
  }

  /** Each step keeps the arena and the stack consistent. */
  lemma StepPreservesValid(s: Built, e: Entry)
    requires ValidState(s) && Step(s, e).Some?
    ensures ValidState(Step(s, e).value)
  {
    var t := Step(s, e).value;
    if Visible(e) {
      var n, m := |s.items|, |t.stack| - 1;
      assert forall k :: 0 <= k < n ==> t.items[k] == s.items[k];
      assert t.items[n].parent.Some? ==> t.items[n].parent.value == s.stack[m - 1] < n;
      assert forall j :: 0 <= j < m ==> t.stack[j] == s.stack[j] < n;
      assert t.stack[m] == n;
      assert forall j :: 0 < j < m ==> t.items[t.stack[j]].parent == Some(t.stack[j - 1]);
    }
  }

  /** `make_tree` keeps the arena and the stack consistent, whether it finishes or fails. */
  lemma {:induction false} RunPreservesValid(s: Built, outline: seq<Entry>)
    requires ValidState(s)
    ensures ValidState(Run(s, outline).state)
    decreases |outline|
  {
    if outline != [] {
      match Step(s, outline[0])
      case None =>
      case Some(next) =>
        StepPreservesValid(s, outline[0]);
        RunPreservesValid(next, outline[1..]);
    }
  }

  /** The entries of depth 1, 2 or 3, in order. */
  function VisibleEntries(outline: seq<Entry>): seq<Entry>
  {
    if outline == [] then []
    else (if Visible(outline[0]) then [outline[0]] else []) + VisibleEntries(outline[1..])
  }

  /** The entries `make_tree` got through: all of them, or those before the one that failed. */
  function Processed(r: Outcome, outline: seq<Entry>): seq<Entry>
  {
    if r.Done? || r.at > |outline| then outline else outline[..r.at]
  }

  /**
   * `items` is `before` followed by one item per entry of `made`, in order,
   * each with the entry's headline as text, collapsed and with `checked` unset.
   */
  ghost predicate CreatedFrom(items: seq<TreeItem>, before: seq<TreeItem>, made: seq<Entry>)
  {
    && |items| == |before| + |made|
    && (forall k :: 0 <= k < |before| ==> items[k] == before[k])
    && (forall k :: 0 <= k < |made| ==>
          items[|before| + k].text == made[k].h && items[|before| + k].collapsed && items[|before| + k].checked == None)
  }

  lemma CreatedFromTrans(a: seq<TreeItem>, b: seq<TreeItem>, c: seq<TreeItem>, m1: seq<Entry>, m2: seq<Entry>)
    requires CreatedFrom(b, a, m1) && CreatedFrom(c, b, m2)
    ensures CreatedFrom(c, a, m1 + m2)
  {
    forall k | 0 <= k < |m1 + m2|
      ensures c[|a| + k].text == (m1 + m2)[k].h && c[|a| + k].collapsed && c[|a| + k].checked == None
    {
      if k < |m1| {
        assert c[|a| + k] == b[|a| + k];
      } else {
        assert c[|a| + k] == c[|b| + (k - |m1|)];
      }
    }
  }

  /** A failure happens at an entry of depth 2 or 3, with the stack empty. */
  lemma {:induction false} RunFailsAt(s: Built, outline: seq<Entry>)
    ensures var r := Run(s, outline);
      r.Failed? ==> r.at < |outline| && (Depth(outline[r.at]) == 2 || Depth(outline[r.at]) == 3) && r.state.stack == []
    decreases |outline|
  {
    if outline != [] {
      match Step(s, outline[0])
      case None =>
      case Some(t) =>
        RunFailsAt(t, outline[1..]);
    }
  }

  /**
   * `make_tree` creates one item per entry of depth 1, 2 or 3 that it gets
   * through, in order, and nothing for the others: each new item has the
   * entry's headline as text, is collapsed and has `checked` unset. Items
   * created before stay as they were, also when it fails.
   */
  lemma {:induction false} RunCreatesItems(s: Built, outline: seq<Entry>)
    ensures var r := Run(s, outline);
      CreatedFrom(r.state.items, s.items, VisibleEntries(Processed(r, outline)))
    decreases |outline|
  {
    if outline == [] {
      return;
    }
    var e := outline[0];
    var r := Run(s, outline);
    match Step(s, e)
    case None =>
      assert Processed(r, outline) == [];
    case Some(t) =>
      var r' := Run(t, outline[1..]);
      RunCreatesItems(t, outline[1..]);
      ProcessedFirst(s, outline);
      var done' := Processed(r', outline[1..]);
      assert ([e] + done')[1..] == done';
      var first := if Visible(e) then [e] else [];
      assert VisibleEntries(Processed(r, outline)) == first + VisibleEntries(done');
      StepCreates(s, e);
      CreatedFromTrans(s.items, t.items, r.state.items, first, VisibleEntries(done'));
  }

  /** When the first entry goes through, the entries got through are it and those got through after it. */
  lemma ProcessedFirst(s: Built, outline: seq<Entry>)
    requires outline != [] && Step(s, outline[0]).Some?
    ensures var t := Step(s, outline[0]).value;
      Processed(Run(s, outline), outline) == [outline[0]] + Processed(Run(t, outline[1..]), outline[1..])
  {
    var t := Step(s, outline[0]).value;
    var r' := Run(t, outline[1..]);
    assert Run(s, outline) == Shift(r', 1);
    RunFailsAt(t, outline[1..]);
    ProcessedShift(r', outline);
  }

  /** Seen from one entry earlier, the entries got through gain that entry at the front. */
  lemma ProcessedShift(r: Outcome, outline: seq<Entry>)
    requires outline != [] && (r.Failed? ==> r.at < |outline| - 1)
    ensures Processed(Shift(r, 1), outline) == [outline[0]] + Processed(r, outline[1..])
  {
    if r.Failed? {
      assert outline[..r.at + 1] == [outline[0]] + outline[1..][..r.at];
    } else {
      assert outline == [outline[0]] + outline[1..];
    }
  }

  /** One step creates one item for a visible entry and none for the others. */
  lemma StepCreates(s: Built, e: Entry)
    requires Step(s, e).Some?
    ensures CreatedFrom(Step(s, e).value.items, s.items, if Visible(e) then [e] else [])
  {
  }

  /** Once the stack holds an item, no later entry can make `make_tree` fail. */
  lemma {:induction false} NonEmptyStackNeverFails(s: Built, outline: seq<Entry>)
    requires s.stack != []
    ensures Run(s, outline).Done?
    decreases |outline|
  {
    if outline != [] {
      NonEmptyStackNeverFails(Step(s, outline[0]).value, outline[1..]);
    }
  }

  /**
   * Starting from an empty stack, `make_tree` fails exactly when the first
   * entry of depth 1, 2 or 3 is not of depth 1: a depth-2 or depth-3 entry
   * that no depth-1 entry precedes.
   */
  lemma {:induction false} RunFailsIff(s: Built, outline: seq<Entry>)
    requires s.stack == []
    ensures Run(s, outline).Failed? <==>
      VisibleEntries(outline) != [] && Depth(VisibleEntries(outline)[0]) != 1
    decreases |outline|
  {
    if outline != [] {
      var e := outline[0];
      if !Visible(e) {
        RunFailsIff(s, outline[1..]);
      } else if Depth(e) == 1 {
        NonEmptyStackNeverFails(Step(s, e).value, outline[1..]);
      }
    }
  }

  /**
   * A depth-3 entry right after a depth-1 entry: the slice keeps the
   * one-entry stack whole, so the item hangs directly under the depth-1 item.
   */
  lemma JumpHangsUnderTop(g: string, h: string, g': string, h': string)
    ensures Run(Built([], []), [Entry([0], g, h), Entry([0, 0, 0], g', h')])
      == Done(Built([NewItem(h, None), NewItem(h', Some(0))], [0, 1]))
  {
    var e1, e2 := Entry([0], g, h), Entry([0, 0, 0], g', h');
    var s1 := Built([NewItem(h, None)], [0]);
    var s2 := Built([NewItem(h, None), NewItem(h', Some(0))], [0, 1]);
    assert [] + [NewItem(h, None)] == s1.items;
    assert Step(Built([], []), e1) == Some(s1);
    assert s1.stack[..Min(2, 1)] == [0];
    assert s1.items + [NewItem(h', Some(0))] == s2.items && [0] + [|s1.items|] == s2.stack;
    assert Step(s1, e2) == Some(s2);
    assert [e1, e2][1..] == [e2] && [e2][1..] == [];
    assert Run(s1, [e2]) == Done(s2);
  }

  /** A depth-2 entry first: `with stack[-1]:` raises at index 0 and nothing is created. */
  lemma OrphanFails(g: string, h: string, rest: seq<Entry>)
    ensures Run(Built([], []), [Entry([0, 0], g, h)] + rest) == Failed(Built([], []), 0)
  {
    var outline := [Entry([0, 0], g, h)] + rest;
    assert outline[0] == Entry([0, 0], g, h);
  }

  class LeoTree {
    /** The items of the `TreeWidget`, in creation order. */
    var items: seq<TreeItem>

    /** Whether `init` completed: false when `make_tree` raised inside it. */
    var built: bool

    /**
     * `init(outline)`: a new, empty `TreeWidget` filled by `make_tree`.
     * `built` is false exactly when `make_tree` raises, which makes `init`
     * raise; the items created before the failure are kept.
     */
    constructor (outline: seq<Entry>)
      ensures built == Run(Built([], []), outline).Done?
      ensures items == Run(Built([], []), outline).state.items
    {
      items := [];
      built := false;
      new;
      built := MakeTree(outline);
    }

    /**
     * `make_tree(outline)`: adds the outline's items to the widget. `ok` is
     * false when the source raises, at a depth-2 or depth-3 entry that finds
     * the stack empty.
     */
    method MakeTree(outline: seq<Entry>) returns (ok: bool)
      modifies this
      ensures ok == Run(Built(old(items), []), outline).Done?
      ensures items == Run(Built(old(items), []), outline).state.items
      ensures built == old(built)
    {
      ghost var start := Built(items, []);
      var stack: seq<nat> := [];
      for i := 0 to |outline|
        invariant Run(start, outline[..i]) == Done(Built(items, stack))
        invariant built == old(built)
      {
        var e := outline[i];
        var n := |e.archived|;
        RunSnoc(start, outline[..i], e);
        assert outline[..i + 1] == outline[..i] + [e];
        if n == 1 {
          items := items + [NewItem(e.h, None)];
          stack := [|items| - 1];
        } else if n == 2 || n == 3 {
          stack := stack[..Min(n - 1, |stack|)];
          if stack == [] {
            RunAppend(start, outline[..i + 1], outline[i + 1..]);
            assert outline[..i + 1] + outline[i + 1..] == outline;
            return false;
          }
          items := items + [NewItem(e.h, Some(stack[|stack| - 1]))];
          stack := stack + [|items| - 1];
        }
      }
      assert outline[..|outline|] == outline;
      return true;
    }

    /**
     * `on_event(*events)`: one log line per event, in event order, each
     * appended to the log with `put`.
     */
    method OnEvent(events: seq<Event>, log: LeoLog)
      modifies log
      ensures log.text == old(log.text) + Appended(Lines(events))
    {
      for i := 0 to |events|
        invariant log.text == old(log.text) + Appended(Lines(events[..i]))
      {
        var ev := events[i];
        var id := SourceId(ev);
        var s := Label(ev);
        assert s != "";
        var line := LPad(s, LabelWidth) + ": " + id;
        LogOneMore(old(log.text), events, i, line);
        log.Put(line);
      }
      assert events[..|events|] == events;
    }
  }
}
