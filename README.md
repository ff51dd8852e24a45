# leoflexx: a Dafny model

`leo/plugins/leoflexx.py` is an experimental browser front end for the Leo
outliner built on flexx. Its Python side opens a Leo document through the
Leo bridge and hands the page two things: the body text to show first
(`LeoGui.find_body`) and a serialized outline, a list of
`(archivedPosition, gnx, headline)` triples (`LeoGui.get_outline_list`). Its
JavaScript side rebuilds a flexx `TreeWidget` from that list
(`LeoTree.make_tree`, which only goes three levels deep) and logs every
change of a tree item's `checked`, `selected` or `collapsed` property to the
log pane (`LeoTree.on_event`, `LeoLog.put`), padding labels with the
module's own `lpad` helper. Its twin `rpad` is modelled too, although
nothing in the file calls it.

The model, one Dafny module per concern:

- `Wrappers` (wrappers.dfy): `Option`.
- `Arith` (arith.dfy): `Min` and `Max`.
- `Padding` (padding.dfy): `lpad` and `rpad`.
- `Outline` (outline.dfy): the engine data the bridge hands over: nodes,
  positions in outline order (`c.all_positions()`), and the serialized
  entries.
- `Gui` (gui.dfy): Python's `str.strip()` over `str.isspace`, `find_body`
  as a loop over the sibling bodies, `get_outline_list`.
- `Log` (log.dfy): class `LeoLog`, whose `text` is the Ace editor's value.
- `Events` (events.dfy): the line `on_event` logs for one event, its
  inverse parse, and the text a batch of events appends.
- `Tree` (tree.dfy): the tree items as an arena (`items[k]` is the k-th item
  created, `parent` is the index of the item it was created in, `None` for
  the `TreeWidget`), `make_tree` specified entry by entry (`Step`, `Run`),
  and class `LeoTree` whose methods `MakeTree` and `OnEvent` are proved
  against those specifications.
- `RoundTrip` (round_trip.dfy): serializing a whole document and rebuilding
  it gives exactly its nodes down to depth 3, each under its parent's item.

`make_tree` raises at `with stack[-1]:` when a depth-2 or depth-3
entry comes before any depth-1 entry. The model keeps this: `Run` returns
`Failed` with the state before the offending entry, `MakeTree` returns
`ok == false` with the items created up to then, and `RunFailsIff` says
exactly when it happens. A document's own outline never triggers it
(`AllPositionsWellFormed`, `WellFormedNeverFails`). Python's slice
`stack[:n-1]` keeps a shorter stack whole. A depth-3 entry that follows a
depth-1 entry therefore hangs under that depth-1 item. Entries of depth 0
or depth 4 and more are skipped.

A malformed outline could be expected to give some tree without crashing.
The code does not do that, and the model follows the code: a depth-2 or
depth-3 entry with no depth-1 entry before it raises, and a depth jump
(1 then 3) is attached to whatever the stack still holds.

## Model

| member | source | states |
|---|---|---|
| Padding.LPadSpec | leo/plugins/leoflexx.py:21-24 | `lpad(s, width)` has length `max(width, len(s))`, ends with `s`, and everything before `s` is a space |
| Padding.RPadSpec | leo/plugins/leoflexx.py:26-29 | `rpad(s, width)` has length `max(width, len(s))`, starts with `s`, and everything after `s` is a space |
| Padding.LPadUnique | leo/plugins/leoflexx.py:21-24 | any string with the three properties of `LPadSpec` is `lpad`'s result, so they specify it completely |
| Padding.RPadUnique | leo/plugins/leoflexx.py:26-29 | the same for `rpad` |
| Padding.PadNoOp | leo/plugins/leoflexx.py:21-29 | a string at least `width` long, so any string for the default width 0, is returned unchanged by both |
| Padding.PadIdempotent | leo/plugins/leoflexx.py:21-29 | padding a padded string to the same width changes nothing |
| Gui.Strip | leo/plugins/leoflexx.py:95 | `p.b.strip()` is empty exactly when the body is all whitespace; otherwise it starts and ends with a non-whitespace character |
| Gui.TrimLeft | leo/plugins/leoflexx.py:95 | the left half of `strip()`: a suffix of the input, what it removes is whitespace, and it does not start with whitespace |
| Gui.TrimRight | leo/plugins/leoflexx.py:95 | the right half of `strip()`: a prefix of the input, what it removes is whitespace, and it does not end with whitespace |
| Gui.FindBody | leo/plugins/leoflexx.py:91-97 | the result is `''` exactly when every sibling body is blank; otherwise it is the first body that is not blank, returned untrimmed |
| Gui.GetOutlineListAppend | leo/plugins/leoflexx.py:99-105 | serializing positions is done position by position: the list of a concatenation is the concatenation of the lists |
| Log.LeoLog.Put | leo/plugins/leoflexx.py:160-161 | the log's text becomes the old text, a line break, then `s` |
| Log.LeoLog.constructor | leo/plugins/leoflexx.py:149-158 | a new log pane holds the empty text |
| Events.Label | leo/plugins/leoflexx.py:247-249 | the label is 3 to 15 characters long and starts with a non-space, so `assert s` holds and `lpad(s, 15)` never truncates or overflows |
| Events.LabelMeaning | leo/plugins/leoflexx.py:247-248 | the label starts with `un-` exactly when the new value is falsy, and ends with the event type's name |
| Events.LineLayout | leo/plugins/leoflexx.py:246-250 | every logged line is the label right-aligned in 15 columns, then `': '`, then the item's title, or its text when the title is empty |
| Events.ParseLineRoundTrip | leo/plugins/leoflexx.py:250 | a logged line can be read back into the label and the item's id: the format loses nothing |
| Events.LogTextAppend | leo/plugins/leoflexx.py:243-250 | logging a batch of events appends the same text as logging it in two parts, however it is split |
| Tree.Step | leo/plugins/leoflexx.py:226-236 | one entry: it fails exactly when a depth-2 or depth-3 entry meets an empty stack; depth 0 and depth 4 or more change nothing; otherwise the stack is cut to `min(n-1, len)` entries, the new item is appended with the stack's last remaining entry as parent (none at depth 1), and pushed |
| Tree.RunAppend | leo/plugins/leoflexx.py:225-236 | running two parts of an outline one after the other is running the whole, a failure in the first part ending it |
| Tree.StepPreservesValid | leo/plugins/leoflexx.py:226-236 | each step keeps the tree consistent: parents are created before their children, and the stack is a chain of parent links from a top-level item to the newest item |
| Tree.RunPreservesValid | leo/plugins/leoflexx.py:225-236 | `make_tree` keeps that consistency, whether it finishes or fails |
| Tree.RunFailsAt | leo/plugins/leoflexx.py:233-234 | a failure is at an entry of depth 2 or 3 that meets an empty stack |
| Tree.RunCreatesItems | leo/plugins/leoflexx.py:225-236 | one item per entry of depth 1 to 3 got through, in order, with the headline as text, collapsed and `checked` unset; earlier items stay as they were, also on failure |
| Tree.NonEmptyStackNeverFails | leo/plugins/leoflexx.py:230-236 | once a depth-1 entry has been seen the stack is never empty again, so nothing later fails |
| Tree.RunFailsIff | leo/plugins/leoflexx.py:225-236 | from an empty stack, `make_tree` fails exactly when the first entry of depth 1 to 3 is not of depth 1 |
| Tree.JumpHangsUnderTop | leo/plugins/leoflexx.py:233-236 | after a depth-1 entry, a depth-3 entry becomes a child of the depth-1 item, and the stack holds both |
| Tree.OrphanFails | leo/plugins/leoflexx.py:233-234 | an outline that starts with a depth-2 entry fails at its first entry, having created nothing |
| Tree.LeoTree.MakeTree | leo/plugins/leoflexx.py:223-236 | the loop computes `Run`: `ok` is whether it finishes, and the widget's items are those `Run` gives |
| Tree.LeoTree.constructor | leo/plugins/leoflexx.py:216-219 | a new tree holds the items `make_tree` creates from the outline into an empty widget; `built` is false exactly when `make_tree`, and so `init`, raises |
| Tree.LeoTree.OnEvent | leo/plugins/leoflexx.py:243-250 | the log's text gains, for each event in order, a line break and that event's line |
| RoundTrip.MakeTreeRebuildsOutline | leo/plugins/leoflexx.py:99-105 | rebuilding a whole document's serialized outline never fails and gives exactly its nodes down to depth 3, in outline order, each under its parent node's item |
| RoundTrip.AllPositionsWellFormed | leo/plugins/leoflexx.py:105 | a document's serialized outline starts at depth 1 and never goes more than one level deeper from one entry to the next |
| RoundTrip.WellFormedNeverFails | leo/plugins/leoflexx.py:223-236 | any outline of that shape is rebuilt without failing |

## Left out

- `init`, `LeoApp`, `LeoMainWindow`, `LeoBody`, `LeoMiniBuffer`, `LeoStatusLine`, layout, CSS and assets: widget construction with no logic of its own.
- `open_bridge`: it loads Leo through its bridge and opens a file (I/O).
- `runMainLoop`: its body is empty. The sibling bodies `find_body` walks and the positions `get_outline_list` serializes are parameters.
- Leo's engine (`c.p.self_and_siblings()`, `c.all_positions()`, `p.archivedPosition()`): given as data, a forest of nodes and its positions in outline order.
- flexx's reaction machinery: which property changes reach `on_event`, and in what batches, is flexx's business; the events are a parameter. `ev.new_value` is a tri-state `Option<bool>` and is truthy only when `true`.
- The Ace editor behind `LeoLog`: only its text value is modelled, and `put` is the append it performs. Resizing is left out.
- The `__main__` launch of the browser runtime.
- Tree.LeoTree.constructor: a raising `init` is modelled as a tree whose `built` is false, holding the items created before the failure, since Dafny constructors cannot raise.
- Tree.LeoTree.MakeTree: items are values in an arena, not flexx objects, so object identity and the widget's internal child lists are not modelled (a child list is the items naming the same parent, in creation order). When the source raises, the exception itself is `ok == false`.
- Padding.LPadSpec: lengths are counted in characters. On the JavaScript side `len` counts UTF-16 code units, which differ only for characters outside the Basic Multilingual Plane; that difference is not modelled.
