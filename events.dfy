/**
 * The log line that `LeoTree.on_event` writes for each change of a tree
 * item's `checked`, `selected` or `collapsed` property (the three
 * properties its reaction listens to), and the log text a batch of events
 * adds.
 */
module Events {
  import opened Wrappers
  import opened Padding

  /** The property that changed; `ev.type` is its name. */
  datatype EventType = Checked | Selected | Collapsed

  function TypeName(t: EventType): (name: string)
    ensures |name| >= 7 && name[0] != 'u' && name[0] != ' '
  {
    match t
    case Checked => "checked"
    case Selected => "selected"
    case Collapsed => "collapsed"
  }

  /**
   * One change event: which property, its new value (flexx's tri-state
   * properties may also become `None`), and the `title` and `text` of the
   * tree item it comes from.
   */
  datatype Event = Event(kind: EventType, newValue: Option<bool>, title: string, text: string)

  /** Python/JavaScript truthiness of the new value: `None` and `False` are falsy. */
  predicate Truthy(v: Option<bool>)
  {
    v == Some(true)
  }

  /** The width `lpad` pads the label to. */
  const LabelWidth := 15

  /**
   * `kind + ev.type`, where `kind` is `'un-'` for a falsy new value. The
   * label is never empty, so the source's `assert s, id_` cannot fail, and
   * it always fits the padding width.
   */
  function Label(e: Event): (s: string)
    ensures 3 <= |s| <= LabelWidth && s[0] != ' '
  {
    (if Truthy(e.newValue) then "" else "un-") + TypeName(e.kind)
  }

  /** The label starts with `un-` exactly when the new value is falsy, and ends with the property's name. */
  lemma LabelMeaning(e: Event)
    ensures Label(e)[..3] == "un-" <==> !Truthy(e.newValue)
    ensures |TypeName(e.kind)| <= |Label(e)|
    ensures Label(e)[|Label(e)| - |TypeName(e.kind)|..] == TypeName(e.kind)
  {
    var name := TypeName(e.kind);
    if Truthy(e.newValue) {
      assert Label(e)[..3][0] == name[0];
    } else {
      assert Label(e) == "un-" + name;
    }
  }

  /** `ev.source.title or ev.source.text`. */
  function SourceId(e: Event): string
  {
    if e.title != "" then e.title else e.text
  }

  /** `'%s: %s' % (lpad(s, 15), id_)`: the line `on_event` logs for one event. */
  function Line(e: Event): string
  {
    LPad(Label(e), LabelWidth) + ": " + SourceId(e)
  }

  /**
   * The label always fits the width, so every line is 15 columns of
   * right-aligned label, then `': '`, then the item's title, or its text when
   * the title is empty.
   */
  lemma LineLayout(e: Event)
    ensures |Line(e)| == LabelWidth + 2 + |SourceId(e)|
    ensures Line(e)[..LabelWidth] == Spaces(LabelWidth - |Label(e)|) + Label(e)
    ensures Line(e)[LabelWidth..LabelWidth + 2] == ": "
    ensures Line(e)[LabelWidth + 2..] == SourceId(e)
  {
    var pad := LPad(Label(e), LabelWidth);
    LPadUnique(Label(e), LabelWidth, Spaces(LabelWidth - |Label(e)|) + Label(e));
    assert Line(e) == pad + (": " + SourceId(e));
  }

  /** `s` with its leading spaces removed. */
  function DropSpaces(s: string): string
  {
    if s != "" && s[0] == ' ' then DropSpaces(s[1..]) else s
  }

  /** Reading a log line back: the label without its padding, and the id. */
  function ParseLine(line: string): Option<(string, string)>
  {
    if |line| < LabelWidth + 2 || line[LabelWidth..LabelWidth + 2] != ": " then None
    else Some((DropSpaces(line[..LabelWidth]), line[LabelWidth + 2..]))
  }

  /** Removing the padding that `lpad` put in front of a string that starts with a non-space gives it back. */
  lemma {:induction false} DropSpacesOfPadded(k: nat, s: string)
    requires s == "" || s[0] != ' '
    ensures DropSpaces(Spaces(k) + s) == s
  {
    if k > 0 {
      var t := Spaces(k) + s;
      assert t[1..] == Spaces(k - 1) + s;
      DropSpacesOfPadded(k - 1, s);
    }
  }

  /** Every log line can be read back into the event's label and source id. */
  lemma ParseLineRoundTrip(e: Event)
    ensures ParseLine(Line(e)) == Some((Label(e), SourceId(e)))
  {
    LineLayout(e);
    DropSpacesOfPadded(LabelWidth - |Label(e)|, Label(e));
  }

  /** The line of each event, in event order. */
  function Lines(events: seq<Event>): (lines: seq<string>)
    ensures |lines| == |events|
  {
    seq(|events|, k requires 0 <= k < |events| => Line(events[k]))
  }

  /** The lines of two batches of events are the lines of the first, then those of the second. */
  lemma LinesAppend(a: seq<Event>, b: seq<Event>)
    ensures Lines(a + b) == Lines(a) + Lines(b)
  {
    var l, r := Lines(a + b), Lines(a) + Lines(b);
    forall k | 0 <= k < |l|
      ensures l[k] == r[k]
    {
      if k < |a| {
        assert (a + b)[k] == a[k];
      } else {
        assert (a + b)[k] == b[k - |a|];
      }
    }
  }

  /** What successive `put` calls add to the log's text: a line break before each line. */
  function Appended(lines: seq<string>): string
  {
    if lines == [] then ""
    else Appended(lines[..|lines| - 1]) + "\n" + lines[|lines| - 1]
  }

  /** One more line adds a line break and that line at the end. */
  lemma AppendedSnoc(lines: seq<string>, line: string)
    ensures Appended(lines + [line]) == Appended(lines) + "\n" + line
  {
    assert (lines + [line])[..|lines + [line]| - 1] == lines;
  }

  /** Appending lines in two parts gives the same text as appending them all at once. */
  lemma {:induction false} AppendedConcat(a: seq<string>, b: seq<string>)
    ensures Appended(a + b) == Appended(a) + Appended(b)
  {
    if b == [] {
      assert a + b == a;
    } else {
      var front, last := b[..|b| - 1], b[|b| - 1];
      assert b == front + [last];
      assert a + b == (a + front) + [last];
      AppendedSnoc(a + front, last);
      AppendedSnoc(front, last);
      AppendedConcat(a, front);
    }
  }

  /** The log before the events, then the text for the first `i` events, then one more line, is the text for `i + 1` events. */
  lemma LogOneMore(before: string, events: seq<Event>, i: nat, line: string)
    requires i < |events| && line == Line(events[i])
    ensures before + Appended(Lines(events[..i])) + "\n" + line == before + Appended(Lines(events[..i + 1]))
  {
    assert events[..i + 1] == events[..i] + [events[i]];
    LinesAppend(events[..i], [events[i]]);
    assert Lines([events[i]]) == [line];
    AppendedSnoc(Lines(events[..i]), line);
  }

  /**
   * Handling a batch of events at once logs the same text as handling it in
   * two parts one after the other, however the batch is split.
   */
  lemma LogTextAppend(a: seq<Event>, b: seq<Event>)
    ensures Appended(Lines(a + b)) == Appended(Lines(a)) + Appended(Lines(b))
  {
    LinesAppend(a, b);
    AppendedConcat(Lines(a), Lines(b));
  }
}
