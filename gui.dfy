/**
 * The Python side of leoflexx.py, class `LeoGui`: choosing the body text to
 * show (`find_body`) and serializing the outline for the tree widget
 * (`get_outline_list`). The bridge that opens the document is not modelled:
 * the sibling bodies and the positions it yields are parameters.
 */
module Gui {
  import opened Outline

  /** Python's `str.isspace` for one character: what `str.strip()` removes. */
  predicate IsSpace(c: char)
  {
    || ('\U{9}' <= c <= '\U{D}')
    || ('\U{1C}' <= c <= '\U{20}')
    || c == '\U{85}' || c == '\U{A0}' || c == '\U{1680}'
    || ('\U{2000}' <= c <= '\U{200A}')
    || c == '\U{2028}' || c == '\U{2029}' || c == '\U{202F}' || c == '\U{205F}' || c == '\U{3000}'
  }

  /** Every character of `s` is whitespace (the empty string included). */
  predicate IsBlank(s: string)
  {
    forall i :: 0 <= i < |s| ==> IsSpace(s[i])
  }

  /** `s.lstrip()`: the longest suffix of `s` that does not start with whitespace. */
  function TrimLeft(s: string): (r: string)
    ensures |r| <= |s| && r == s[|s| - |r|..]
    ensures IsBlank(s[..|s| - |r|])
    ensures r == "" || !IsSpace(r[0])
  {
    if s != "" && IsSpace(s[0]) then
      var r := TrimLeft(s[1..]);
      assert s[..|s| - |r|] == [s[0]] + s[1..][..|s[1..]| - |r|];
      BlankConcat([s[0]], s[1..][..|s[1..]| - |r|]);
      r
    else
      s
  }

  /** `s.rstrip()`: the longest prefix of `s` that does not end with whitespace. */
  function TrimRight(s: string): (r: string)
    ensures |r| <= |s| && r == s[..|r|]
    ensures IsBlank(s[|r|..])
    ensures r == "" || !IsSpace(r[|r| - 1])
  {
    if s != "" && IsSpace(s[|s| - 1]) then
      var r := TrimRight(s[..|s| - 1]);
      assert s[|r|..] == s[..|s| - 1][|r|..] + [s[|s| - 1]];
      BlankConcat(s[..|s| - 1][|r|..], [s[|s| - 1]]);
      r
    else
      s
  }

  /** `s.strip()`; it is empty, i.e. falsy in `if p.b.strip():`, exactly when `s` is blank. */
  function Strip(s: string): (r: string)
    ensures r == "" <==> IsBlank(s)
    ensures r != "" ==> !IsSpace(r[0]) && !IsSpace(r[|r| - 1])
  {
    var t := TrimLeft(s);
    var r := TrimRight(t);
    BlankConcat(s[..|s| - |t|], t);
    assert s == s[..|s| - |t|] + t;
    assert r == "" ==> t == t[|r|..];
    assert r != "" ==> r[0] == t[0];
    r
  }

  /** A concatenation is blank exactly when both parts are. */
  lemma BlankConcat(a: string, b: string)
    ensures IsBlank(a + b) <==> IsBlank(a) && IsBlank(b)
  {
    if IsBlank(a + b) {
      forall i | 0 <= i < |a|
        ensures IsSpace(a[i])
      {
        assert a[i] == (a + b)[i];
      }
      forall i | 0 <= i < |b|
        ensures IsSpace(b[i])
      {
        assert b[i] == (a + b)[|a| + i];
      }
    }
  }

  /**
   * `find_body`: the body of the first node, among the current node and its
   * siblings in order, whose body is not blank; that body is returned as it
   * is, untrimmed. When every body is blank the result is `''`.
   */
  method FindBody(bodies: seq<string>) returns (body: string)
    ensures body == "" <==> forall k :: 0 <= k < |bodies| ==> IsBlank(bodies[k])
    ensures body != "" ==>
      exists k :: 0 <= k < |bodies| && body == bodies[k] && !IsBlank(body)
        && forall j :: 0 <= j < k ==> IsBlank(bodies[j])
  {
    var i := 0;
    while i < |bodies|
      invariant 0 <= i <= |bodies|
      invariant forall j :: 0 <= j < i ==> IsBlank(bodies[j])
    {
      if Strip(bodies[i]) != "" {
        return bodies[i];
      }
      i := i + 1;
    }
    return "";
  }

  /** `get_outline_list`: one `(archivedPosition, gnx, h)` triple per position, in the same order. */
  function GetOutlineList(positions: seq<Position>): seq<Entry>
  {
    seq(|positions|, k requires 0 <= k < |positions| =>
      Entry(positions[k].archived, positions[k].v.gnx, positions[k].v.h))
  }

  /** Serializing a list in two parts gives the two serialized parts one after the other. */
  lemma GetOutlineListAppend(a: seq<Position>, b: seq<Position>)
    ensures GetOutlineList(a + b) == GetOutlineList(a) + GetOutlineList(b)
  {
    var l, r := GetOutlineList(a + b), GetOutlineList(a) + GetOutlineList(b);
    forall k | 0 <= k < |l|
      ensures l[k] == r[k]
    {
      if k < |a| {
        assert (a + b)[k] == a[k];
      } else {
        assert (a + b)[k] == b[k - |a|];
      }
    }
  }
}
