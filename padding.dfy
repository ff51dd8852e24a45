/**
 * The two padding helpers of leoflexx.py, `lpad` and `rpad`, which stand in
 * for `%15s`-style alignment (the JavaScript translator has no such format).
 * `width` defaults to 0 in the source; any integer, negative included, is
 * accepted, and the padding is `max(0, width - len(s))` spaces.
 */
module Padding {
  import opened Arith

  /** A string of `n` spaces, as `' ' * n` builds it. */
  function Spaces(n: nat): (r: string)
    ensures |r| == n
    ensures forall i :: 0 <= i < n ==> r[i] == ' '
  {
    if n == 0 then "" else Spaces(n - 1) + " "
  }

  /** `max(0, width - len(s))`. */
  function PadCount(s: string, width: int): nat
  {
    if width > |s| then width - |s| else 0
  }

  /** `lpad(s, width)`: `s` padded with spaces on the left. */
  function LPad(s: string, width: int): string
  {
    Spaces(PadCount(s, width)) + s
  }

  /** `rpad(s, width)`: `s` padded with spaces on the right. */
  function RPad(s: string, width: int): string
  {
    s + Spaces(PadCount(s, width))
  }

  /**
   * `lpad` returns a string of length `max(width, len(s))` that ends with
   * `s`, everything before `s` being spaces.
   */
  lemma LPadSpec(s: string, width: int)
    ensures var r := LPad(s, width);
      && |r| == Max(width, |s|)
      && (forall i :: 0 <= i < |r| - |s| ==> r[i] == ' ')
      && (forall i :: |r| - |s| <= i < |r| ==> r[i] == s[i - (|r| - |s|)])
  {
  }

  /**
   * `rpad` returns a string of length `max(width, len(s))` that starts with
   * `s`, everything after `s` being spaces.
   */
  lemma RPadSpec(s: string, width: int)
    ensures var r := RPad(s, width);
      && |r| == Max(width, |s|)
      && (forall i :: 0 <= i < |s| ==> r[i] == s[i])
      && (forall i :: |s| <= i < |r| ==> r[i] == ' ')
  {
  }

  /** A string already as wide as `width` (the default width 0 included) is returned as it is. */
  lemma PadNoOp(s: string, width: int)
    requires width <= |s|
    ensures LPad(s, width) == s && RPad(s, width) == s
  {
  }

  /** The three properties of `LPadSpec` determine `lpad`'s result: any string that has them is `LPad`'s. */
  lemma LPadUnique(s: string, width: int, r: string)
    requires |r| == Max(width, |s|)
    requires forall i :: 0 <= i < |r| - |s| ==> r[i] == ' '
    requires forall i :: |r| - |s| <= i < |r| ==> r[i] == s[i - (|r| - |s|)]
    ensures r == LPad(s, width)
  {
    var l := LPad(s, width);
    LPadSpec(s, width);
    assert forall i :: 0 <= i < |r| ==> r[i] == l[i];
  }

  /** The same for RPad. */
  lemma RPadUnique(s: string, width: int, r: string)
    requires |r| == Max(width, |s|)
    requires forall i :: 0 <= i < |s| ==> r[i] == s[i]
    requires forall i :: |s| <= i < |r| ==> r[i] == ' '
    ensures r == RPad(s, width)
  {
    var l := RPad(s, width);
    RPadSpec(s, width);
    assert forall i :: 0 <= i < |r| ==> r[i] == l[i];
  }

  /** Padding twice to the same width changes nothing the second time. */
  lemma PadIdempotent(s: string, width: int)
    ensures LPad(LPad(s, width), width) == LPad(s, width)
    ensures RPad(RPad(s, width), width) == RPad(s, width)
  {
    PadNoOp(LPad(s, width), width);
    PadNoOp(RPad(s, width), width);
  }
}
