/**
 * `LeoLog`, the log pane. In the source it is an Ace editor; only the text
 * it holds is modelled, and `put` is the append it performs on that text.
 */
module Log {

  class LeoLog {
    /** The editor's value. */
    var text: string

    /** A new log pane; `init` never sets the editor's value, so it starts empty. */
    constructor ()
      ensures text == ""
    {
      text := "";
    }

    /** `put(s)`: the value becomes the old value, a line break, then `s`. */
    method Put(s: string)
      modifies this
      ensures text == old(text) + "\n" + s
    {
      text := text + "\n" + s;
    }
  }
}
