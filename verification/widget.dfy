/** The one toolkit convention the editor relies on.

    A Tk text widget always keeps one newline after the last character the
    user typed, and `get(1.0, END)` returns it too.  The model keeps the
    user's document `doc` without that newline; `Content(doc)` is what the
    program reads back from the widget.
 */
module Widget {

  function Content(doc: string): (c: string)
    ensures |c| == |doc| + 1
    ensures c[..|doc|] == doc
    ensures c[|doc|] == '\n'
  {
    doc + "\n"
  }
}
