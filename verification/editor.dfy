/** The editor session: the state the program keeps in globals and in its
    widgets, and the menu commands as pure transitions over it.

    Dialog answers and file contents arrive as parameters: a file dialog
    answers with a path, the empty string meaning the user cancelled; an
    open either fails, fails only once the file is read, or yields the
    file's text; a write reports whether it succeeded.
 */
module Editor {
  import opened Wrappers
  import opened Widget
  import opened Words
  import opened Status
  import opened FindReplace
  import opened Formatting
  import opened Theme

  datatype Session = Session(
    doc: string,               // the text, without the widget's trailing newline
    path: Option<string>,      // `file_path`: None, "" after a cancelled dialog, or a path
    title: string,             // the window title
    dark: bool,                // `is_dark_mode`
    colours: Option<Colours>,  // colours of text area and status bar; None = toolkit defaults
    tags: Tags,                // bold / italic / underline offsets
    status: string             // the status bar's text
  )

  /** What opening the chosen file gives: `open()` raised, `file.read()`
      raised after the file was opened, or the file's text. */
  datatype ReadOutcome = OpenFailed | ReadFailed | Read(text: string)

  /** A file the session wrote: its path and the exact text written. */
  datatype FileWrite = FileWrite(path: string, data: string)

  /** The session after a save, and what reached the disk. */
  datatype Saved = Saved(session: Session, written: Option<FileWrite>)

  const InitialTitle := "Enhanced Text Editor"

  function TitleFor(path: string): string {
    "Text Editor - " + path
  }

  /** Python truthiness of `file_path`: set and not the empty string. */
  predicate HasPath(path: Option<string>) {
    path.Some? && path.value != ""
  }

  /** What every reachable session satisfies: tags only on existing
      characters, and colours either untouched or matching the flag. */
  predicate Valid(s: Session) {
    && s.tags.Within(|s.doc|)
    && (if s.colours.None? then !s.dark else s.colours.value == ColoursFor(s.dark))
  }

  /** The window as the program starts it. */
  function Init(): (s: Session)
    ensures Valid(s)
    ensures s.doc == "" && s.path == None && !s.dark
    ensures s.title == InitialTitle && s.colours == None && s.tags == NoTags
    ensures s.status == "Words: 0  Characters: 0"
  {
    EmptyStatus();
    Session("", None, InitialTitle, false, None, NoTags, StatusLine(""))
  }

  /** File > New: empty document, no path; title and view untouched. */
  function NewFile(s: Session): (r: Session)
    ensures r.doc == "" && r.path == None && r.tags == NoTags
    ensures r.status == "Words: 0  Characters: 0"
    ensures r.title == s.title && r.dark == s.dark && r.colours == s.colours
    ensures Valid(s) ==> Valid(r)
  {
    EmptyStatus();
    s.(path := None, doc := "", tags := NoTags, status := StatusLine(""))
  }

  /** File > Open.  `chosen` is the dialog's answer, assigned to the path
      before it is tested.  The old text is deleted once the file is open
      but before it is read, so a read that raises leaves the window empty,
      with the old title and an unrefreshed status bar. */
  function OpenFile(s: Session, chosen: string, read: ReadOutcome): (r: Session)
    ensures r.path == Some(chosen)
    ensures r.dark == s.dark && r.colours == s.colours
    ensures chosen == "" || read.OpenFailed? ==> r == s.(path := Some(chosen))
    ensures chosen != "" && read.ReadFailed? ==>
      r == s.(path := Some(chosen), doc := "", tags := NoTags)
    ensures chosen != "" && read.Read? ==>
      && r.doc == read.text
      && r.tags == NoTags
      && r.title == TitleFor(chosen)
      && r.status == StatusText(Counts(|Split(read.text)|, |read.text|))
    ensures Valid(s) ==> Valid(r)
  {
    var s1 := s.(path := Some(chosen));
    if chosen == "" then s1
    else match read
      case OpenFailed => s1
      case ReadFailed => s1.(doc := "", tags := NoTags)
      case Read(text) =>
        s1.(doc := text, tags := NoTags, title := TitleFor(chosen), status := StatusLine(text))
  }

  /** File > Save As.  The path takes the dialog's answer; on a real answer
      the widget content is written, and only a successful write retitles
      the window. */
  function SaveAsFile(s: Session, chosen: string, writeOk: bool): (r: Saved)
    ensures r.session.path == Some(chosen)
    ensures r.session.doc == s.doc && r.session.tags == s.tags && r.session.status == s.status
    ensures r.session.dark == s.dark && r.session.colours == s.colours
    ensures r.written.Some? <==> chosen != "" && writeOk
    ensures r.written.Some? ==> r.written.value == FileWrite(chosen, s.doc + "\n")
    ensures r.session.title == (if r.written.Some? then TitleFor(chosen) else s.title)
    ensures Valid(s) ==> Valid(r.session)
  {
    var s1 := s.(path := Some(chosen));
    if chosen == "" || !writeOk then Saved(s1, None)
    else Saved(s1.(title := TitleFor(chosen)), Some(FileWrite(chosen, Content(s.doc))))
  }

  /** File > Save: write to the current path, or behave as Save As when
      there is none. */
  function SaveFile(s: Session, chosen: string, writeOk: bool): (r: Saved)
    ensures HasPath(s.path) ==> r.session == s
    ensures HasPath(s.path) ==>
      r.written == (if writeOk then Some(FileWrite(s.path.value, s.doc + "\n")) else None)
    ensures Valid(s) ==> Valid(r.session)
  {
    if HasPath(s.path) then
      Saved(s, if writeOk then Some(FileWrite(s.path.value, Content(s.doc))) else None)
    else SaveAsFile(s, chosen, writeOk)
  }

  /** Format > Bold / Italic / Underline.  Without a selection the toolkit
      raises before anything changes. */
  function ToggleStyle(s: Session, style: Style, sel: Option<Selection>): (r: Session)
    requires sel.Some? ==> sel.value.Fits(|s.doc|)
    ensures sel.None? ==> r == s
    ensures r.doc == s.doc && r.path == s.path && r.title == s.title && r.status == s.status
    ensures r.dark == s.dark && r.colours == s.colours
    ensures forall other :: other != style ==> r.tags.Get(other) == s.tags.Get(other)
    ensures sel.Some? ==>
      var first, last := sel.value.first, sel.value.last;
      && (forall i :: first <= i < last ==>
            (i in r.tags.Get(style) <==> first !in s.tags.Get(style)))
      && (forall i :: i < first || last <= i ==>
            (i in r.tags.Get(style) <==> i in s.tags.Get(style)))
    ensures Valid(s) ==> Valid(r)
  {
    match sel
    case None => s
    case Some(range) => s.(tags := Toggle(s.tags, style, range))
  }

  /** Edit > Find and Replace: the widget content with every match
      replaced becomes the whole new text.  Deleting the old text drops all
      style tags, and the status bar is not refreshed. */
  function FindAndReplace(s: Session, find: string, repl: string): (r: Session)
    ensures r.doc == Replace(s.doc + "\n", find, repl)
    ensures find != "" && !Occurs(find, s.doc + "\n") ==> r.doc == s.doc + "\n"
    ensures find != "" && '\n' !in find ==> r.doc == Replace(s.doc, find, repl) + "\n"
    ensures |r.doc| == |s.doc| + 1 + Count(s.doc + "\n", find) * (|repl| - |find|)
    ensures r.tags == NoTags
    ensures r.path == s.path && r.title == s.title && r.status == s.status
    ensures r.dark == s.dark && r.colours == s.colours
    ensures Valid(s) ==> Valid(r)
  {
    var content := Content(s.doc);
    var replaced := Replace(content, find, repl);
    assert find != "" && !Occurs(find, content) ==> replaced == content by {
      if find != "" && !Occurs(find, content) {
        ReplaceAbsent(content, find, repl);
      }
    }
    assert find != "" && '\n' !in find ==> replaced == Replace(s.doc, find, repl) + "\n" by {
      if find != "" && '\n' !in find {
        ReplaceAppend(s.doc, '\n', find, repl);
      }
    }
    ReplaceLength(content, find, repl);
    s.(doc := replaced, tags := NoTags)
  }

  /** The key-release handler: recount the document. */
  function UpdateStatusBar(s: Session): (r: Session)
    ensures r == s.(status := StatusText(Counts(|Split(s.doc)|, |s.doc|)))
  {
    s.(status := StatusLine(s.doc))
  }

  /** Options > Toggle Dark Mode. */
  function ToggleDarkMode(s: Session): (r: Session)
    ensures r.dark == !s.dark
    ensures r.colours == Some(if r.dark then DarkColours else LightColours)
    ensures r == s.(dark := r.dark, colours := r.colours)
    ensures Valid(s) ==> Valid(r)
  {
    var dark := !s.dark;
    s.(dark := dark, colours := Some(ColoursFor(dark)))
  }

  /** Toggling dark mode twice restores the flag, and restores the colours
      exactly when they already matched the flag. */
  lemma DarkModeTwice(s: Session)
    ensures ToggleDarkMode(ToggleDarkMode(s)).dark == s.dark
    ensures ToggleDarkMode(ToggleDarkMode(s)) == s <==> s.colours == Some(ColoursFor(s.dark))
  {
  }

  /** From the start-up window two toggles do not give back the toolkit's
      default colours but the light pair. */
  lemma DarkModeTwiceFromStart()
    ensures ToggleDarkMode(ToggleDarkMode(Init())).colours == Some(LightColours)
    ensures ToggleDarkMode(ToggleDarkMode(Init())) != Init()
  {
  }

  /** Save writes the widget content, newline included, so opening the
      saved file gives back the text with one more newline. */
  lemma SaveThenOpenAddsNewline(s: Session, p: string)
    requires p != ""
    ensures var saved := SaveAsFile(s, p, true);
      && saved.written == Some(FileWrite(p, s.doc + "\n"))
      && OpenFile(saved.session, p, Read(saved.written.value.data)).doc == s.doc + "\n"
  {
  }

  /** Save with no usable path is Save As, dialog answer and all. */
  lemma SaveWithoutPathIsSaveAs(s: Session, chosen: string, writeOk: bool)
    requires !HasPath(s.path)
    ensures SaveFile(s, chosen, writeOk) == SaveAsFile(s, chosen, writeOk)
  {
  }

  /** A cancelled dialog keeps the text but forgets any earlier path, so
      the next Save asks again. */
  lemma CancelForgetsPath(s: Session, read: ReadOutcome, writeOk: bool)
    ensures OpenFile(s, "", read).doc == s.doc
    ensures !HasPath(OpenFile(s, "", read).path)
    ensures SaveAsFile(s, "", writeOk).written == None
    ensures !HasPath(SaveAsFile(s, "", writeOk).session.path)
  {
  }

  /** A file that opens but cannot be read (say, a binary file picked
      through "All Files") costs the user the text they had: the window is
      left empty while the title and status bar still describe it. */
  lemma FailedReadLosesText(s: Session, chosen: string)
    requires chosen != "" && s.doc != ""
    ensures var r := OpenFile(s, chosen, ReadFailed);
      && r.doc == "" && r.doc != s.doc
      && r.title == s.title && r.status == s.status
      && OpenFile(s, chosen, OpenFailed).doc == s.doc
  {
  }

  /** Example: every occurrence is replaced, and the trailing newline stays. */
  lemma FooBarInSession(s: Session)
    requires s.doc == "foo bar foo"
    ensures FindAndReplace(s, "foo", "baz").doc == "baz bar baz\n"
  {
    FooBar();
  }

  /** The handlers the menus, shortcuts and key bindings dispatch to. */
  datatype Event =
    | New
    | Open(chosen: string, read: ReadOutcome)
    | Save(chosen: string, writeOk: bool)
    | SaveAs(chosen: string, writeOk: bool)
    | Format(style: Style, sel: Option<Selection>)
    | FindReplaceAll(find: string, repl: string)
    | KeyRelease
    | DarkMode

  /** The model assumes every selection ends inside the document: a
      selection reaching the widget's final newline (select-all) is not
      modelled. */
  predicate Accepts(s: Session, e: Event) {
    e.Format? && e.sel.Some? ==> e.sel.value.Fits(|s.doc|)
  }

  function Step(s: Session, e: Event): Session
    requires Accepts(s, e)
  {
    match e
    case New => NewFile(s)
    case Open(chosen, read) => OpenFile(s, chosen, read)
    case Save(chosen, ok) => SaveFile(s, chosen, ok).session
    case SaveAs(chosen, ok) => SaveAsFile(s, chosen, ok).session
    case Format(style, sel) => ToggleStyle(s, style, sel)
    case FindReplaceAll(find, repl) => FindAndReplace(s, find, repl)
    case KeyRelease => UpdateStatusBar(s)
    case DarkMode => ToggleDarkMode(s)
  }

  /** Every event in turn meets a session that accepts it. */
  predicate Admissible(s: Session, events: seq<Event>)
    decreases |events|
  {
    events == [] || (Accepts(s, events[0]) && Admissible(Step(s, events[0]), events[1..]))
  }

  /** The event loop: handlers run one at a time, in order. */
  function Run(s: Session, events: seq<Event>): Session
    requires Admissible(s, events)
    decreases |events|
  {
    if events == [] then s else Run(Step(s, events[0]), events[1..])
  }

  /** No handler breaks the session invariant. */
  lemma StepKeepsValid(s: Session, e: Event)
    requires Accepts(s, e) && Valid(s)
    ensures Valid(Step(s, e))
  {
  }

  /** Every session the program can reach keeps its tags on existing
      characters and its colours in step with the dark-mode flag. */
  lemma {:induction false} RunKeepsValid(s: Session, events: seq<Event>)
    requires Valid(s) && Admissible(s, events)
    ensures Valid(Run(s, events))
    decreases |events|
  {
    if events != [] {
      StepKeepsValid(s, events[0]);
      RunKeepsValid(Step(s, events[0]), events[1..]);
    }
  }

  /** Find and Replace does not refresh the status bar: whenever the
      length changes, and so whenever a non-empty pattern does not occur at
      all, the bar still describes the old text until the next key
      release. */
  lemma StatusStaleAfterReplace(s: Session, find: string, repl: string)
    requires |Replace(s.doc + "\n", find, repl)| != |s.doc| || (find != "" && !Occurs(find, s.doc + "\n"))
    ensures var counted := UpdateStatusBar(s);
      var r := FindAndReplace(counted, find, repl);
      && r.status == counted.status
      && r.status != StatusLine(r.doc)
  {
    var counted := UpdateStatusBar(s);
    var r := FindAndReplace(counted, find, repl);
    assert |r.doc| != |s.doc|;
    if r.status == StatusLine(r.doc) {
      StatusTextInjective(Counts(|Split(s.doc)|, |s.doc|), Counts(|Split(r.doc)|, |r.doc|));
    }
  }
}
