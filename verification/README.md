# Text editor session model

A Dafny model of the editing logic of a small tkinter text editor
(`work.py`). The program is a single window. It has a text area, a menu of
file commands (New, Open, Save, Save As), Bold / Italic / Underline
toggles, a find-and-replace command, a dark-mode switch, a Font Size menu
and a status bar that counts words and characters.

The model lifts this logic out of the toolkit calls. The editor becomes an
immutable `Editor.Session` record with these fields:

- the document, as a `string`, without the widget's trailing newline;
- `file_path`, as an `Option<string>`: `None`, the empty string after a
  cancelled dialog, or a path;
- the window title;
- the dark-mode flag and the colours currently applied;
- one set of character offsets per style tag;
- the status bar text.

Each command is a pure function from session to session. Dialog answers
and file contents are parameters. A file dialog answers with a string, and
the empty string means the user cancelled. Opening the file has three
outcomes (`Editor.ReadOutcome`): `open()` raised, `file.read()` raised after
the file was opened, or the file's text. A write reports whether it
succeeded. `Editor.Run` folds a sequence of handler events over a session,
one at a time, the way the event loop dispatches them.

One toolkit convention is made explicit: `text_area.get(1.0, tk.END)`
returns the document plus one newline. This is `Widget.Content(doc) = doc +
"\n"`. It explains several observable behaviours:

- The character count subtracts one.
- Save writes the text with an extra newline.
- Find and Replace works on the text plus that newline. So even when
  nothing matches, the document grows by one trailing newline.

Modules:

- `Wrappers`: the `Option` type.
- `Widget`: the `Content` convention.
- `Words`: Python's `str.split()` and the word-run count.
- `Decimal`: decimal rendering of numbers and its inverse.
- `Status`: the status bar text and a parser for it.
- `FindReplace`: Python's `str.replace` and `str.count`.
- `Formatting`: style tags and the toggle rule.
- `Theme`: the two colour pairs.
- `Fonts`: the Font Size menu's `range(8, 32, 2)`.
- `Editor`: the session, the commands and the event loop.

Several behaviours of the code differ from what a user of the editor would
expect. The model follows the code:

- A cancelled Open or Save As dialog is not a no-op. The empty answer is
  stored in `file_path` before it is tested. The earlier path is lost, and
  the next Save asks again (`Editor.CancelForgetsPath`).
- Find and Replace with a pattern that does not occur still appends a
  newline to the document.
- An empty pattern with a non-empty replacement is not the identity. Python's `str.replace` inserts the
  replacement before every character and at the end.
- Save followed by Open does not give back the same text. The saved file
  ends with the widget's extra newline, and reopening keeps it
  (`Editor.SaveThenOpenAddsNewline`).
- From the start-up window, two dark-mode toggles leave the light pair. The
  toolkit's default colours are not restored.
- Find and Replace does not refresh the status bar.
- New does not reset the window title.
- Open deletes the old text after the file is opened but before it is read.
  A file that opens but cannot be read, such as a binary file picked
  through "All Files", leaves the window empty. The title and status bar
  still describe the lost text (`Editor.FailedReadLosesText`).

## Model

| member | source | states |
|---|---|---|
| `Widget.Content` | work.py:114-116 | the widget's content is the document followed by exactly one newline |
| `Words.SplitYieldsWords` | work.py:115 | `str.split()` yields only non-empty words containing no whitespace |
| `Words.SplitCountsRuns` | work.py:115 | `len(text.split())` equals the number of maximal non-whitespace runs |
| `Words.WordCountIgnoresTrailingNewline` | work.py:114-116 | the newline the widget adds never changes the word count |
| `Words.HelloWorld` | work.py:115 | "hello world\n" splits into ["hello", "world"], two words |
| `Decimal.NatToString` | work.py:117 | a count prints as a non-empty digit string without leading zeros |
| `Decimal.ValueOfNatToString` | work.py:117 | reading a printed count back gives the count |
| `Status.Measure` | work.py:113-116 | the word count is the number of words of the document, and the character count is the content length minus one, which is the document's length |
| `Status.StatusLine` | work.py:113-117 | the status text is "Words: " + words + "  Characters: " + characters for the document itself |
| `Status.ParseStatusText` | work.py:117 | the status text can be parsed back into both counts |
| `Status.StatusTextInjective` | work.py:117 | different counts never give the same status text |
| `Status.EmptyStatus` | work.py:182-184 | an empty document shows "Words: 0  Characters: 0" |
| `Status.HelloWorldStatus` | work.py:113-116 | "hello world" reports 2 words and 11 characters |
| `FindReplace.Interleave` | work.py:108 | with an empty pattern the result's length is `len(s) + (len(s) + 1) * len(repl)`; where the copies go is stated by `FindReplace.InterleaveSnoc` |
| `FindReplace.InterleaveSnoc` | work.py:108 | with an empty pattern the empty text becomes the replacement, and each further character is followed by one more copy of it, so the replacement sits before every character and once at the end |
| `FindReplace.ReplaceLength` | work.py:108 | each non-overlapping match changes the length by the replacement's length minus the pattern's |
| `FindReplace.ReplaceAbsent` | work.py:108 | a non-empty pattern that does not occur leaves the text unchanged and is counted zero times |
| `FindReplace.CountPresent` | work.py:108 | a non-empty pattern that occurs is replaced at least once |
| `FindReplace.CountZeroIffAbsent` | work.py:108 | for a non-empty pattern, there are no replacements exactly when the pattern does not occur |
| `FindReplace.ReplaceBySelf` | work.py:108 | replacing any pattern, even the empty one, by itself is the identity |
| `FindReplace.ReplaceAppend` | work.py:108 | a character the pattern lacks, appended at the end, passes through unchanged |
| `FindReplace.FooBar` | work.py:108 | "foo bar foo" with "foo" replaced by "baz" is "baz bar baz" |
| `FindReplace.EmptyFindInserts` | work.py:108 | an empty pattern with a non-empty replacement changes the text |
| `FindReplace.EmptyFindExample` | work.py:108 | "ab" with "" replaced by "X" is "XaXbX" |
| `Formatting.ToggleRange` | work.py:80-84 | if the first selected offset is tagged, the whole range is untagged afterwards, otherwise the whole range is tagged; offsets outside are unchanged |
| `Formatting.Toggle` | work.py:79-101 | one style's range is toggled by the first-character rule; the other two styles are unchanged; tags stay inside the document |
| `Formatting.DecidedByFirst` | work.py:80-81 | two tag sets that agree at `sel.first` give the same range after a toggle |
| `Formatting.ToggleLeavesUniform` | work.py:81-84 | after one toggle the selection is uniformly tagged or uniformly untagged |
| `Formatting.ToggleTwice` | work.py:80-84 | after two toggles the whole range has the first character's original state, and the outside is unchanged |
| `Formatting.ToggleTwiceRestoresIffUniform` | work.py:80-84 | two toggles restore the original tag set if and only if the range was uniform |
| `Formatting.MixedSelectionExamples` | work.py:80-84 | a mixed range with a plain first character becomes fully tagged; one with a tagged first character becomes fully plain |
| `Theme.ColoursFor` | work.py:31 | dark mode selects ("#333333", "#ffffff") and light mode selects ("#ffffff", "#000000") |
| `Fonts.PyRangeElements` | work.py:161 | the k-th element of `range(start, stop, step)` is start + k * step |
| `Fonts.PyRangeLength` | work.py:161 | a range holds as many steps as fit before `stop` |
| `Fonts.SizeAt` | work.py:161-162 | the k-th Font Size entry is 8 + 2k, even and between 8 and 30 |
| `Fonts.SizeOptionsAreEvenEightToThirty` | work.py:161-162 | a size is offered if and only if it is even and between 8 and 30; there are 12 sizes, and the initial size 14 is one of them |
| `Editor.Init` | work.py:7-14 | the start-up session has an empty document, the title "Enhanced Text Editor", no path, no tags, the toolkit's default colours in light mode and zero counts, and satisfies the session invariant |
| `Editor.NewFile` | work.py:36-40 | New empties the document, path and tags, shows zero counts, and keeps title and colours |
| `Editor.OpenFile` | work.py:42-50 | Open stores the dialog answer as the path; a cancel or a failed `open()` changes nothing else; a read that raises after opening leaves an empty document without tags and keeps the old title and status; a successful read replaces the text, clears the tags, retitles the window and recounts |
| `Editor.FailedReadLosesText` | work.py:45-50 | a file that opens but cannot be read empties a non-empty document while title and status stay as before, whereas a failed `open()` keeps the text |
| `Editor.SaveAsFile` | work.py:60-66 | Save As stores the dialog answer as the path; it writes the content with its trailing newline exactly when the answer is non-empty and the write succeeds; only then is the window retitled |
| `Editor.SaveFile` | work.py:52-58 | with a path set, Save writes the content there and changes no state, ignoring the dialog |
| `Editor.SaveWithoutPathIsSaveAs` | work.py:52-58 | with no path or an empty path, Save behaves exactly as Save As |
| `Editor.CancelForgetsPath` | work.py:42-66 | a cancelled dialog keeps the text, writes nothing and leaves no usable path |
| `Editor.SaveThenOpenAddsNewline` | work.py:42-65 | saving writes the document plus a newline, and reopening that file yields the document plus a newline |
| `Editor.ToggleStyle` | work.py:79-101 | without a selection nothing changes; otherwise each selected offset gets the opposite of the first character's state, and text, other styles and offsets outside are unchanged |
| `Editor.FindAndReplace` | work.py:104-110 | the new text is the replacement over the content with its newline; if the pattern is absent the text gains a newline; tags are cleared; the status is not refreshed |
| `Editor.FooBarInSession` | work.py:104-110 | replacing "foo" by "baz" in "foo bar foo" leaves "baz bar baz" followed by a newline |
| `Editor.StatusStaleAfterReplace` | work.py:104-110 | when Find and Replace changes the length, or a non-empty pattern does not occur, the status bar still describes the old text |
| `Editor.UpdateStatusBar` | work.py:113-119 | the key-release handler changes only the status text, to the counts of the current document |
| `Editor.ToggleDarkMode` | work.py:28-33 | the flag flips, the colours become the pair for the new flag, and nothing else changes |
| `Editor.DarkModeTwice` | work.py:28-33 | two toggles restore the flag, and restore the whole session exactly when the colours matched the flag |
| `Editor.DarkModeTwiceFromStart` | work.py:28-33 | from start-up, two toggles leave the light pair instead of the toolkit defaults |
| `Editor.StepKeepsValid` | work.py:126-176 | for selections inside the document, no handler puts tags outside the text or colours out of step with the flag |
| `Editor.RunKeepsValid` | work.py:169-187 | for event sequences whose selections lie inside the document, every session the event loop reaches keeps the session invariant |

## Left out

- Window, menu, radiobutton and key-binding construction (work.py:5-8, 121-187). This is wiring only. `Editor.Event` lists the handlers it dispatches to.
- Cut, Copy and Paste (work.py:69-76). They only raise toolkit virtual events, and the platform clipboard does the work.
- File reading and writing and the file dialogs themselves. The dialog answer, the text read and the success of a write are parameters. Python's newline translation in text mode is not modelled.
- A write that fails after the file was opened and truncated. The model records either the whole write or none.
- `update_font`, the variable traces, the `tag_configure` font descriptors and the font family menu (work.py:21-25, 85, 93, 101, 155-156). They are presentation only, and the family list comes from the platform.
- `askstring` returning `None` on cancel (work.py:105-106). Python then raises `TypeError` inside `str.replace`. The model's find and replacement strings are always strings.
- Tk text indices and undo history. Offsets are plain integers into the document.
- `Editor.ToggleStyle` requires the selection to end inside the document, so a selection that reaches the widget's final newline (Tk's select-all, `1.0` to `end`) is not modelled. On such a selection the real program also tags that final newline. `delete(1.0, END)` never removes it, so its tag outlives New, Open and Find and Replace. The model's `NewFile`, `OpenFile` and `FindAndReplace` clear every tag and do not show this.
- The Tk `sel` tag and other tags. Only bold, italic and underline are modelled.
- Keystrokes that edit the text. They are the widget's own behaviour; only the key-release handler that recounts is modelled.
- `Words.IsSpace` lists the characters Python's `str.split()` treats as whitespace for current Unicode data. It is a fixed table, not Python's Unicode database.
- Characters are Unicode scalar values. Python and Tk may count characters outside the Basic Multilingual Plane differently.
- Exit (`root.quit`) ends the program and has no state to model.
