/** Word splitting as Python's argument-less `str.split()` does it: words
    are the maximal runs of non-whitespace characters.
 */
module Words {

  /** The characters `str.isspace()` accepts (Unicode White_Space plus the
      ASCII separators U+001C..U+001F that Python adds). */
  predicate IsSpace(c: char) {
    var k := c as int;
    || k == 0x20
    || 0x09 <= k <= 0x0D
    || 0x1C <= k <= 0x1F
    || k == 0x85
    || k == 0xA0
    || k == 0x1680
    || 0x2000 <= k <= 0x200A
    || k == 0x2028
    || k == 0x2029
    || k == 0x202F
    || k == 0x205F
    || k == 0x3000
  }

  predicate NoSpace(w: string) {
    forall i :: 0 <= i < |w| ==> !IsSpace(w[i])
  }

  predicate AllSpace(w: string) {
    forall i :: 0 <= i < |w| ==> IsSpace(w[i])
  }

  /** Number of maximal non-whitespace runs that start in `s`; `inWord` says
      whether the character just before `s` already belonged to a word. */
  function Runs(s: string, inWord: bool): nat
    decreases |s|
  {
    if s == [] then 0
    else if IsSpace(s[0]) then Runs(s[1..], false)
    else (if inWord then 0 else 1) + Runs(s[1..], true)
  }

  /** The word count: one per position where a word starts. */
  function WordCount(s: string): nat {
    Runs(s, false)
  }

  /** `s` without its leading whitespace. */
  function DropSpaces(s: string): (t: string)
    ensures |t| <= |s|
    ensures t == [] || !IsSpace(t[0])
  {
    if s != [] && IsSpace(s[0]) then DropSpaces(s[1..]) else s
  }

  /** The longest whitespace-free prefix of `s`. */
  function TakeWord(s: string): (w: string)
    ensures |w| <= |s| && w == s[..|w|]
    ensures NoSpace(w)
    ensures |w| == |s| || IsSpace(s[|w|])
    ensures s != [] && !IsSpace(s[0]) ==> w != []
  {
    if s == [] || IsSpace(s[0]) then [] else [s[0]] + TakeWord(s[1..])
  }

  /** `str.split()`: the words of `s`, left to right. */
  function Split(s: string): seq<string>
    decreases |s|
  {
    var t := DropSpaces(s);
    if t == [] then []
    else
      var w := TakeWord(t);
      [w] + Split(t[|w|..])
  }

  /** Every piece `str.split()` returns is a non-empty word without
      whitespace. */
  lemma {:induction false} SplitYieldsWords(s: string)
    ensures forall k :: 0 <= k < |Split(s)| ==> Split(s)[k] != [] && NoSpace(Split(s)[k])
    decreases |s|
  {
    var t := DropSpaces(s);
    if t != [] {
      var w := TakeWord(t);
      var rest := Split(t[|w|..]);
      SplitYieldsWords(t[|w|..]);
      assert Split(s) == [w] + rest;
      forall k | 1 <= k < |Split(s)|
        ensures Split(s)[k] == rest[k - 1]
      {
      }
    }
  }

  lemma {:induction false} RunsDropSpaces(s: string)
    ensures Runs(DropSpaces(s), false) == Runs(s, false)
    decreases |s|
  {
    if s != [] && IsSpace(s[0]) {
      RunsDropSpaces(s[1..]);
    }
  }

  /** A whole word followed by `rest` opens one run (unless one is already
      open) and leaves the scan inside a word. */
  lemma {:induction false} RunsOverWord(w: string, rest: string, inWord: bool)
    requires w != [] && NoSpace(w)
    ensures Runs(w + rest, inWord) == (if inWord then 0 else 1) + Runs(rest, true)
    decreases |w|
  {
    var s := w + rest;
    assert s[0] == w[0] && s[1..] == w[1..] + rest;
    if |w| > 1 {
      RunsOverWord(w[1..], rest, true);
    }
  }

  /** `len(s.split())` is the number of word runs of `s`. */
  lemma {:induction false} SplitCountsRuns(s: string)
    ensures |Split(s)| == WordCount(s)
    decreases |s|
  {
    var t := DropSpaces(s);
    RunsDropSpaces(s);
    if t != [] {
      var w := TakeWord(t);
      var rest := t[|w|..];
      assert t == w + rest;
      assert |w| > 0;
      RunsOverWord(w, rest, false);
      assert Runs(rest, true) == Runs(rest, false);
      SplitCountsRuns(rest);
      assert Split(s) == [w] + Split(rest);
    }
  }

  /** Appending whitespace never starts a word. */
  lemma {:induction false} RunsAppendSpace(s: string, c: char, inWord: bool)
    requires IsSpace(c)
    ensures Runs(s + [c], inWord) == Runs(s, inWord)
    decreases |s|
  {
    if s == [] {
      assert [c][1..] == [];
    } else {
      assert (s + [c])[1..] == s[1..] + [c];
      RunsAppendSpace(s[1..], c, !IsSpace(s[0]));
    }
  }

  /** The trailing newline the widget adds never changes the word count. */
  lemma WordCountIgnoresTrailingNewline(s: string)
    ensures WordCount(s + "\n") == WordCount(s)
  {
    RunsAppendSpace(s, '\n', false);
  }

  lemma {:induction false} TakeWordOf(w: string, rest: string)
    requires NoSpace(w)
    requires rest == [] || IsSpace(rest[0])
    ensures TakeWord(w + rest) == w
    decreases |w|
  {
    if w != [] {
      assert (w + rest)[1..] == w[1..] + rest;
      TakeWordOf(w[1..], rest);
    }
  }

  lemma {:induction false} DropSpacesOf(sp: string, rest: string)
    requires AllSpace(sp)
    requires rest == [] || !IsSpace(rest[0])
    ensures DropSpaces(sp + rest) == rest
    decreases |sp|
  {
    if sp != [] {
      assert (sp + rest)[1..] == sp[1..] + rest;
      DropSpacesOf(sp[1..], rest);
    }
  }

  /** Splitting a text that opens with spaces and then a whole word yields
      that word followed by the words of the remainder. */
  lemma SplitStep(sp: string, w: string, rest: string)
    requires AllSpace(sp) && w != [] && NoSpace(w)
    requires rest == [] || IsSpace(rest[0])
    ensures Split(sp + w + rest) == [w] + Split(rest)
  {
    assert sp + w + rest == sp + (w + rest);
    DropSpacesOf(sp, w + rest);
    TakeWordOf(w, rest);
    assert (w + rest)[|w|..] == rest;
  }

  lemma SplitHello()
    ensures Split("hello world\n") == ["hello"] + Split(" world\n")
  {
    assert "hello world\n" == "" + "hello" + " world\n";
    SplitStep("", "hello", " world\n");
  }

  lemma SplitWorld()
    ensures Split(" world\n") == ["world"]
  {
    assert " world\n" == " " + "world" + "\n";
    SplitStep(" ", "world", "\n");
    assert "\n" == "\n" + "" && AllSpace("\n");
    DropSpacesOf("\n", "");
  }

  /** Example: "hello world" followed by the widget's newline has two words. */
  lemma HelloWorld()
    ensures Split("hello world\n") == ["hello", "world"]
    ensures WordCount("hello world\n") == 2
  {
    SplitHello();
    SplitWorld();
    SplitCountsRuns("hello world\n");
  }
}
