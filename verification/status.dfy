/** The status bar: a word and character count of the widget's content,
    rendered as "Words: <w>  Characters: <c>".
 */
module Status {
  import opened Wrappers
  import opened Widget
  import opened Words
  import opened Decimal

  datatype Counts = Counts(words: nat, chars: nat)

  const WordsLabel := "Words: "
  const CharsLabel := "  Characters: "

  function StatusText(c: Counts): string {
    WordsLabel + NatToString(c.words) + CharsLabel + NatToString(c.chars)
  }

  /** The counts `update_status_bar` takes from the widget: the words of the
      content and its length less the one trailing newline. */
  function Measure(doc: string): (c: Counts)
    ensures c.words == WordCount(doc) == |Split(doc)|
    ensures c.chars == |doc|
  {
    var text := Content(doc);
    WordCountIgnoresTrailingNewline(doc);
    SplitCountsRuns(doc);
    Counts(WordCount(text), |text| - 1)
  }

  /** The status bar text for a document. */
  function StatusLine(doc: string): (line: string)
    ensures line == StatusText(Counts(|Split(doc)|, |doc|))
  {
    StatusText(Measure(doc))
  }

  /** Length of the longest all-digit prefix of `s`. */
  function DigitRun(s: string): (k: nat)
    ensures k <= |s| && AllDigits(s[..k])
    ensures k == |s| || !IsDigit(s[k])
  {
    if s == [] || !IsDigit(s[0]) then 0
    else
      var k := 1 + DigitRun(s[1..]);
      assert s[..k] == [s[0]] + s[1..][..k - 1];
      k
  }

  /** Reads the counts back out of a status text; the inverse of
      `StatusText`. */
  function ParseStatus(line: string): Option<Counts> {
    if |line| < |WordsLabel| || line[..|WordsLabel|] != WordsLabel then None
    else
      var rest := line[|WordsLabel|..];
      var k := DigitRun(rest);
      var after := rest[k..];
      if k == 0 || |after| < |CharsLabel| || after[..|CharsLabel|] != CharsLabel then None
      else
        var tail := after[|CharsLabel|..];
        if tail == [] || !AllDigits(tail) then None
        else Some(Counts(Value(rest[..k]), Value(tail)))
  }

  lemma {:induction false} DigitRunOver(digits: string, rest: string)
    requires AllDigits(digits)
    requires rest == [] || !IsDigit(rest[0])
    ensures DigitRun(digits + rest) == |digits|
    decreases |digits|
  {
    if digits != [] {
      assert (digits + rest)[1..] == digits[1..] + rest;
      DigitRunOver(digits[1..], rest);
    }
  }

  /** The status text can be read back: it determines both counts. */
  lemma {:induction false} ParseStatusText(c: Counts)
    ensures ParseStatus(StatusText(c)) == Some(c)
  {
    var w := NatToString(c.words);
    var n := NatToString(c.chars);
    var line := StatusText(c);
    assert line == WordsLabel + (w + CharsLabel + n);
    assert line[..|WordsLabel|] == WordsLabel;
    var rest := line[|WordsLabel|..];
    assert rest == w + (CharsLabel + n);
    DigitRunOver(w, CharsLabel + n);
    assert rest[..|w|] == w;
    var after := rest[|w|..];
    assert after == CharsLabel + n;
    assert after[..|CharsLabel|] == CharsLabel;
    assert after[|CharsLabel|..] == n;
    ValueOfNatToString(c.words);
    ValueOfNatToString(c.chars);
  }

  lemma StatusTextInjective(a: Counts, b: Counts)
    requires StatusText(a) == StatusText(b)
    ensures a == b
  {
    ParseStatusText(a);
    ParseStatusText(b);
  }

  /** An empty document reports no words and no characters. */
  lemma EmptyStatus()
    ensures StatusLine("") == "Words: 0  Characters: 0"
  {
    assert Split("") == [];
    assert NatToString(0) == "0";
    assert StatusText(Counts(0, 0)) == "Words: " + "0" + "  Characters: " + "0";
  }

  /** Example: "hello world" reports 2 words and 11
      characters. */
  lemma HelloWorldStatus()
    ensures Measure("hello world") == Counts(2, 11)
  {
    var doc := "hello world";
    assert doc + "\n" == "hello world\n";
    HelloWorld();
    WordCountIgnoresTrailingNewline(doc);
    assert WordCount(doc) == 2;
  }
}
