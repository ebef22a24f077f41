/** Python's `str.replace(old, new)` with no count: a literal,
    case-sensitive, left-to-right, non-overlapping replacement of every
    occurrence; an empty `old` matches before every character and at the
    end.
 */
module FindReplace {

  predicate IsPrefix(p: string, s: string) {
    |p| <= |s| && s[..|p|] == p
  }

  /** `find` occurs in `s` starting at offset `i`. */
  predicate MatchAt(find: string, s: string, i: int) {
    0 <= i <= |s| - |find| && s[i..i + |find|] == find
  }

  /** `find` occurs somewhere in `s` (Python's `find in s`). */
  predicate Occurs(find: string, s: string) {
    exists i :: 0 <= i <= |s| - |find| && MatchAt(find, s, i)
  }

  /** `str.replace` with an empty pattern: `repl` before every character
      and once more at the end. */
  function Interleave(s: string, repl: string): (r: string)
    ensures |r| == |s| + (|s| + 1) * |repl|
    decreases |s|
  {
    if s == [] then repl
    else repl + [s[0]] + Interleave(s[1..], repl)
  }

  function Replace(s: string, find: string, repl: string): string
    decreases |s|
  {
    if find == [] then Interleave(s, repl)
    else if s == [] then []
    else if IsPrefix(find, s) then repl + Replace(s[|find|..], find, repl)
    else [s[0]] + Replace(s[1..], find, repl)
  }

  /** Python's `str.count(old)`: the matches `str.replace` rewrites. */
  function Count(s: string, find: string): nat
    decreases |s|
  {
    if find == [] then |s| + 1
    else if s == [] then 0
    else if IsPrefix(find, s) then 1 + Count(s[|find|..], find)
    else Count(s[1..], find)
  }

  /** Each match changes the length by the difference of the two strings. */
  lemma {:induction false} ReplaceLength(s: string, find: string, repl: string)
    ensures |Replace(s, find, repl)| == |s| + Count(s, find) * (|repl| - |find|)
    decreases |s|
  {
    if find != [] && s != [] {
      var d := |repl| - |find|;
      if IsPrefix(find, s) {
        var t := s[|find|..];
        var c := Count(t, find);
        assert (c + 1) * d == c * d + d by { }
        ReplaceLength(t, find, repl);
        assert |Replace(s, find, repl)| == |repl| + |Replace(t, find, repl)|;
        assert Count(s, find) == c + 1;
      } else {
        ReplaceLength(s[1..], find, repl);
        assert |Replace(s, find, repl)| == 1 + |Replace(s[1..], find, repl)|;
        assert Count(s, find) == Count(s[1..], find);
      }
    }
  }

  lemma {:induction false} OccursInTail(find: string, s: string)
    requires s != [] && Occurs(find, s[1..])
    ensures Occurs(find, s)
  {
    var i :| 0 <= i <= |s[1..]| - |find| && MatchAt(find, s[1..], i);
    assert s[i + 1..i + 1 + |find|] == s[1..][i..i + |find|];
    assert MatchAt(find, s, i + 1);
  }

  lemma {:induction false} OccursAfterMatch(find: string, s: string)
    requires IsPrefix(find, s)
    ensures Occurs(find, s)
  {
    assert MatchAt(find, s, 0);
  }

  /** A non-empty pattern that never occurs leaves the text alone. */
  lemma {:induction false} ReplaceAbsent(s: string, find: string, repl: string)
    requires find != [] && !Occurs(find, s)
    ensures Replace(s, find, repl) == s
    ensures Count(s, find) == 0
    decreases |s|
  {
    if s != [] {
      if IsPrefix(find, s) {
        OccursAfterMatch(find, s);
      } else {
        if Occurs(find, s[1..]) {
          OccursInTail(find, s);
        }
        ReplaceAbsent(s[1..], find, repl);
        assert [s[0]] + s[1..] == s;
      }
    }
  }

  /** A non-empty pattern that occurs is matched at least once. */
  lemma {:induction false} CountPresent(s: string, find: string)
    requires find != [] && Occurs(find, s)
    ensures Count(s, find) > 0
    decreases |s|
  {
    var i :| 0 <= i <= |s| - |find| && MatchAt(find, s, i);
    if !IsPrefix(find, s) {
      assert i > 0;
      assert s[1..][i - 1..i - 1 + |find|] == s[i..i + |find|];
      assert MatchAt(find, s[1..], i - 1);
      CountPresent(s[1..], find);
    }
  }

  /** For a non-empty pattern, there is nothing to replace exactly when the
      pattern does not occur. */
  lemma CountZeroIffAbsent(s: string, find: string)
    requires find != []
    ensures Count(s, find) == 0 <==> !Occurs(find, s)
  {
    if Occurs(find, s) {
      CountPresent(s, find);
    } else {
      ReplaceAbsent(s, find, find);
    }
  }

  /** Replacing a pattern by itself is the identity, the empty pattern
      included. */
  lemma {:induction false} ReplaceBySelf(s: string, find: string)
    ensures Replace(s, find, find) == s
    decreases |s|
  {
    if find == [] {
      InterleaveEmpty(s);
    } else if s != [] {
      if IsPrefix(find, s) {
        ReplaceBySelf(s[|find|..], find);
        assert find + s[|find|..] == s;
      } else {
        ReplaceBySelf(s[1..], find);
        assert [s[0]] + s[1..] == s;
      }
    }
  }

  lemma {:induction false} InterleaveEmpty(s: string)
    ensures Interleave(s, "") == s
    decreases |s|
  {
    if s != [] {
      InterleaveEmpty(s[1..]);
      assert [s[0]] + s[1..] == s;
    }
  }

  /** With an empty pattern each character is followed by one more copy
      of `repl`: together with `Interleave("", repl) == repl` this places
      the replacement before every character and once at the end. */
  lemma {:induction false} InterleaveSnoc(s: string, c: char, repl: string)
    ensures Interleave([], repl) == repl
    ensures Interleave(s + [c], repl) == Interleave(s, repl) + [c] + repl
    decreases |s|
  {
    if s == [] {
      assert Interleave([c], repl) == repl + [c] + Interleave([], repl);
    } else {
      assert (s + [c])[0] == s[0] && (s + [c])[1..] == s[1..] + [c];
      InterleaveSnoc(s[1..], c, repl);
    }
  }

  /** A pattern without the character `c` cannot match across a `c`
      appended at the end, so that character passes through unchanged. */
  lemma {:induction false} ReplaceAppend(s: string, c: char, find: string, repl: string)
    requires find != [] && c !in find
    ensures Replace(s + [c], find, repl) == Replace(s, find, repl) + [c]
    decreases |s|
  {
    var sc := s + [c];
    if s == [] {
      assert !IsPrefix(find, sc);
      assert sc[1..] == [];
    } else if IsPrefix(find, s) {
      assert IsPrefix(find, sc) by { assert sc[..|find|] == s[..|find|]; }
      assert sc[|find|..] == s[|find|..] + [c];
      ReplaceAppend(s[|find|..], c, find, repl);
    } else {
      assert !IsPrefix(find, sc) by {
        if |find| <= |s| {
          assert s[..|find|] == sc[..|find|];
        } else if |find| == |sc| {
          assert find[|s|] != c;
        }
      }
      assert sc[1..] == s[1..] + [c];
      ReplaceAppend(s[1..], c, find, repl);
    }
  }

  /** Characters that cannot start a match pass through unchanged. */
  lemma {:induction false} ReplaceSkip(u: string, v: string, find: string, repl: string)
    requires find != [] && find[0] !in u
    ensures Replace(u + v, find, repl) == u + Replace(v, find, repl)
    decreases |u|
  {
    if u == [] {
      assert u + v == v;
    } else {
      var s := u + v;
      assert s[0] == u[0];
      assert s[0] != find[0];
      assert !IsPrefix(find, s) by {
        if |find| <= |s| {
          assert s[..|find|][0] == s[0];
        }
      }
      assert s[1..] == u[1..] + v;
      ReplaceSkip(u[1..], v, find, repl);
      assert Replace(s, find, repl) == [u[0]] + (u[1..] + Replace(v, find, repl));
      assert [u[0]] + u[1..] == u;
    }
  }

  lemma FooBarTail()
    ensures Replace(" bar foo", "foo", "baz") == " bar baz"
  {
    assert " bar foo" == " bar " + "foo";
    ReplaceSkip(" bar ", "foo", "foo", "baz");
    assert "foo"[3..] == [];
  }

  /** Example: every occurrence is replaced. */
  lemma FooBar()
    ensures Replace("foo bar foo", "foo", "baz") == "baz bar baz"
  {
    var s := "foo bar foo";
    assert IsPrefix("foo", s);
    assert s[3..] == " bar foo";
    FooBarTail();
  }

  /** An empty pattern is not a no-op: a non-empty replacement is inserted
      |s| + 1 times. */
  lemma EmptyFindInserts(s: string, repl: string)
    requires repl != []
    ensures |Replace(s, "", repl)| == |s| + (|s| + 1) * |repl|
    ensures Replace(s, "", repl) != s
  {
  }

  lemma EmptyFindExample()
    ensures Replace("ab", "", "X") == "XaXbX"
  {
    assert "ab"[1..] == "b";
    assert "b"[1..] == [];
  }
}
