/** Bold, italic and underline as sets of character offsets, and the toggle
    rule the three Format menu entries share: look at the first selected
    character only, then remove the tag from the whole selection if that
    character has it and add it to the whole selection otherwise.
 */
module Formatting {

  datatype Style = Bold | Italic | Underline

  /** The offsets each style tag covers. */
  datatype Tags = Tags(bold: set<nat>, italic: set<nat>, underline: set<nat>) {

    function Get(style: Style): set<nat> {
      match style
      case Bold => bold
      case Italic => italic
      case Underline => underline
    }

    function With(style: Style, offsets: set<nat>): (t: Tags)
      ensures t.Get(style) == offsets
      ensures forall other :: other != style ==> t.Get(other) == Get(other)
    {
      match style
      case Bold => this.(bold := offsets)
      case Italic => this.(italic := offsets)
      case Underline => this.(underline := offsets)
    }

    /** Every tagged offset names a character of a document of length n. */
    predicate Within(n: nat) {
      forall style, i :: i in Get(style) ==> i < n
    }
  }

  const NoTags := Tags({}, {}, {})

  /** A Tk selection, `sel.first` inclusive to `sel.last` exclusive; the
      toolkit never reports an empty one. */
  datatype Selection = Selection(first: nat, last: nat) {
    predicate Fits(n: nat) {
      first < last <= n
    }
  }

  /** The offsets first, first + 1, ..., last - 1. */
  function Range(first: nat, last: nat): (r: set<nat>)
    ensures forall i :: i in r <==> first <= i < last
    decreases last - first
  {
    if last <= first then {} else {first} + Range(first + 1, last)
  }

  /** The offsets of one tag after a toggle over [first, last). */
  function ToggleRange(offsets: set<nat>, first: nat, last: nat): (r: set<nat>)
    requires first < last
    ensures first in offsets ==> forall i :: first <= i < last ==> i !in r
    ensures first !in offsets ==> forall i :: first <= i < last ==> i in r
    ensures forall i :: i < first || last <= i ==> (i in r <==> i in offsets)
  {
    if first in offsets then offsets - Range(first, last)
    else offsets + Range(first, last)
  }

  /** The toggle of `style` over a selection; the other tags are untouched. */
  function Toggle(tags: Tags, style: Style, sel: Selection): (t: Tags)
    requires sel.first < sel.last
    ensures forall other :: other != style ==> t.Get(other) == tags.Get(other)
    ensures sel.first in tags.Get(style) ==>
      forall i :: sel.first <= i < sel.last ==> i !in t.Get(style)
    ensures sel.first !in tags.Get(style) ==>
      forall i :: sel.first <= i < sel.last ==> i in t.Get(style)
    ensures forall i :: i < sel.first || sel.last <= i ==>
      (i in t.Get(style) <==> i in tags.Get(style))
    ensures forall n: nat :: tags.Within(n) && sel.last <= n ==> t.Within(n)
  {
    tags.With(style, ToggleRange(tags.Get(style), sel.first, sel.last))
  }

  /** The whole range carries the tag, or none of it does. */
  predicate Uniform(offsets: set<nat>, first: nat, last: nat) {
    || (forall i :: first <= i < last ==> i in offsets)
    || (forall i :: first <= i < last ==> i !in offsets)
  }

  /** Only the first character's tag state decides: two tag sets that agree
      there get the same range after a toggle. */
  lemma DecidedByFirst(a: set<nat>, b: set<nat>, first: nat, last: nat)
    requires first < last
    requires first in a <==> first in b
    ensures forall i :: first <= i < last ==>
      (i in ToggleRange(a, first, last) <==> i in ToggleRange(b, first, last))
  {
  }

  /** After one toggle the selection is uniformly tagged or untagged. */
  lemma ToggleLeavesUniform(offsets: set<nat>, first: nat, last: nat)
    requires first < last
    ensures Uniform(ToggleRange(offsets, first, last), first, last)
  {
  }

  /** Toggling twice lands the whole range on the first character's
      original state, and leaves everything outside the range alone. */
  lemma ToggleTwice(offsets: set<nat>, first: nat, last: nat)
    requires first < last
    ensures var twice := ToggleRange(ToggleRange(offsets, first, last), first, last);
      && (forall i :: first <= i < last ==> (i in twice <==> first in offsets))
      && (forall i :: i < first || last <= i ==> (i in twice <==> i in offsets))
  {
    var once := ToggleRange(offsets, first, last);
    assert first in once <==> first !in offsets;
  }

  /** Toggling twice restores the tag exactly when the range was uniform. */
  lemma ToggleTwiceRestoresIffUniform(offsets: set<nat>, first: nat, last: nat)
    requires first < last
    ensures ToggleRange(ToggleRange(offsets, first, last), first, last) == offsets
            <==> Uniform(offsets, first, last)
  {
    var twice := ToggleRange(ToggleRange(offsets, first, last), first, last);
    ToggleTwice(offsets, first, last);
    if Uniform(offsets, first, last) {
      forall i ensures i in twice <==> i in offsets {
        if first <= i < last {
          assert first in offsets <==> i in offsets;
        }
      }
    } else {
      var j :| first <= j < last && (j in offsets <==> first !in offsets);
      assert j in twice <==> j !in offsets;
    }
  }

  /** A mixed selection whose first character is plain becomes wholly
      tagged; one whose first character is tagged becomes wholly plain. */
  lemma MixedSelectionExamples()
    ensures ToggleRange({1}, 0, 3) == {0, 1, 2}
    ensures ToggleRange({0}, 0, 3) == {}
  {
    assert ToggleRange({1}, 0, 3) == {0, 1, 2} by {
      forall i ensures i in ToggleRange({1}, 0, 3) <==> i in {0, 1, 2} {}
    }
    assert ToggleRange({0}, 0, 3) == {} by {
      forall i ensures i !in ToggleRange({0}, 0, 3) {}
    }
  }
}
