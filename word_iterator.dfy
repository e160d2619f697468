/** The word iterator of exercises/06_lifetimes_on_impls (the exercise and
    the solution hold the same code): a cursor over a string that hands out
    the text up to each next space. */
module WordIterators {
  import opened Strings

  /** What one `next_word` call gives: the word, and the new position. */
  datatype Step = Step(word: Option<string>, position: nat)

  /** The result of `next_word` on `s` with the cursor at `position`: the
      remaining text up to its first space (or all of it when it holds
      none), with the cursor moved just past that space; `None` with the
      cursor unchanged when nothing remains.  The slice `s[position..]` is
      taken first, so `position` must not be past the end. */
  function Scan(s: string, position: nat): (r: Step)
    requires position <= |s|
    ensures r.word.None? <==> position == |s|
    ensures r.word.None? ==> r.position == position
    ensures r.word.Some? ==>
              r.position == position + |r.word.value| + 1 &&
              ' ' !in r.word.value &&
              r.word.value <= s[position..]
    ensures r.word.Some? && r.position <= |s| ==> s[r.position - 1] == ' '
    ensures r.word.Some? && r.position > |s| ==> r.word.value == s[position..]
  {
    var rest := s[position..];
    FindFirstMeaning(rest, {' '});
    var end := match FindFirst(rest, {' '}) case None => |rest| case Some(i) => i;
    if |rest| != 0 then Step(Some(rest[..end]), position + end + 1)
    else Step(None, position)
  }

  /** A space right at the cursor gives the empty word: two spaces in a row
      yield `Some("")` between them. */
  lemma ScanAtSpace(s: string, position: nat)
    requires position < |s| && s[position] == ' '
    ensures Scan(s, position) == Step(Some(""), position + 1)
  {
    assert s[position..][0] == ' ';
  }

  /** A last word without a trailing space moves the cursor one past the
      end of the text, so a further call would slice out of bounds (the
      source panics there). */
  lemma LastWordOverruns(s: string, position: nat)
    requires position < |s|
    requires forall j :: position <= j < |s| ==> s[j] != ' '
    ensures Scan(s, position).word == Some(s[position..])
    ensures Scan(s, position).position == |s| + 1
  {
    var rest := s[position..];
    assert forall j :: 0 <= j < |rest| ==> rest[j] !in {' '} by {
      forall j | 0 <= j < |rest| ensures rest[j] !in {' '} {
        assert rest[j] == s[position + j];
      }
    }
    assert rest[..|rest|] == rest;
  }

  /** All the words one gets by calling `next_word` until it returns `None`
      or the cursor has passed the end. */
  function Words(s: string, position: nat): seq<string>
    requires position <= |s| + 1
    decreases |s| + 1 - position
  {
    if position >= |s| then []
    else [Scan(s, position).word.value] + Words(s, Scan(s, position).position)
  }

  /** A word that ends at a space splits the remaining text in three: the
      word, the space, and what follows. */
  lemma ScanSplitsText(s: string, position: nat)
    requires position < |s| && Scan(s, position).position <= |s|
    ensures s[position..] ==
              Scan(s, position).word.value + " " + s[Scan(s, position).position..]
  {
    var step := Scan(s, position);
    var w := step.word.value;
    assert s[position..][..|w|] == w;
    assert s[position..] == s[position..][..|w|] + [s[step.position - 1]] + s[step.position..];
  }

  /** The words rebuild the text: joined with single spaces they give the
      text from the cursor on, but for a trailing space, which ends the last
      word and is not followed by another. */
  lemma {:induction false} WordsRebuildText(s: string, position: nat)
    requires position <= |s|
    ensures Join(Words(s, position), ' ') + (if position < |s| && s[|s| - 1] == ' ' then " " else "")
            == s[position..]
    ensures forall i :: 0 <= i < |Words(s, position)| ==> ' ' !in Words(s, position)[i]
    decreases |s| - position
  {
    if position < |s| {
      var step := Scan(s, position);
      var w := step.word.value;
      var tail := Words(s, step.position);
      assert Words(s, position) == [w] + tail;
      if step.position > |s| {
        assert tail == [];
        assert w == s[position..];
        assert w[|w| - 1] == s[|s| - 1];
      } else {
        WordsRebuildText(s, step.position);
        ScanSplitsText(s, position);
        if step.position == |s| {
          assert tail == [];
        } else {
          assert ([w] + tail)[1..] == tail;
          assert Join([w] + tail, ' ') == w + [' '] + Join(tail, ' ');
        }
      }
    }
  }

  /** `WordIterator`: the text and the cursor into it.  (The source's field
      is called `string`, a reserved word in Dafny.) */
  class WordIterator {
    var position: nat
    var text: string

    /** The cursor is at most one past the end of the text. */
    ghost predicate Valid()
      reads this
    {
      position <= |text| + 1
    }

    /** `WordIterator::new`: the cursor starts at the beginning. */
    constructor (text: string)
      ensures this.text == text && position == 0
      ensures Valid()
    {
      position := 0;
      this.text := text;
    }

    /** `next_word`: returns the next word and moves the cursor past the
        space that ends it; only the cursor changes.  The slice at the
        start of the source's body panics when the cursor is past the end,
        hence the precondition. */
    method NextWord() returns (word: Option<string>)
      requires position <= |text|
      modifies this`position
      ensures Step(word, position) == Scan(text, old(position))
      ensures text == old(text)
      ensures Valid()
    {
      var startOfWord := text[position..];
      var indexOfNextSpace :=
        match FindFirst(startOfWord, {' '}) case None => |startOfWord| case Some(i) => i;
      if |startOfWord| != 0 {
        position := position + indexOfNextSpace + 1;
        word := Some(startOfWord[..indexOfNextSpace]);
      } else {
        word := None;
      }
    }
  }

  /** The text of the exercise's test, split after the second word, which
      the lemmas below look at. */
  const TestText: string :=
    "Twas brillig, " +
    "and the slithy toves // Did gyre and gimble in the wabe: // All mimsy were the borogoves, // And the mome raths outgrabe. "

  lemma ScanTestText()
    ensures Scan(TestText, 0) == Step(Some("Twas"), 5)
    ensures Scan(TestText, 5) == Step(Some("brillig,"), 14)
  {
    var t := TestText;
    var head := "Twas brillig, ";
    assert t[..14] == head;
    assert forall j :: 0 <= j < 14 ==> t[j] == head[j];
    assert t[0..] == t;
    FindFirstAt(t, {' '}, 4);
    assert t[..4] == "Twas";
    var r := t[5..];
    assert forall j :: 0 <= j < 9 ==> r[j] == head[j + 5];
    FindFirstAt(r, {' '}, 8);
    assert r[..8] == "brillig,";
  }

  /** The test of the exercise copy: the first two calls give "Twas" and
      then "brillig,". */
  method TestMain() returns (first: Option<string>, second: Option<string>)
    ensures first == Some("Twas") && second == Some("brillig,")
  {
    ScanTestText();
    var cursor := new WordIterator(TestText);
    first := cursor.NextWord();
    second := cursor.NextWord();
  }
}
