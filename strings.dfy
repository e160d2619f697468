/** The few string operations of the Rust standard library that the pattern
    matcher and the word iterator rely on (`str::find`, `str::split`), stated
    over `string`, that is `seq<char>` of Unicode scalar values.  A prefix test
    (`str::starts_with`) is Dafny's own `<=` on sequences. */
module Strings {

  datatype Option<+T> = None | Some(value: T)

  /** `s.find(c)` for a character `c` in `stops`: the index of the first
      character of `s` that is in `stops`, or `None` when there is none
      (`FindFirstMeaning`). */
  function FindFirst(s: string, stops: set<char>): (r: Option<nat>)
    ensures r.Some? ==> r.value < |s| && s[r.value] in stops
    decreases |s|
  {
    if s == [] then None
    else if s[0] in stops then Some(0)
    else
      match FindFirst(s[1..], stops)
      case None => None
      case Some(i) => Some(i + 1)
  }

  /** No character before the reported index is a stop character, and
      `None` means that no character of `s` is one. */
  lemma {:induction false} FindFirstMeaning(s: string, stops: set<char>)
    ensures FindFirst(s, stops).Some? ==>
              forall j :: 0 <= j < FindFirst(s, stops).value ==> s[j] !in stops
    ensures FindFirst(s, stops).None? ==> forall j :: 0 <= j < |s| ==> s[j] !in stops
    decreases |s|
  {
    if s != [] && s[0] !in stops {
      FindFirstMeaning(s[1..], stops);
      assert forall j :: 0 < j < |s| ==> s[j] == s[1..][j - 1];
    }
  }

  /** The first index holding a stop character is the one `FindFirst` reports. */
  lemma FindFirstAt(s: string, stops: set<char>, i: nat)
    requires i < |s| && s[i] in stops
    requires forall j :: 0 <= j < i ==> s[j] !in stops
    ensures FindFirst(s, stops) == Some(i)
  {
    FindFirstMeaning(s, stops);
  }

  /** Searching `x + y` when `x` holds no stop character searches `y`. */
  lemma {:induction false} FindFirstAfter(x: string, y: string, stops: set<char>)
    requires forall j :: 0 <= j < |x| ==> x[j] !in stops
    ensures FindFirst(x + y, stops) ==
              match FindFirst(y, stops)
              case None => None
              case Some(i) => Some(|x| + i)
  {
    if x != [] {
      assert (x + y)[0] == x[0];
      assert (x + y)[1..] == x[1..] + y;
      FindFirstAfter(x[1..], y, stops);
    } else {
      assert x + y == y;
    }
  }

  /** A stop character found in `x` is still the first one in `x + y`. */
  lemma FindFirstBefore(x: string, y: string, stops: set<char>)
    requires FindFirst(x, stops).Some?
    ensures FindFirst(x + y, stops) == FindFirst(x, stops)
  {
    var i := FindFirst(x, stops).value;
    FindFirstMeaning(x, stops);
    assert forall j :: 0 <= j <= i ==> (x + y)[j] == x[j];
    FindFirstAt(x + y, stops, i);
  }

  /** `s.split(sep).collect()`: the pieces of `s` between occurrences of
      `sep`, in order, empty pieces included; there is always at least one. */
  function Split(s: string, sep: char): (parts: seq<string>)
    ensures |parts| >= 1
    decreases |s|
  {
    match FindFirst(s, {sep})
    case None => [s]
    case Some(i) => [s[..i]] + Split(s[i + 1..], sep)
  }

  /** No piece of a split holds the separator. */
  lemma {:induction false} SplitPieces(s: string, sep: char)
    ensures forall i :: 0 <= i < |Split(s, sep)| ==> sep !in Split(s, sep)[i]
    decreases |s|
  {
    FindFirstMeaning(s, {sep});
    match FindFirst(s, {sep})
    case None =>
    case Some(i) =>
      SplitPieces(s[i + 1..], sep);
      assert sep !in s[..i];
  }

  /** The inverse of `Split`: the pieces with `sep` between each two. */
  function Join(parts: seq<string>, sep: char): (s: string)
  {
    if |parts| == 0 then []
    else if |parts| == 1 then parts[0]
    else parts[0] + [sep] + Join(parts[1..], sep)
  }

  /** The number of occurrences of `c` in `s`. */
  function Count(s: string, c: char): (n: nat)
    ensures n <= |s|
    ensures n == 0 <==> c !in s
  {
    if s == [] then 0
    else (if s[0] == c then 1 else 0) + Count(s[1..], c)
  }

  /** Joining the pieces again gives back the text that was split. */
  lemma {:induction false} JoinSplit(s: string, sep: char)
    ensures Join(Split(s, sep), sep) == s
    decreases |s|
  {
    match FindFirst(s, {sep})
    case None =>
    case Some(i) =>
      var tail := Split(s[i + 1..], sep);
      JoinSplit(s[i + 1..], sep);
      assert ([s[..i]] + tail)[1..] == tail;
      assert s == s[..i] + [sep] + s[i + 1..];
  }

  /** Splitting a join of separator-free pieces gives back the pieces. */
  lemma {:induction false} SplitJoin(parts: seq<string>, sep: char)
    requires |parts| >= 1
    requires forall i :: 0 <= i < |parts| ==> sep !in parts[i]
    ensures Split(Join(parts, sep), sep) == parts
  {
    if |parts| > 1 {
      var rest := Join(parts[1..], sep);
      var s := parts[0] + [sep] + rest;
      assert (s)[|parts[0]|] == sep;
      forall j | 0 <= j < |parts[0]| ensures s[j] !in {sep} {
        assert s[j] == parts[0][j];
      }
      FindFirstAt(s, {sep}, |parts[0]|);
      assert s[..|parts[0]|] == parts[0];
      assert s[|parts[0]| + 1..] == rest;
      SplitJoin(parts[1..], sep);
      assert parts == [parts[0]] + parts[1..];
    }
  }

  /** Every separator starts a new piece: `Split` yields one piece more than
      there are separators, so empty pieces are kept. */
  lemma {:induction false} SplitCount(s: string, sep: char)
    ensures |Split(s, sep)| == Count(s, sep) + 1
    decreases |s|
  {
    match FindFirst(s, {sep})
    case None =>
      FindFirstMeaning(s, {sep});
    case Some(i) =>
      SplitCount(s[i + 1..], sep);
      SplitCountStep(s, sep, i);
  }

  /** The first separator of `s` adds one piece and one occurrence. */
  lemma SplitCountStep(s: string, sep: char, i: nat)
    requires FindFirst(s, {sep}) == Some(i)
    ensures |Split(s, sep)| == 1 + |Split(s[i + 1..], sep)|
    ensures Count(s, sep) == 1 + Count(s[i + 1..], sep)
  {
    FindFirstMeaning(s, {sep});
    CountAppend(s[..i], s[i..], sep);
    assert s == s[..i] + s[i..];
    assert sep !in s[..i];
    assert s[i..][0] == sep && s[i..][1..] == s[i + 1..];
  }

  lemma {:induction false} CountAppend(x: string, y: string, c: char)
    ensures Count(x + y, c) == Count(x, c) + Count(y, c)
  {
    if x != [] {
      assert (x + y)[1..] == x[1..] + y;
      CountAppend(x[1..], y, c);
    } else {
      assert x + y == y;
    }
  }

  /** A character that is neither the separator nor in any piece is not in the join. */
  lemma {:induction false} JoinAvoids(parts: seq<string>, sep: char, c: char)
    requires c != sep
    requires forall i :: 0 <= i < |parts| ==> c !in parts[i]
    ensures c !in Join(parts, sep)
  {
    if |parts| > 1 {
      JoinAvoids(parts[1..], sep, c);
    }
  }

  /** A character absent from the text is absent from every piece of its split. */
  lemma {:induction false} SplitAvoids(s: string, sep: char, c: char)
    requires c !in s
    ensures forall i :: 0 <= i < |Split(s, sep)| ==> c !in Split(s, sep)[i]
    decreases |s|
  {
    match FindFirst(s, {sep})
    case None =>
    case Some(i) =>
      SplitAvoids(s[i + 1..], sep, c);
      assert c !in s[..i];
  }
}
