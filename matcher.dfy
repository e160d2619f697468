/** The pattern matcher of exercises/08_finale: a one-pass parser from a
    pattern string to a sequence of tokens, and a greedy matcher that walks
    those tokens over a candidate string and remembers the longest match it
    has reported.

    Pattern syntax: `.` is a wildcard, `(a|b|c)` a choice of alternatives,
    any other run of characters is literal text.  Strings are `seq<char>`,
    so one character is one element and byte lengths and character counts
    coincide (the source mixes the two at line 119; line 107 counts its
    one character in bytes, consistently). */
module PatternMatcher {
  import opened Strings

  /** `MatcherToken`: literal text, a choice of alternatives, or a single
      character of any value.  Token text is held by value; in the source it
      borrows from the pattern string. */
  datatype Token =
    | RawText(text: string)
    | OneOfText(alternatives: seq<string>)
    | WildCard

  /** The characters that end a literal run. */
  const Specials: set<char> := {'.', '('}

  /** The length of the literal run at the start of `s`: up to the first `.`
      or `(`, or all of `s` when neither occurs (`LiteralLengthMeaning`).
      The source's search at line 82 is meant to find this position (see
      `LiteralArmAsWritten`). */
  function LiteralLength(s: string): (n: nat)
    ensures n <= |s|
    ensures n < |s| ==> s[n] in Specials
  {
    match FindFirst(s, Specials)
    case None => |s|
    case Some(i) => i
  }

  /** A literal run is the longest prefix free of `.` and `(`: no character
      before its end is one, and it ends at one or at the end of `s`. */
  lemma LiteralLengthMeaning(s: string)
    ensures forall j :: 0 <= j < LiteralLength(s) ==> s[j] !in Specials
    ensures LiteralLength(s) < |s| ==> s[LiteralLength(s)] in Specials
  {
    FindFirstMeaning(s, Specials);
  }

  /** `head` followed by the tokens of a parse that may have failed. */
  function Prepend(head: seq<Token>, rest: Option<seq<Token>>): (r: Option<seq<Token>>)
    ensures r.Some? <==> rest.Some?
    ensures r.Some? ==> r.value == head + rest.value
  {
    match rest
    case None => None
    case Some(ts) => Some(head + ts)
  }

  /** The outcome of one iteration of the parsing loop: the parse fails, or
      one token is emitted and the remaining pattern advances by `length`. */
  datatype Step = Reject | Emit(token: Token, length: nat)

  /** One iteration of the loop of `Matcher.New` on a non-empty remaining
      pattern `s`:
      - `.` is a `WildCard`;
      - `(` starts a group that ends at the first `)`; the text strictly
        between the two, split on `|`, gives the alternatives; with no `)`
        the parse fails;
      - `)` at the start of a token makes the parse fail;
      - anything else starts a literal run (`LiteralLength`). */
  function NextToken(s: string): (r: Step)
    requires s != []
    ensures r.Emit? ==> 0 < r.length <= |s|
  {
    if s[0] == '.' then Emit(WildCard, 1)
    else if s[0] == '(' then
      (match FindFirst(s, {')'})
       case None => Reject
       case Some(close) => Emit(OneOfText(Split(s[1..close], '|')), close + 1))
    else if s[0] == ')' then Reject
    else Emit(RawText(s[..LiteralLength(s)]), LiteralLength(s))
  }

  /** The token sequence the parser produces for `s`, or `None` when `s` is
      not a valid pattern: one `NextToken` step after another until the
      pattern is used up, failing as a whole when any step fails. */
  function ParseTokens(s: string): (r: Option<seq<Token>>)
    ensures s == [] ==> r == Some([])
    ensures r.Some? ==> |r.value| <= |s|
    decreases |s|
  {
    if s == [] then Some([])
    else
      match NextToken(s)
      case Reject => None
      case Emit(t, k) => Prepend([t], ParseTokens(s[k..]))
  }

  /** The pattern text a token is written as. */
  function RenderToken(t: Token): string
  {
    match t
    case RawText(s) => s
    case OneOfText(alternatives) => "(" + Join(alternatives, '|') + ")"
    case WildCard => "."
  }

  /** The pattern text of a token sequence. */
  function Render(ts: seq<Token>): string
  {
    if ts == [] then [] else RenderToken(ts[0]) + Render(ts[1..])
  }

  /** The shape of a single token the parser can produce: a literal is
      non-empty, holds no `.` or `(`, and does not start with `)`; a group
      has at least one alternative, and no alternative holds `|` or `)`. */
  predicate WellFormedToken(t: Token)
  {
    match t
    case RawText(s) => s != [] && s[0] != ')' && '.' !in s && '(' !in s
    case OneOfText(alternatives) =>
      |alternatives| >= 1 &&
      forall i :: 0 <= i < |alternatives| ==> '|' !in alternatives[i] && ')' !in alternatives[i]
    case WildCard => true
  }

  /** Token sequences the parser can produce: well-formed tokens, and never
      two literals in a row (a literal run is maximal). */
  predicate WellFormed(ts: seq<Token>)
  {
    ts == [] ||
    (WellFormedToken(ts[0]) &&
     (|ts| > 1 ==> !(ts[0].RawText? && ts[1].RawText?)) &&
     WellFormed(ts[1..]))
  }

  lemma RenderCons(t: Token, ts: seq<Token>)
    ensures Render([t] + ts) == RenderToken(t) + Render(ts)
  {
    assert ([t] + ts)[1..] == ts;
  }

  /** A token emitted by one step is written as the text it was read from. */
  lemma NextTokenRender(s: string)
    requires s != [] && NextToken(s).Emit?
    ensures RenderToken(NextToken(s).token) == s[..NextToken(s).length]
  {
    if s[0] == '.' {
      assert s[..1] == ".";
    } else if s[0] == '(' {
      var close := FindFirst(s, {')'}).value;
      JoinSplit(s[1..close], '|');
      assert s[..close + 1] == "(" + s[1..close] + ")";
    }
  }

  /** A successful parse of a non-empty pattern is its first token
      followed by a successful parse of what remains after it. */
  lemma ParseUnfold(s: string)
    requires s != [] && ParseTokens(s).Some?
    ensures NextToken(s).Emit?
    ensures ParseTokens(s[NextToken(s).length..]).Some?
    ensures ParseTokens(s).value ==
              [NextToken(s).token] + ParseTokens(s[NextToken(s).length..]).value
  {
  }

  /** Round trip: rendering a successful parse reproduces the pattern. */
  lemma {:induction false} ParseRender(s: string)
    requires ParseTokens(s).Some?
    ensures Render(ParseTokens(s).value) == s
    decreases |s|
  {
    if s != [] {
      ParseUnfold(s);
      var t, k := NextToken(s).token, NextToken(s).length;
      var tail := ParseTokens(s[k..]).value;
      ParseRender(s[k..]);
      NextTokenRender(s);
      RenderJoin(s, k, t, tail);
    }
  }

  /** A token written as the first `k` characters of `s`, followed by
      tokens written as the rest, is written as `s`. */
  lemma RenderJoin(s: string, k: nat, t: Token, tail: seq<Token>)
    requires k <= |s| && RenderToken(t) == s[..k] && Render(tail) == s[k..]
    ensures Render([t] + tail) == s
  {
    RenderCons(t, tail);
    assert s == s[..k] + s[k..];
  }

  /** Rendering a token sequence that does not start with a literal gives
      text that starts with `.` or `(`. */
  lemma RenderStartsSpecial(ts: seq<Token>)
    requires ts != [] && !ts[0].RawText?
    ensures Render(ts) != [] && Render(ts)[0] in Specials
  {
    RenderCons(ts[0], ts[1..]);
    assert ts == [ts[0]] + ts[1..];
  }

  /** Every successful parse is well formed. */
  lemma {:induction false} ParseWellFormed(s: string)
    requires ParseTokens(s).Some?
    ensures WellFormed(ParseTokens(s).value)
    decreases |s|
  {
    if s != [] {
      ParseUnfold(s);
      var t, k := NextToken(s).token, NextToken(s).length;
      var tail := ParseTokens(s[k..]).value;
      ParseWellFormed(s[k..]);
      NextTokenWellFormed(s);
      if t.RawText? && tail != [] {
        ParseUnfold(s[k..]);
      }
      WellFormedCons(t, tail);
    }
  }

  /** Each step emits a well-formed token, and a literal is followed by
      the end of the pattern or by `.` or `(`. */
  lemma NextTokenWellFormed(s: string)
    requires s != [] && NextToken(s).Emit?
    ensures WellFormedToken(NextToken(s).token)
    ensures NextToken(s).token.RawText? ==>
              NextToken(s).length == |s| || s[NextToken(s).length] in Specials
  {
    if s[0] == '(' {
      var close := FindFirst(s, {')'}).value;
      FindFirstMeaning(s, {')'});
      assert ')' !in s[1..close];
      SplitAvoids(s[1..close], '|', ')');
      SplitPieces(s[1..close], '|');
    } else if s[0] != '.' {
      var n := LiteralLength(s);
      LiteralLengthMeaning(s);
      assert s[..n][0] == s[0];
      assert '.' !in s[..n] && '(' !in s[..n];
    }
  }

  lemma WellFormedCons(t: Token, tail: seq<Token>)
    requires WellFormedToken(t) && WellFormed(tail)
    requires t.RawText? && tail != [] ==> !tail[0].RawText?
    ensures WellFormed([t] + tail)
  {
    assert ([t] + tail)[1..] == tail;
  }

  /** The text of a well-formed group, followed by anything, is read back
      as that group in one step. */
  lemma NextTokenOfGroup(alternatives: seq<string>, rest: string)
    requires WellFormedToken(OneOfText(alternatives))
    ensures NextToken(RenderToken(OneOfText(alternatives)) + rest) ==
              Emit(OneOfText(alternatives), |RenderToken(OneOfText(alternatives))|)
  {
    var joined := Join(alternatives, '|');
    var s := "(" + joined + ")" + rest;
    JoinAvoids(alternatives, '|', ')');
    SplitJoin(alternatives, '|');
    assert s == ("(" + joined) + (")" + rest);
    FindFirstAfter("(" + joined, ")" + rest, {')'});
    assert FindFirst(")" + rest, {')'}) == Some(0);
    assert s[1..|joined| + 1] == joined;
  }

  /** A well-formed literal, followed by text that starts with `.` or `(`
      or by nothing, is read back as that literal in one step. */
  lemma NextTokenOfLiteral(x: string, rest: string)
    requires WellFormedToken(RawText(x))
    requires rest == [] || rest[0] in Specials
    ensures NextToken(x + rest) == Emit(RawText(x), |x|)
  {
    var s := x + rest;
    assert forall j :: 0 <= j < |x| ==> x[j] !in Specials by {
      forall j | 0 <= j < |x| ensures x[j] !in Specials {
        assert x[j] in x;
      }
    }
    FindFirstAfter(x, rest, Specials);
    if rest == [] {
      assert s == x;
    } else {
      assert FindFirst(rest, Specials) == Some(0);
    }
    assert s[0] == x[0];
    assert s[..|x|] == x;
  }

  /** The text of a well-formed token, followed by text that does not
      continue a literal, is read back as that token in one step. */
  lemma NextTokenOfRender(t: Token, rest: string)
    requires WellFormedToken(t)
    requires t.RawText? ==> rest == [] || rest[0] in Specials
    ensures RenderToken(t) != []
    ensures NextToken(RenderToken(t) + rest) == Emit(t, |RenderToken(t)|)
  {
    match t
    case WildCard =>
    case OneOfText(alternatives) => NextTokenOfGroup(alternatives, rest);
    case RawText(x) => NextTokenOfLiteral(x, rest);
  }

  /** A well-formed token sequence is parsed back from its rendering, so the
      parser is a bijection between valid patterns and well-formed token
      sequences; with `ParseRender`, re-parsing a rendered parse is the
      identity. */
  lemma {:induction false} RenderParse(ts: seq<Token>)
    requires WellFormed(ts)
    ensures ParseTokens(Render(ts)) == Some(ts)
  {
    if ts != [] {
      var t, rest := ts[0], Render(ts[1..]);
      RenderParse(ts[1..]);
      RenderCons(t, ts[1..]);
      assert ts == [t] + ts[1..];
      if t.RawText? && ts[1..] != [] {
        assert ts[1..][0] == ts[1];
        RenderStartsSpecial(ts[1..]);
      }
      NextTokenOfRender(t, rest);
      var s := Render(ts);
      assert s[|RenderToken(t)|..] == rest;
    }
  }

  /** A `(` with no `)` anywhere after it makes the whole parse fail. */
  lemma {:induction false} UnclosedGroupFails(s: string, i: nat)
    requires i < |s| && s[i] == '('
    requires forall j :: i < j < |s| ==> s[j] != ')'
    ensures ParseTokens(s) == None
    decreases |s|
  {
    if s[0] == '.' {
      UnclosedGroupFails(s[1..], i - 1);
    } else if s[0] == '(' {
      match FindFirst(s, {')'})
      case None =>
      case Some(close) =>
        assert i > close;
        UnclosedGroupFails(s[close + 1..], i - close - 1);
    } else if s[0] != ')' {
      var n := LiteralLength(s);
      LiteralLengthMeaning(s);
      assert i >= n;
      UnclosedGroupFails(s[n..], i - n);
    }
  }

  /** True when `ts` is empty or does not end with a literal: the end of the
      text it was parsed from is the start of a token. */
  predicate EndsAtTokenStart(ts: seq<Token>)
  {
    ts == [] || !ts[|ts| - 1].RawText?
  }

  /** A step that does not run to the end of a literal reads the same
      token whatever text follows. */
  lemma NextTokenExtend(p: string, s: string)
    requires p != [] && NextToken(p).Emit?
    requires NextToken(p).token.RawText? ==> NextToken(p).length < |p|
    ensures NextToken(p + s) == NextToken(p)
  {
    var ps := p + s;
    assert ps[0] == p[0];
    if p[0] == '(' {
      FindFirstBefore(p, s, {')'});
      var close := FindFirst(p, {')'}).value;
      assert ps[1..close] == p[1..close];
    } else if p[0] != '.' && p[0] != ')' {
      var n := LiteralLength(p);
      assert FindFirst(p, Specials).Some?;
      FindFirstBefore(p, s, Specials);
      assert ps[..n] == p[..n];
    }
  }

  /** Parsing continues after a pattern prefix that ends at a token start
      as if the rest stood alone. */
  lemma {:induction false} ParseAppend(p: string, s: string)
    requires ParseTokens(p).Some? && EndsAtTokenStart(ParseTokens(p).value)
    ensures ParseTokens(p + s) == Prepend(ParseTokens(p).value, ParseTokens(s))
    decreases |p|
  {
    if p == [] {
      assert p + s == s;
      PrependNothing(ParseTokens(s));
    } else {
      var t, k := NextToken(p).token, NextToken(p).length;
      ParseAppendHead(p, s);
      ParseAppend(p[k..], s);
      PrependAssoc([t], ParseTokens(p[k..]).value, ParseTokens(s));
    }
  }

  lemma PrependAssoc(x: seq<Token>, y: seq<Token>, r: Option<seq<Token>>)
    ensures Prepend(x, Prepend(y, r)) == Prepend(x + y, r)
  {
    if r.Some? {
      assert x + (y + r.value) == (x + y) + r.value;
    }
  }

  /** The first step of `ParseAppend`: the prefix's first token is read
      from the joined text too, and what follows it still ends at a token
      start. */
  lemma ParseAppendHead(p: string, s: string)
    requires p != [] && ParseTokens(p).Some? && EndsAtTokenStart(ParseTokens(p).value)
    ensures NextToken(p).Emit?
    ensures ParseTokens(p[NextToken(p).length..]).Some?
    ensures ParseTokens(p).value ==
              [NextToken(p).token] + ParseTokens(p[NextToken(p).length..]).value
    ensures EndsAtTokenStart(ParseTokens(p[NextToken(p).length..]).value)
    ensures ParseTokens(p + s) ==
              Prepend([NextToken(p).token], ParseTokens(p[NextToken(p).length..] + s))
  {
    var ts := ParseTokens(p).value;
    var t, k := NextToken(p).token, NextToken(p).length;
    var tail := ParseTokens(p[k..]).value;
    assert ts == [t] + tail;
    assert tail != [] ==> tail[|tail| - 1] == ts[|ts| - 1];
    assert k == |p| ==> tail == [];
    NextTokenExtend(p, s);
    assert (p + s)[k..] == p[k..] + s;
  }

  /** A `)` at the start of a token makes the whole parse fail, wherever it
      comes: at the start of the pattern, or after a group or a wildcard.
      (Inside a literal run a `)` is ordinary text.) */
  lemma StrayCloseFails(p: string, s: string)
    requires ParseTokens(p).Some? && EndsAtTokenStart(ParseTokens(p).value)
    ensures ParseTokens(p + ")" + s) == None
  {
    assert p + ")" + s == p + (")" + s);
    ParseAppend(p, ")" + s);
  }

  /** A group is the text strictly between a `(` and the first `)` after it,
      split on `|` in written order, and parsing resumes just past that `)`. */
  lemma ParseGroup(s: string, close: nat)
    requires s != [] && s[0] == '('
    requires close < |s| && s[close] == ')'
    requires forall j :: 0 < j < close ==> s[j] != ')'
    ensures ParseTokens(s) ==
              Prepend([OneOfText(Split(s[1..close], '|'))], ParseTokens(s[close + 1..]))
  {
    FindFirstAt(s, {')'}, close);
  }

  /** The index of the first alternative that is a prefix of `rest`, as the
      search at lines 113-116 finds it. */
  function FirstPrefix(alternatives: seq<string>, rest: string): (r: Option<nat>)
    ensures r.Some? ==> r.value < |alternatives| && alternatives[r.value] <= rest
    ensures r.Some? ==> forall j :: 0 <= j < r.value ==> !(alternatives[j] <= rest)
    ensures r.None? ==> forall j :: 0 <= j < |alternatives| ==> !(alternatives[j] <= rest)
  {
    if alternatives == [] then None
    else if alternatives[0] <= rest then Some(0)
    else
      match FirstPrefix(alternatives[1..], rest)
      case None => None
      case Some(i) => Some(i + 1)
  }

  /** What one token consumes from the front of the remaining candidate
      text, or `None` when it does not match there.  A wildcard on an
      exhausted candidate does not match (the source panics instead: see
      `WildCardArmAsWritten`). */
  function MatchToken(t: Token, rest: string): (m: Option<string>)
    ensures m.Some? ==> m.value <= rest
  {
    match t
    case RawText(s) => if s <= rest then Some(s) else None
    case OneOfText(alternatives) =>
      (match FirstPrefix(alternatives, rest)
       case None => None
       case Some(i) => Some(alternatives[i]))
    case WildCard => if rest != [] then Some(rest[..1]) else None
  }

  /** Per-token behaviour: a literal matches exactly its text, a group the
      first alternative in written order that the remaining text starts
      with, a wildcard exactly one character. */
  lemma MatchTokenMeaning(t: Token, rest: string)
    ensures t.RawText? ==>
              (MatchToken(t, rest).Some? <==> t.text <= rest) &&
              (MatchToken(t, rest).Some? ==> MatchToken(t, rest).value == t.text)
    ensures t.OneOfText? ==>
              (MatchToken(t, rest).Some? <==>
                 exists i :: 0 <= i < |t.alternatives| && t.alternatives[i] <= rest)
    ensures t.OneOfText? && MatchToken(t, rest).Some? ==>
              exists i :: 0 <= i < |t.alternatives| &&
                MatchToken(t, rest).value == t.alternatives[i] &&
                t.alternatives[i] <= rest &&
                forall j :: 0 <= j < i ==> !(t.alternatives[j] <= rest)
    ensures t.WildCard? ==>
              (MatchToken(t, rest).Some? <==> rest != []) &&
              (MatchToken(t, rest).Some? ==> MatchToken(t, rest).value == [rest[0]])
  {
    if t.OneOfText? {
      var r := FirstPrefix(t.alternatives, rest);
      if r.Some? {
        assert t.alternatives[r.value] <= rest;
      }
    }
  }

  /** The result of matching `ts` against the candidate `c`: a pair (token,
      consumed text) for each token in order, as long as each token matches
      where the previous one left off. */
  function MatchTokens(ts: seq<Token>, c: string): (r: seq<(Token, string)>)
    decreases |ts|
  {
    if ts == [] then []
    else
      match MatchToken(ts[0], c)
      case None => []
      case Some(m) => [(ts[0], m)] + MatchTokens(ts[1..], c[|m|..])
  }

  /** The consumed texts of a match result, one after the other. */
  function Consumed(r: seq<(Token, string)>): string
  {
    if r == [] then [] else r[0].1 + Consumed(r[1..])
  }

  /** Where the i-th pair of `r` starts in the candidate. */
  function Offset(r: seq<(Token, string)>, i: nat): nat
    requires i <= |r|
  {
    |Consumed(r[..i])|
  }

  /** An independent statement of greedy matching: the pairs follow the
      tokens in order, each pair's text is what its token consumes at the
      point where the previous pairs end, and when the result is shorter
      than the tokens the next token does not match at that point. */
  ghost predicate IsGreedyMatch(ts: seq<Token>, c: string, r: seq<(Token, string)>)
  {
    |r| <= |ts| &&
    (forall i :: 0 <= i < |r| ==>
       r[i].0 == ts[i] && Offset(r, i) <= |c| &&
       MatchToken(ts[i], c[Offset(r, i)..]) == Some(r[i].1)) &&
    (|r| < |ts| ==>
       Offset(r, |r|) <= |c| && MatchToken(ts[|r|], c[Offset(r, |r|)..]).None?)
  }

  lemma OffsetCons(p: (Token, string), r: seq<(Token, string)>, i: nat)
    requires i <= |r|
    ensures Offset([p] + r, i + 1) == |p.1| + Offset(r, i)
  {
    var pr := [p] + r;
    assert pr[..i + 1] == [p] + r[..i];
    assert ([p] + r[..i])[1..] == r[..i];
  }

  /** Greedy matching after a first token that consumed `m` is greedy
      matching of the remaining tokens on the remaining text. */
  lemma GreedyCons(ts: seq<Token>, c: string, m: string, r: seq<(Token, string)>)
    requires ts != [] && MatchToken(ts[0], c) == Some(m)
    ensures IsGreedyMatch(ts, c, [(ts[0], m)] + r) <==> IsGreedyMatch(ts[1..], c[|m|..], r)
  {
    if IsGreedyMatch(ts, c, [(ts[0], m)] + r) {
      GreedyTail(ts, c, m, r);
    }
    if IsGreedyMatch(ts[1..], c[|m|..], r) {
      GreedyHead(ts, c, m, r);
    }
  }

  /** Where the pairs after a first pair consuming `m` start: `|m|` further
      on, in the candidate and in what remains of it. */
  lemma OffsetShift(m: string, t: Token, r: seq<(Token, string)>, c: string, k: nat)
    requires k <= |r| && m <= c
    ensures Offset([(t, m)] + r, k + 1) == |m| + Offset(r, k)
    ensures Offset(r, k) <= |c[|m|..]| ==> c[|m| + Offset(r, k)..] == c[|m|..][Offset(r, k)..]
  {
    OffsetCons((t, m), r, k);
  }

  lemma GreedyTail(ts: seq<Token>, c: string, m: string, r: seq<(Token, string)>)
    requires ts != [] && MatchToken(ts[0], c) == Some(m)
    requires IsGreedyMatch(ts, c, [(ts[0], m)] + r)
    ensures IsGreedyMatch(ts[1..], c[|m|..], r)
  {
    var full := [(ts[0], m)] + r;
    var rest := c[|m|..];
    forall k | 0 <= k < |r|
      ensures r[k].0 == ts[1..][k] && Offset(r, k) <= |rest| &&
              MatchToken(ts[1..][k], rest[Offset(r, k)..]) == Some(r[k].1)
    {
      OffsetShift(m, ts[0], r, c, k);
      assert full[k + 1] == r[k];
    }
    if |r| < |ts| - 1 {
      OffsetShift(m, ts[0], r, c, |r|);
    }
  }

  lemma GreedyHead(ts: seq<Token>, c: string, m: string, r: seq<(Token, string)>)
    requires ts != [] && MatchToken(ts[0], c) == Some(m)
    requires IsGreedyMatch(ts[1..], c[|m|..], r)
    ensures IsGreedyMatch(ts, c, [(ts[0], m)] + r)
  {
    var full := [(ts[0], m)] + r;
    assert Offset(full, 0) == 0 by { assert full[..0] == []; }
    assert c[0..] == c;
    forall k | 0 < k < |full|
      ensures full[k].0 == ts[k] && Offset(full, k) <= |c| &&
              MatchToken(ts[k], c[Offset(full, k)..]) == Some(full[k].1)
    {
      GreedyHeadAt(ts, c, m, r, k - 1);
    }
    if |full| < |ts| {
      OffsetShift(m, ts[0], r, c, |r|);
    }
  }

  /** One pair of `GreedyHead`: the k-th pair of the tail is the pair
      after it in the whole. */
  lemma GreedyHeadAt(ts: seq<Token>, c: string, m: string, r: seq<(Token, string)>, k: nat)
    requires ts != [] && MatchToken(ts[0], c) == Some(m)
    requires k < |r| && k + 1 < |ts|
    requires r[k].0 == ts[1..][k] && Offset(r, k) <= |c[|m|..]|
    requires MatchToken(ts[1..][k], c[|m|..][Offset(r, k)..]) == Some(r[k].1)
    ensures ([(ts[0], m)] + r)[k + 1].0 == ts[k + 1]
    ensures Offset([(ts[0], m)] + r, k + 1) <= |c|
    ensures MatchToken(ts[k + 1], c[Offset([(ts[0], m)] + r, k + 1)..]) ==
              Some(([(ts[0], m)] + r)[k + 1].1)
  {
    OffsetShift(m, ts[0], r, c, k);
    assert ([(ts[0], m)] + r)[k + 1] == r[k];
  }

  /** `MatchTokens` is a greedy match. */
  lemma {:induction false} MatchTokensGreedy(ts: seq<Token>, c: string)
    ensures IsGreedyMatch(ts, c, MatchTokens(ts, c))
    decreases |ts|
  {
    if ts != [] {
      match MatchToken(ts[0], c)
      case None =>
        assert c[0..] == c;
        assert Offset([], 0) == 0;
      case Some(m) =>
        MatchTokensGreedy(ts[1..], c[|m|..]);
        GreedyCons(ts, c, m, MatchTokens(ts[1..], c[|m|..]));
    }
  }

  /** A greedy match is unique: it is the result of `MatchTokens`. */
  lemma {:induction false} GreedyMatchUnique(ts: seq<Token>, c: string, r: seq<(Token, string)>)
    requires IsGreedyMatch(ts, c, r)
    ensures r == MatchTokens(ts, c)
    decreases |ts|
  {
    if ts != [] {
      assert c[0..] == c;
      if r == [] {
        assert Offset(r, 0) == 0;
      } else {
        assert Offset(r, 0) == 0 by { assert r[..0] == []; }
        var m := r[0].1;
        assert MatchToken(ts[0], c) == Some(m);
        assert r == [(ts[0], m)] + r[1..];
        GreedyCons(ts, c, m, r[1..]);
        GreedyMatchUnique(ts[1..], c[|m|..], r[1..]);
      }
    }
  }

  /** The i-th pair refers to the i-th token, so the matched tokens are a
      prefix of the pattern's tokens. */
  lemma {:induction false} MatchFollowsTokens(ts: seq<Token>, c: string)
    ensures |MatchTokens(ts, c)| <= |ts|
    ensures forall i :: 0 <= i < |MatchTokens(ts, c)| ==> MatchTokens(ts, c)[i].0 == ts[i]
    decreases |ts|
  {
    if ts != [] {
      match MatchToken(ts[0], c)
      case None =>
      case Some(m) =>
        MatchFollowsTokens(ts[1..], c[|m|..]);
    }
  }

  /** The matched texts, concatenated, are a prefix of the candidate, so
      together they never consume more than the candidate holds. */
  lemma {:induction false} MatchConsumesPrefix(ts: seq<Token>, c: string)
    ensures Consumed(MatchTokens(ts, c)) <= c
    ensures |Consumed(MatchTokens(ts, c))| <= |c|
    decreases |ts|
  {
    if ts != [] {
      match MatchToken(ts[0], c)
      case None =>
      case Some(m) =>
        var r := MatchTokens(ts[1..], c[|m|..]);
        MatchConsumesPrefix(ts[1..], c[|m|..]);
        assert ([(ts[0], m)] + r)[1..] == r;
        var x := Consumed(r);
        assert c == m + c[|m|..];
        assert c[..|m| + |x|] == m + x;
    }
  }

  lemma PrependNothing(r: Option<seq<Token>>)
    ensures Prepend([], r) == r
  {
    if r.Some? {
      assert [] + r.value == r.value;
    }
  }

  /** One step of the parsing loop moves one token from the parse of the
      remaining pattern to the tokens read so far. */
  lemma PrependStep(done: seq<Token>, s: string)
    requires s != [] && NextToken(s).Emit?
    ensures Prepend(done, ParseTokens(s)) ==
              Prepend(done + [NextToken(s).token], ParseTokens(s[NextToken(s).length..]))
  {
    match ParseTokens(s[NextToken(s).length..])
    case None =>
    case Some(tail) =>
      assert done + ([NextToken(s).token] + tail) == (done + [NextToken(s).token]) + tail;
  }

  /** A step that rejects makes the whole parse fail. */
  lemma RejectFails(done: seq<Token>, s: string)
    requires s != [] && NextToken(s).Reject?
    ensures Prepend(done, ParseTokens(s)) == None
  {
  }

  /** A token that matches adds one pair to the pairs matched so far. */
  lemma MatchTokensStep(ts: seq<Token>, i: nat, done: seq<(Token, string)>, c: string, m: string)
    requires i < |ts| && MatchToken(ts[i], c) == Some(m)
    ensures (done + [(ts[i], m)]) + MatchTokens(ts[i + 1..], c[|m|..]) == done + MatchTokens(ts[i..], c)
  {
    MatchTokensAt(ts, i, c);
  }

  /** A token that does not match ends the match. */
  lemma MatchTokensStop(ts: seq<Token>, i: nat, done: seq<(Token, string)>, c: string)
    requires i < |ts| && MatchToken(ts[i], c).None?
    ensures done + MatchTokens(ts[i..], c) == done
  {
    MatchTokensAt(ts, i, c);
  }

  /** One step of the matching loop. */
  lemma MatchTokensAt(ts: seq<Token>, i: nat, c: string)
    requires i < |ts|
    ensures MatchTokens(ts[i..], c) ==
              match MatchToken(ts[i], c)
              case None => []
              case Some(m) => [(ts[i], m)] + MatchTokens(ts[i + 1..], c[|m|..])
  {
    assert ts[i..][0] == ts[i] && ts[i..][1..] == ts[i + 1..];
  }

  // ---------------------------------------------------------------------
  // The object: the pattern, its tokens, and the best match count so far.

  /** `Matcher`: the pattern text, its tokens, and the largest number of
      tokens any call of `MatchString` has matched. */
  class Matcher {
    var text: string
    var tokens: seq<Token>
    var mostTokensMatched: nat

    /** The tokens are those of the pattern text. */
    ghost predicate Valid()
      reads this
    {
      ParseTokens(text) == Some(tokens)
    }

    /** The struct literal at the end of `new`. */
    constructor (text: string, tokens: seq<Token>)
      requires ParseTokens(text) == Some(tokens)
      ensures this.text == text && this.tokens == tokens && mostTokensMatched == 0
      ensures Valid()
    {
      this.text := text;
      this.tokens := tokens;
      mostTokensMatched := 0;
    }

    /** `Matcher::new`: scans the pattern left to right, one token per
        iteration, and fails as a whole on a group without `)` or on a `)`
        at the start of a token.  Two deviations from the source, both
        matching what its tests expect: the literal arm ends a run at the
        first `.` or `(` (or the end of the pattern), where line 82 searches
        for the four-character text `[.(]` and, when that is absent, loops
        forever; and a group's alternatives exclude the opening `(`, which
        lines 67-69 keep in the first alternative. */
    static method New(text: string) returns (m: Option<Matcher>)
      ensures m.None? <==> ParseTokens(text).None?
      ensures m.Some? ==>
                fresh(m.value) && m.value.Valid() &&
                m.value.text == text && m.value.tokens == ParseTokens(text).value &&
                m.value.mostTokensMatched == 0
    {
      var rest := text;
      var tokens: seq<Token> := [];
      PrependNothing(ParseTokens(text));
      while rest != []
        invariant ParseTokens(text) == Prepend(tokens, ParseTokens(rest))
        decreases |rest|
      {
        ghost var before, done := rest, tokens;
        if rest[0] == '.' {
          assert NextToken(before) == Emit(WildCard, 1);
          tokens := tokens + [WildCard];
          rest := rest[1..];
        } else if rest[0] == '(' {
          match FindFirst(rest, {')'}) {
          case None =>
            RejectFails(done, before);
            return None;
          case Some(close) =>
            assert NextToken(before) == Emit(OneOfText(Split(rest[1..close], '|')), close + 1);
            tokens := tokens + [OneOfText(Split(rest[1..close], '|'))];
            rest := rest[close + 1..];
          }
        } else if rest[0] == ')' {
          RejectFails(done, before);
          return None;
        } else {
          var n := LiteralLength(rest);
          assert NextToken(before) == Emit(RawText(rest[..n]), n);
          tokens := tokens + [RawText(rest[..n])];
          rest := rest[n..];
        }
        PrependStep(done, before);
      }
      assert tokens + [] == tokens;
      var matcher := new Matcher(text, tokens);
      return Some(matcher);
    }

    /** `match_string`: walks the tokens in order with a cursor into the
        candidate that only moves forward, stops at the first token that
        does not match, and raises `mostTokensMatched` to the number of
        pairs when that is larger.  Only `mostTokensMatched` changes, so
        `Valid()` is kept.  At
        line 107 the source panics when a wildcard meets an exhausted
        candidate; here the match stops there, as it does for a literal or
        group that does not match (lines 122 and 131). */
    method MatchString(candidate: string) returns (matched: seq<(Token, string)>)
      modifies this`mostTokensMatched
      ensures matched == MatchTokens(tokens, candidate)
      ensures mostTokensMatched ==
                if |matched| > old(mostTokensMatched) then |matched| else old(mostTokensMatched)
      ensures text == old(text) && tokens == old(tokens)
    {
      matched := [];
      var rest := candidate;
      var i := 0;
      while i < |tokens|
        invariant i <= |tokens|
        invariant matched + MatchTokens(tokens[i..], rest) == MatchTokens(tokens, candidate)
        invariant mostTokensMatched == old(mostTokensMatched)
        decreases |tokens| - i
      {
        var token := tokens[i];
        ghost var done, before := matched, rest;
        ghost var piece: string;
        match token {
        case WildCard =>
          if rest == [] {
            MatchTokensStop(tokens, i, done, rest);
            break;
          }
          piece := rest[..1];
          matched := matched + [(token, rest[..1])];
          rest := rest[1..];
        case OneOfText(alternatives) =>
          match FirstPrefix(alternatives, rest) {
          case None =>
            MatchTokensStop(tokens, i, done, rest);
            break;
          case Some(k) =>
            // The slice is taken by byte length (line 118) and the cursor
            // advanced by character count (line 119); both are |alternatives[k]| here.
            assert rest[..|alternatives[k]|] == alternatives[k];
            piece := alternatives[k];
            matched := matched + [(token, rest[..|alternatives[k]|])];
            rest := rest[|alternatives[k]|..];
          }
        case RawText(value) =>
          if !(value <= rest) {
            MatchTokensStop(tokens, i, done, rest);
            break;
          }
          assert rest[..|value|] == value;
          piece := value;
          matched := matched + [(token, rest[..|value|])];
          rest := rest[|value|..];
        }
        assert MatchToken(tokens[i], before) == Some(piece);
        MatchTokensStep(tokens, i, done, before, piece);
        i := i + 1;
      }
      if |matched| > mostTokensMatched {
        mostTokensMatched := |matched|;
      }
    }
  }

  // ---------------------------------------------------------------------
  // The scenarios of the source's tests.

  const TestPattern: string := "abc(d|e|f)."
  const TestTokens: seq<Token> := [RawText("abc"), OneOfText(["d", "e", "f"]), WildCard]

  lemma TestTokensWellFormed()
    ensures WellFormed(TestTokens)
  {
    assert WellFormedToken(TestTokens[0]) by {
      assert "abc"[0] == 'a' && "abc"[1] == 'b' && "abc"[2] == 'c';
    }
    assert WellFormed(TestTokens[2..]);
    assert TestTokens[1..][1..] == TestTokens[2..];
    assert WellFormed(TestTokens[1..]);
  }

  lemma RenderTestTokens()
    ensures Render(TestTokens) == TestPattern
  {
    assert Render(TestTokens[2..]) == ".";
    assert Render(TestTokens[1..]) == "(d|e|f)." by {
      assert Join(["d", "e", "f"], '|') == "d|e|f";
      RenderCons(TestTokens[1], TestTokens[2..]);
      assert TestTokens[1..] == [TestTokens[1]] + TestTokens[2..];
    }
    RenderCons(TestTokens[0], TestTokens[1..]);
    assert TestTokens == [TestTokens[0]] + TestTokens[1..];
    assert "abc" + "(d|e|f)." == TestPattern;
  }

  /** The test pattern parses into a literal, a group of three and a wildcard. */
  lemma ParseTestPattern()
    ensures ParseTokens(TestPattern) == Some(TestTokens)
  {
    TestTokensWellFormed();
    RenderTestTokens();
    RenderParse(TestTokens);
  }

  /** The broken test pattern, whose group is never closed, does not parse. */
  lemma ParseBrokenPattern()
    ensures ParseTokens("abc(d|e|f.") == None
  {
    UnclosedGroupFails("abc(d|e|f.", 3);
  }

  /** Candidate "abcge": the literal matches, the group does not. */
  lemma MatchTestShortCandidate()
    ensures MatchTokens(TestTokens, "abcge") == [(RawText("abc"), "abc")]
  {
    var group := OneOfText(["d", "e", "f"]);
    assert "abc" <= "abcge";
    assert "abcge"[3..] == "ge";
    assert "ge"[0] == 'g';
    assert FirstPrefix(["d", "e", "f"], "ge") == None;
    MatchTokensAt(TestTokens, 0, "abcge");
    MatchTokensAt(TestTokens, 1, "ge");
  }

  /** Candidate "abcde": all three tokens match, the group with its first
      alternative and the wildcard with the `e`. */
  lemma MatchTestFullCandidate()
    ensures MatchTokens(TestTokens, "abcde") ==
              [(RawText("abc"), "abc"), (OneOfText(["d", "e", "f"]), "d"), (WildCard, "e")]
  {
    assert "abc" <= "abcde";
    assert "abcde"[3..] == "de";
    assert "d" <= "de";
    assert FirstPrefix(["d", "e", "f"], "de") == Some(0);
    assert "de"[1..] == "e";
    assert "e"[..1] == "e" && "e"[1..] == "";
    MatchTokensAt(TestTokens, 0, "abcde");
    MatchTokensAt(TestTokens, 1, "de");
    MatchTokensAt(TestTokens, 2, "e");
    assert TestTokens[3..] == [];
  }

  /** An empty alternative always matches, consuming nothing. */
  lemma MatchEmptyAlternative()
    ensures ParseTokens("(a|)") == Some([OneOfText(["a", ""])])
    ensures MatchTokens([OneOfText(["a", ""])], "") == [(OneOfText(["a", ""]), "")]
  {
    var ts := [OneOfText(["a", ""])];
    assert WellFormed(ts[1..]);
    assert WellFormed(ts);
    RenderParse(ts);
    assert Join(["a", ""], '|') == "a|";
    assert Render(ts) == "(a|)" by {
      RenderCons(ts[0], []);
      assert ts == [ts[0]] + [];
    }
    assert !("a" <= "");
    assert FirstPrefix(["a", ""], "") == Some(1);
  }

  /** A wildcard consumes one whole character, here one outside the
      Basic Multilingual Plane. */
  lemma MatchWildCardWide()
    ensures MatchTokens([WildCard], "\U{1F4AA}x") == [(WildCard, "\U{1F4AA}")]
  {
    assert "\U{1F4AA}x"[..1] == "\U{1F4AA}";
  }

  /** The test at lines 152-179, stated on the model: a fresh matcher reports 0,
      then 1 pair and a count of 1 for "abcge", then 3 pairs and a count of
      3 for "abcde". */
  method SimpleTest() returns (initial: nat, first: seq<(Token, string)>, firstCount: nat,
                               second: seq<(Token, string)>, secondCount: nat)
    ensures initial == 0
    ensures first == [(RawText("abc"), "abc")] && firstCount == 1
    ensures second == [(RawText("abc"), "abc"), (OneOfText(["d", "e", "f"]), "d"), (WildCard, "e")]
    ensures secondCount == 3
  {
    ParseTestPattern();
    MatchTestShortCandidate();
    MatchTestFullCandidate();
    var m := Matcher.New(TestPattern);
    var matcher := m.value;
    initial := matcher.mostTokensMatched;
    first := matcher.MatchString("abcge");
    firstCount := matcher.mostTokensMatched;
    second := matcher.MatchString("abcde");
    secondCount := matcher.mostTokensMatched;
  }

  /** The test at lines 182-186: an unclosed group gives no matcher. */
  method BrokenMatcherTest() returns (m: Option<Matcher>)
    ensures m.None?
  {
    ParseBrokenPattern();
    m := Matcher.New("abc(d|e|f.");
  }

  // ---------------------------------------------------------------------
  // The source as written, where it departs from what its tests expect.

  /** `s.find(pat)` for a text pattern: the first index where `pat` occurs. */
  function FindText(s: string, pat: string): (r: Option<nat>)
    ensures r.Some? ==> r.value <= |s| && pat <= s[r.value..]
    decreases |s|
  {
    if pat <= s then Some(0)
    else if s == [] then None
    else
      match FindText(s[1..], pat)
      case None => None
      case Some(i) => Some(i + 1)
  }

  /** The reported index is the first occurrence of `pat`, and `None`
      means that `pat` occurs nowhere in `s`. */
  lemma {:induction false} FindTextMeaning(s: string, pat: string)
    ensures FindText(s, pat).Some? ==>
              forall j :: 0 <= j < FindText(s, pat).value ==> !(pat <= s[j..])
    ensures FindText(s, pat).None? ==> forall j :: 0 <= j <= |s| ==> !(pat <= s[j..])
    decreases |s|
  {
    if !(pat <= s) && s != [] {
      FindTextMeaning(s[1..], pat);
      assert forall j :: 1 <= j <= |s| ==> s[j..] == s[1..][j - 1..];
    }
  }

  /** The literal arm at lines 82-86 as written: the token it pushes, if
      any, and the new `text_under_analysis`.  The argument of `find` is a
      plain string, so it looks for the four characters `[.(]`. */
  function LiteralArmAsWritten(rest: string): (r: (Option<Token>, string))
    ensures |r.1| <= |rest| && r.1 == rest[|rest| - |r.1|..]
    ensures r.0.None? ==> r.1 == rest
  {
    match FindText(rest, "[.(]")
    case None => (None, rest)
    case Some(i) => (Some(RawText(rest[..i])), rest[i..])
  }

  lemma {:induction false} NoBracketNoText(s: string)
    requires '[' !in s
    ensures FindText(s, "[.(]") == None
    decreases |s|
  {
    if s != [] {
      assert s[0] in s;
      NoBracketNoText(s[1..]);
    }
  }

  /** Without a `[` in the remaining pattern the literal arm as written
      pushes nothing and leaves the remaining pattern as it was, so the loop
      at line 57 repeats forever; the test pattern is such a case. */
  lemma LiteralArmStalls(rest: string)
    requires '[' !in rest
    ensures LiteralArmAsWritten(rest) == (None, rest)
  {
    NoBracketNoText(rest);
  }

  /** Where `[.(]` does occur, the literal arm as written pushes the text
      before it and leaves a remaining pattern that starts with `[`, an
      ordinary character, so the next iteration is this arm again. */
  lemma LiteralArmSplitsAtBracket(rest: string)
    requires FindText(rest, "[.(]").Some?
    ensures LiteralArmAsWritten(rest).0.Some?
    ensures "[.(]" <= LiteralArmAsWritten(rest).1
  {
  }

  /** On a remaining pattern that starts with `[.(]` the literal arm as
      written pushes `RawText("")` and leaves the pattern as it was, so the
      loop at line 57 pushes empty literals forever. */
  lemma LiteralArmRepeats(rest: string)
    requires "[.(]" <= rest
    ensures LiteralArmAsWritten(rest) == (Some(RawText("")), rest)
  {
    assert rest[..0] == "" && rest[0..] == rest;
  }

  /** The group arm at lines 67-73 as written: `find` runs on text that
      still starts with `(`, so the first alternative keeps the `(`. */
  function GroupArmAsWritten(rest: string): (r: Option<(seq<string>, string)>)
    requires rest != [] && rest[0] == '('
    ensures r.Some? ==> |r.value.0| >= 1 && r.value.0[0] != [] && r.value.0[0][0] == '('
  {
    match FindFirst(rest, {')'})
    case None => None
    case Some(close) =>
      assert rest[..close][0] == '(' && '|' != '(';
      assert FindFirst(rest[..close], {'|'}) != Some(0);
      Some((Split(rest[..close], '|'), rest[close + 1..]))
  }

  /** On the test pattern's group the code as written gives the
      alternatives "(d", "e", "f", where the test expects "d", "e", "f". */
  lemma GroupArmKeepsParen()
    ensures GroupArmAsWritten("(d|e|f).") == Some((["(d", "e", "f"], "."))
  {
    FindFirstAt("(d|e|f).", {')'}, 6);
    assert "(d|e|f)."[..6] == "(d|e|f";
    SplitParenGroup();
    assert "(d|e|f)."[7..] == ".";
  }

  lemma SplitParenGroup()
    ensures Split("(d|e|f", '|') == ["(d", "e", "f"]
  {
    FindFirstAt("(d|e|f", {'|'}, 2);
    assert "(d|e|f"[..2] == "(d" && "(d|e|f"[3..] == "e|f";
    FindFirstAt("e|f", {'|'}, 1);
    assert "e|f"[..1] == "e" && "e|f"[2..] == "f";
    assert FindFirst("f", {'|'}) == None;
  }

  /** The wildcard arm at lines 107-110 as written: `unwrap` on the first
      character, which panics when none is left; the precondition is that
      panic. */
  function WildCardArmAsWritten(rest: string): (r: (string, string))
    requires rest != []
    ensures r.0 + r.1 == rest && |r.0| == 1
  {
    (rest[..1], rest[1..])
  }

  /** In the model, the first two tokens of the test pattern consume all of
      "abcd", so the wildcard is reached with nothing left.  The source
      would reach its wildcard arm there, and the precondition of
      `WildCardArmAsWritten` would fail, only once lines 82 and 67-69 are
      both fixed. */
  lemma WildCardReachesEnd()
    ensures Consumed(MatchTokens(TestTokens[..2], "abcd")) == "abcd"
  {
    var two := TestTokens[..2];
    assert "abc" <= "abcd";
    assert "abcd"[3..] == "d";
    assert "d" <= "d";
    assert FirstPrefix(["d", "e", "f"], "d") == Some(0);
    assert "d"[1..] == "";
    MatchTokensAt(two, 0, "abcd");
    MatchTokensAt(two, 1, "d");
    assert two[2..] == [];
    var r := [(RawText("abc"), "abc"), (OneOfText(["d", "e", "f"]), "d")];
    assert MatchTokens(two, "abcd") == r;
    assert r[1..][1..] == [];
    assert Consumed(r) == "abc" + ("d" + "");
  }

  /** The model instead stops at the wildcard and returns the two pairs
      matched before it. */
  lemma MatchTestExhaustedCandidate()
    ensures MatchTokens(TestTokens, "abcd") ==
              [(RawText("abc"), "abc"), (OneOfText(["d", "e", "f"]), "d")]
  {
    assert "abc" <= "abcd";
    assert "abcd"[3..] == "d";
    assert "d" <= "d";
    assert FirstPrefix(["d", "e", "f"], "d") == Some(0);
    assert "d"[1..] == "";
    MatchTokensAt(TestTokens, 0, "abcd");
    MatchTokensAt(TestTokens, 1, "d");
    MatchTokensAt(TestTokens, 2, "");
  }

  /** The pattern `.` uses only the wildcard arm of the parser (lines
      62-64), which the code as written shares with the model, so the
      source builds this matcher; matching it against the empty candidate
      then reaches the wildcard arm with nothing left, where the
      precondition of `WildCardArmAsWritten` fails and the source panics. */
  lemma WildCardOnlyPattern()
    ensures ParseTokens(".") == Some([WildCard])
  {
    assert "."[0] == '.' && "."[1..] == "";
    assert NextToken(".") == Emit(WildCard, 1);
    assert ParseTokens("") == Some([]);
    assert [WildCard] + [] == [WildCard];
  }

  /** The model instead stops: on the empty candidate the wildcard does
      not match and the result is empty. */
  lemma MatchWildCardOnEmpty()
    ensures MatchToken(WildCard, "").None?
    ensures MatchTokens(ParseTokens(".").value, "") == []
  {
    WildCardOnlyPattern();
  }
}
