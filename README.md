# lifetimekata pattern matcher and word iterator, in Dafny

This project models two pieces of the lifetimekata exercises.

**The pattern matcher of `exercises/08_finale`.** A pattern is written with three kinds of token:
- `.` is a wildcard;
- `(a|b|c)` is a group of alternatives;
- any other run of characters is literal text.

`Matcher::new` scans the pattern once, left to right, and emits one token per step. A `(` with no later `)` makes the whole parse fail. So does a `)` at the start of a token. `match_string` walks the tokens over a candidate string with a cursor that only moves forward:
- a literal must appear verbatim;
- a group takes its first alternative, in written order, that the remaining text starts with;
- a wildcard takes exactly one character.

The match stops at the first token that does not match and returns the (token, consumed text) pairs so far. It then raises the matcher's `most_tokens_matched` counter to the number of pairs if that is larger.

**The word iterator of `exercises/06_lifetimes_on_impls`.** This is a cursor over a string. `next_word` returns the text up to the next space and moves the cursor past that space. The exercise copy and the solution copy hold the same code, and one model serves both.

Files:
- `strings.dfy` (module `Strings`) has the library operations the code uses: `str::find` as `FindFirst`, `str::split` as `Split`, and the inverse `Join`. A prefix test (`starts_with`) is Dafny's `<=` on sequences.
- `matcher.dfy` (module `PatternMatcher`) has the tokens, the parser, the matcher, the `Matcher` class and the tests' scenarios. It also has the code as written where it departs from its tests (see Findings).
- `word_iterator.dfy` (module `WordIterators`) has the `WordIterator` class and its specification.

Modelling choices:
- Strings are `seq<char>` of Unicode scalar values. One character is one element, so the source's byte lengths and character counts are the same number here.
- The state the source updates in place lives in classes. `Matcher` has the fields `text`, `tokens` and `mostTokensMatched`. `WordIterator` has `position` and `text`; the source calls this field `string`, which is a reserved word in Dafny.
- Each method is proved against a function: `Matcher.New` against `ParseTokens`, `Matcher.MatchString` against `MatchTokens`, and `WordIterator.NextWord` against `Scan`. The lemmas are about those functions.
- The code rejects a `)` only when it starts a token; inside a literal run (`ab)c`) it is ordinary text. The model follows the code (`StrayCloseFails`).

## Model

| member | source | states |
|---|---|---|
| PatternMatcher.Token | exercises/08_finale/exercise/src/main.rs:3-14 | `MatcherToken`: literal text, a list of alternatives, or a wildcard |
| PatternMatcher.ParseTokens | exercises/08_finale/exercise/src/main.rs:57-89 | the whole parsing loop as a function: the empty pattern gives no tokens, and a successful parse has at most one token per pattern character (each step consumes at least one); `ParseRender`, `RenderParse` and `ParseWellFormed` below characterise it |
| PatternMatcher.MatchTokens | exercises/08_finale/exercise/src/main.rs:104-135 | the matching loop as a function; `MatchTokensGreedy` and `GreedyMatchUnique` below characterise it exactly as the greedy match `IsGreedyMatch` |
| PatternMatcher.NextToken | exercises/08_finale/exercise/src/main.rs:58-88 | one iteration of the parsing loop either rejects the pattern or emits one token and advances by at least one character, never past the end |
| PatternMatcher.LiteralLength | exercises/08_finale/exercise/src/main.rs:81-86 | a literal run never runs past the pattern, and when it ends before the end of the pattern it ends at a `.` or `(` |
| PatternMatcher.LiteralLengthMeaning | exercises/08_finale/exercise/src/main.rs:81-86 | a literal run is the longest prefix with no `.` or `(`: no character before the cut is one, and the cut is at one or at the end |
| PatternMatcher.Matcher.New | exercises/08_finale/exercise/src/main.rs:53-95 | returns `None` exactly when the pattern does not parse; otherwise a fresh matcher whose `text` is the pattern, whose tokens are its parse, and whose counter is 0 |
| PatternMatcher.Matcher.constructor | exercises/08_finale/exercise/src/main.rs:90-94 | the struct literal stores the text and the tokens and sets `most_tokens_matched` to 0; given tokens that are the parse of the text, the new matcher satisfies `Valid()` |
| PatternMatcher.ParseRender | exercises/08_finale/exercise/src/main.rs:57-89 | round trip: rendering the tokens of a successful parse (`RawText s` as `s`, a group as `(` + alternatives joined by `\|` + `)`, a wildcard as `.`) reproduces the pattern exactly |
| PatternMatcher.ParseWellFormed | exercises/08_finale/exercise/src/main.rs:62-86 | every parse result is well formed: literals are non-empty, hold no `.` or `(` and do not start with `)`; groups have at least one alternative, and none holds `\|` or `)`; no two literals are adjacent |
| PatternMatcher.RenderParse | exercises/08_finale/exercise/src/main.rs:57-89 | every well-formed token sequence is parsed back from its rendering, so parsing is a bijection between valid patterns and well-formed token sequences, and re-parsing a rendered parse gives the same tokens |
| PatternMatcher.UnclosedGroupFails | exercises/08_finale/exercise/src/main.rs:66-77 | a `(` with no `)` anywhere after it makes the whole parse fail, wherever it occurs; no partial matcher is produced |
| PatternMatcher.StrayCloseFails | exercises/08_finale/exercise/src/main.rs:78-80 | a `)` at a token start fails the whole parse, whether at the start of the pattern or after any prefix that ends with a group or a wildcard |
| PatternMatcher.ParseAppend | exercises/08_finale/exercise/src/main.rs:57-58 | the scan has no backtracking: after a prefix that ends at a token start, the rest is parsed as if it stood alone |
| PatternMatcher.ParseGroup | exercises/08_finale/exercise/src/main.rs:67-73 | a group's alternatives are the text strictly between the `(` and the first `)` after it, split on `\|` in written order; parsing resumes just past that `)` |
| PatternMatcher.FirstPrefix | exercises/08_finale/exercise/src/main.rs:113-116 | finds the first alternative in list order that the remaining text starts with, and `None` only when no alternative is a prefix |
| PatternMatcher.MatchToken | exercises/08_finale/exercise/src/main.rs:105-133 | what a token consumes is always a prefix of the remaining candidate |
| PatternMatcher.MatchTokenMeaning | exercises/08_finale/exercise/src/main.rs:106-133 | a literal matches exactly its text; a group matches the first alternative that is a prefix, and matches if and only if some alternative is; a wildcard matches exactly one character, if and only if one is left |
| PatternMatcher.MatchTokensGreedy | exercises/08_finale/exercise/src/main.rs:104-135 | the match result is greedy: each pair's token is the next token, its text is what that token consumes where the previous pairs end, and a result shorter than the tokens stops at a token that does not match there |
| PatternMatcher.GreedyMatchUnique | exercises/08_finale/exercise/src/main.rs:104-135 | any sequence of pairs that is greedy in that sense is the match result, so the characterisation is exact |
| PatternMatcher.MatchFollowsTokens | exercises/08_finale/exercise/src/main.rs:104-109 | the i-th pair refers to the i-th token, and there are at most as many pairs as tokens, so the matched tokens are a prefix of the pattern's tokens |
| PatternMatcher.MatchConsumesPrefix | exercises/08_finale/exercise/src/main.rs:106-133 | the matched texts, concatenated, are a prefix of the candidate, so together they are never longer than the candidate |
| PatternMatcher.Matcher.MatchString | exercises/08_finale/exercise/src/main.rs:100-140 | returns the greedy match of the tokens on the candidate; after the call the counter is the larger of its old value and the number of pairs, so it never decreases; text and tokens are unchanged |
| PatternMatcher.ParseTestPattern | exercises/08_finale/exercise/src/main.rs:152-154 | `abc(d\|e\|f).` parses to `RawText("abc")`, `OneOfText(["d","e","f"])`, `WildCard` |
| PatternMatcher.ParseBrokenPattern | exercises/08_finale/exercise/src/main.rs:182-186 | `abc(d\|e\|f.` does not parse |
| PatternMatcher.MatchTestShortCandidate | exercises/08_finale/exercise/src/main.rs:158-163 | on `abcge` only the literal matches: one pair `(RawText("abc"), "abc")` |
| PatternMatcher.MatchTestFullCandidate | exercises/08_finale/exercise/src/main.rs:165-178 | on `abcde` all three tokens match, consuming `abc`, `d` and `e` |
| PatternMatcher.MatchEmptyAlternative | exercises/08_finale/exercise/src/main.rs:70-71 | `(a\|)` parses to one group with alternatives `a` and the empty string, and on the empty candidate it matches the empty alternative, consuming nothing |
| PatternMatcher.MatchWildCardWide | exercises/08_finale/exercise/src/main.rs:106-110 | a wildcard consumes one whole character, here one outside the Basic Multilingual Plane |
| PatternMatcher.SimpleTest | exercises/08_finale/exercise/src/main.rs:152-179 | the test's whole sequence on a `Matcher`: the counter starts at 0, `abcge` gives 1 pair and then a count of 1, and `abcde` gives 3 pairs and then a count of 3 |
| PatternMatcher.BrokenMatcherTest | exercises/08_finale/exercise/src/main.rs:182-186 | `Matcher.New` on the unclosed pattern returns `None` |
| PatternMatcher.FindText | exercises/08_finale/exercise/src/main.rs:82 | `find` with a text argument: a reported index is where that text occurs |
| PatternMatcher.FindTextMeaning | exercises/08_finale/exercise/src/main.rs:82 | the reported index is the first occurrence of the text, and `None` means it occurs nowhere |
| PatternMatcher.LiteralArmAsWritten | exercises/08_finale/exercise/src/main.rs:81-86 | the literal arm as written leaves a suffix of the remaining pattern, and leaves all of it when it pushes no token |
| PatternMatcher.LiteralArmStalls | exercises/08_finale/exercise/src/main.rs:57-86 | as written, without a `[` in the remaining pattern the literal arm pushes nothing and does not advance, so the loop never ends |
| PatternMatcher.LiteralArmSplitsAtBracket | exercises/08_finale/exercise/src/main.rs:82-85 | as written, where `[.(]` does occur the arm pushes the text before it and leaves a remaining pattern starting with `[.(]` |
| PatternMatcher.LiteralArmRepeats | exercises/08_finale/exercise/src/main.rs:57-86 | as written, on a remaining pattern starting with `[.(]` the arm pushes `RawText("")` and leaves it unchanged, so the loop never ends there either |
| PatternMatcher.GroupArmAsWritten | exercises/08_finale/exercise/src/main.rs:66-73 | as written, the first alternative of a group always begins with `(` |
| PatternMatcher.GroupArmKeepsParen | exercises/08_finale/exercise/src/main.rs:67-73 | as written, the group of the test pattern gives the alternatives `(d`, `e`, `f` |
| PatternMatcher.WildCardArmAsWritten | exercises/08_finale/exercise/src/main.rs:106-111 | as written, the wildcard arm needs a character to be left and splits off exactly one |
| PatternMatcher.WildCardReachesEnd | exercises/08_finale/exercise/src/main.rs:104-111 | in the model, the first two tokens of the test pattern consume all of `abcd`, so the wildcard is reached with nothing left (the source's wildcard arm would meet this only once lines 82 and 67-69 are both fixed) |
| PatternMatcher.MatchTestExhaustedCandidate | exercises/08_finale/exercise/src/main.rs:104-135 | the model returns the two pairs matched before the wildcard for that candidate |
| PatternMatcher.WildCardOnlyPattern | exercises/08_finale/exercise/src/main.rs:62-64 | the pattern `.` parses to the single wildcard through the one parser arm that the code as written shares with the model, so the source builds that matcher |
| PatternMatcher.MatchWildCardOnEmpty | exercises/08_finale/exercise/src/main.rs:106-111 | on the empty candidate the wildcard does not match and the match of the pattern `.` is empty, where the source panics |
| Strings.FindFirst | exercises/08_finale/exercise/src/main.rs:67 | `find` of a character: a reported index is in range and holds that character |
| Strings.FindFirstMeaning | exercises/08_finale/exercise/src/main.rs:67 | the reported index is the first occurrence (no earlier character matches), and `None` means the character does not occur |
| Strings.FindFirstAt | exercises/06_lifetimes_on_impls/exercise/src/lib.rs:20 | conversely, the first index that holds the character is the one reported |
| Strings.Split | exercises/08_finale/exercise/src/main.rs:71 | `split('\|')` always gives at least one piece |
| Strings.SplitPieces | exercises/08_finale/exercise/src/main.rs:71 | no piece of a split contains the separator |
| Strings.JoinSplit | exercises/08_finale/exercise/src/main.rs:71 | joining the pieces of a split with the separator gives back the text |
| Strings.SplitJoin | exercises/08_finale/exercise/src/main.rs:70-72 | splitting a join of separator-free pieces gives back the pieces, empty ones included |
| Strings.SplitCount | exercises/08_finale/exercise/src/main.rs:71 | a split has one piece more than the text has separators, so empty alternatives are kept |
| WordIterators.Scan | exercises/06_lifetimes_on_impls/exercise/src/lib.rs:17-27 | `next_word` gives `None` exactly when nothing remains, and then leaves the cursor alone; otherwise it gives a space-free prefix of the remaining text that ends at a space or at the end of the text, and moves the cursor by its length plus one |
| WordIterators.WordIterator.constructor | exercises/06_lifetimes_on_impls/exercise/src/lib.rs:10-15 | `new` stores the string and sets the position to 0 |
| WordIterators.WordIterator.NextWord | exercises/06_lifetimes_on_impls/solutions/src/lib.rs:19-28 | the result and the new position are those of `Scan` at the old position; only the position changes, and it stays at most one past the end |
| WordIterators.ScanAtSpace | exercises/06_lifetimes_on_impls/solutions/src/lib.rs:21-24 | a space at the cursor gives the empty word and moves one step, so two spaces in a row yield `Some("")` |
| WordIterators.LastWordOverruns | exercises/06_lifetimes_on_impls/exercise/src/lib.rs:19-22 | a last word with no trailing space is the whole remaining text, and it moves the cursor to one past the end, where the next call cannot be made |
| WordIterators.WordsRebuildText | exercises/06_lifetimes_on_impls/solutions/src/lib.rs:18-28 | the words given by successive calls contain no space and, joined with spaces, rebuild the text from the cursor on (plus a final space if the text ends with one) |
| WordIterators.ScanTestText | exercises/06_lifetimes_on_impls/exercise/src/lib.rs:36-40 | on the test text the first call gives `Twas` and the cursor 5, and the second gives `brillig,` and the cursor 14 |
| WordIterators.TestMain | exercises/06_lifetimes_on_impls/exercise/src/lib.rs:35-41 | a fresh iterator over the test text returns `Twas` and then `brillig,` |

## Left out

- Lifetimes, borrowing and the `#[require_lifetimes]` attribute: they are compile-time checks with no run-time behaviour. Tokens and match results hold their text by value instead of borrowing it from the pattern or the candidate.
- `main`, which is `unimplemented!()`, has no behaviour to model.
- The STATE MACHINE comment in the matcher file describes rules the code does not implement, so it is not modelled.
- The `value.is_empty()` arm of the parser's `match` cannot be reached, because the loop condition excludes it.
- UTF-8 encoding: strings are sequences of scalar values. The source advances the cursor after a group by the alternative's character count but slices by its byte length (lines 117-119). The two are equal here. For a non-ASCII alternative they differ in the source, and that case is not modelled.
- `usize` overflow is not modelled. The counter and the cursor are `nat`, and both are bounded by the lengths involved.
- The `Debug`/`PartialEq` derives and the test harness: Dafny datatype equality replaces the derived equality.
- PatternMatcher.Matcher.MatchString: when a wildcard meets an exhausted candidate, the source panics (line 107). The model stops the match there instead, as the source does for a literal or group that does not match (lines 122 and 131).
- PatternMatcher.Matcher.New: the literal run and the group's alternatives follow what the source's tests expect, not the code as written (see Findings).
- WordIterators.WordIterator.NextWord: a call with the cursor past the end panics in the source (the slice at lib.rs line 19 or 20). The model makes `position <= |text|` a precondition, and `LastWordOverruns` shows when a caller cannot meet it.

## Findings

| source | as written | input that shows it | evidently intended | confidence | as-written member | corrected member |
|---|---|---|---|---|---|---|
| exercises/08_finale/exercise/src/main.rs:82 | `find(r"[.(]")` searches for the four-character text `[.(]`. When that is absent, nothing is pushed and the remaining pattern does not advance; when it is present, the arm splits there, the next iteration starts at `[` (this arm again) and pushes `RawText("")` without advancing. Either way the loop at line 57 never ends once a token starts with an ordinary character | pattern `abc(d\|e\|f).` (the test at line 153) | a literal run ends at the first `.` or `(`, or at the end of the pattern | not executed | PatternMatcher.LiteralArmStalls | PatternMatcher.LiteralLengthMeaning |
| exercises/08_finale/exercise/src/main.rs:67-69 | the close index is found on text that still starts with `(`, and `split_at` keeps the `(` in the first alternative | pattern `(d\|e\|f).` gives the alternatives `(d`, `e`, `f` (a group at the start of the pattern reaches this arm without going through line 82) | the alternatives are the text strictly between `(` and the first `)`, as the test at line 173 expects | not executed | PatternMatcher.GroupArmKeepsParen | PatternMatcher.ParseGroup |
| exercises/08_finale/exercise/src/main.rs:107 | `unwrap()` on the next character panics when the candidate is used up | pattern `.` (which `new` builds as written) on the empty candidate | the wildcard fails to match and the match stops, returning the pairs so far | not executed | PatternMatcher.WildCardOnlyPattern | PatternMatcher.MatchWildCardOnEmpty |
