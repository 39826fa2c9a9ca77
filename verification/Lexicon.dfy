/**
 Lexical features of a text.  Finding tokens and splitting at separators both cut a text
 into the maximal runs of a character class.
 */
module Lexicon {
  import opened Prelude

  predicate IsTokenChar(c: char) {
    'a' <= c <= 'z' || 'A' <= c <= 'Z' || '0' <= c <= '9' || c == '_' || c == '-'
  }

  predicate IsFragmentChar(c: char) {
    c != '-' && c != '_'
  }

  const TOKEN_CLASS: char -> bool := c => IsTokenChar(c)
  const FRAGMENT_CLASS: char -> bool := c => IsFragmentChar(c)

  /** Where the run that starts at `i` ends. */
  function RunEnd(s: string, inRun: char -> bool, i: nat): (j: nat)
    requires i <= |s|
    ensures i <= j <= |s|
    ensures forall k :: i <= k < j ==> inRun(s[k])
    ensures j < |s| ==> !inRun(s[j])
    decreases |s| - i
  {
    if i == |s| || !inRun(s[i]) then i else RunEnd(s, inRun, i + 1)
  }

  /** The runs from position `i` on, left to right. */
  function RunsFrom(s: string, inRun: char -> bool, i: nat): seq<string>
    requires i <= |s|
    decreases |s| - i
  {
    if i == |s| then []
    else if !inRun(s[i]) then RunsFrom(s, inRun, i + 1)
    else
      var j := RunEnd(s, inRun, i + 1);
      [s[i..j]] + RunsFrom(s, inRun, j)
  }

  /** `s[i..j]` is a run that can be extended on neither side. */
  ghost predicate MaximalRun(s: string, inRun: char -> bool, i: int, j: int) {
    && 0 <= i < j <= |s|
    && (forall k :: i <= k < j ==> inRun(s[k]))
    && (i > 0 ==> !inRun(s[i - 1]))
    && (j < |s| ==> !inRun(s[j]))
  }

  /** No run straddles position `i`. */
  ghost predicate Boundary(s: string, inRun: char -> bool, i: nat) {
    i <= |s| && (0 < i < |s| ==> !inRun(s[i - 1]) || !inRun(s[i]))
  }

  /** The scan returns exactly the maximal runs. */
  lemma {:induction false} RunsAreMaximal(s: string, inRun: char -> bool, i: nat, part: string)
    requires Boundary(s, inRun, i)
    ensures part in RunsFrom(s, inRun, i) <==>
            exists a, b :: i <= a && MaximalRun(s, inRun, a, b) && part == s[a..b]
    decreases |s| - i
  {
    if i == |s| {
    } else if !inRun(s[i]) {
      RunsAreMaximal(s, inRun, i + 1, part);
      forall a, b | MaximalRun(s, inRun, a, b) ensures a != i {
        assert inRun(s[a]);
      }
    } else {
      var j := RunEnd(s, inRun, i + 1);
      RunsAreMaximal(s, inRun, j, part);
      assert MaximalRun(s, inRun, i, j);
      forall a, b | i <= a && MaximalRun(s, inRun, a, b) ensures (a == i && b == j) || j <= a {
        MaximalRunsApart(s, inRun, i, j, a, b);
      }
    }
  }

  lemma MaximalRunsApart(s: string, inRun: char -> bool, i: int, j: int, a: int, b: int)
    requires MaximalRun(s, inRun, i, j) && MaximalRun(s, inRun, a, b) && i <= a
    ensures (a == i && b == j) || j <= a
  {
  }

  function TotalLength(parts: seq<string>): nat {
    if parts == [] then 0 else |parts[0]| + 1 + TotalLength(parts[1..])
  }

  /** Separated runs leave room for one separator after each of them but the last. */
  lemma {:induction false} RunsFit(s: string, inRun: char -> bool, i: nat)
    requires i <= |s|
    ensures TotalLength(RunsFrom(s, inRun, i)) <= |s| - i + 1
    decreases |s| - i
  {
    if i == |s| {
    } else if !inRun(s[i]) {
      RunsFit(s, inRun, i + 1);
    } else {
      var j := RunEnd(s, inRun, i + 1);
      var rest := RunsFrom(s, inRun, j);
      assert ([s[i..j]] + rest)[1..] == rest;
      if j < |s| {
        RunsFit(s, inRun, j + 1);
      }
    }
  }

  function Lower(c: char): char {
    if 'A' <= c <= 'Z' then (c as int + 32) as char else c
  }

  function LowerAll(s: string): (t: string)
    ensures |t| == |s|
  {
    seq(|s|, i requires 0 <= i < |s| => Lower(s[i]))
  }

  function LowerEach(parts: seq<string>): (r: seq<string>)
    ensures |r| == |parts|
    ensures forall i :: 0 <= i < |r| ==> r[i] == LowerAll(parts[i])
  {
    seq(|parts|, i requires 0 <= i < |parts| => LowerAll(parts[i]))
  }

  /** The tokens of a text, lower-cased, in order. */
  function Tokens(text: string): seq<string> {
    LowerEach(RunsFrom(text, TOKEN_CLASS, 0))
  }

  /** Function words that carry no address. */
  predicate IsStop(token: string) {
    token in {
      "a", "an", "and", "are", "as", "at", "be", "by", "current", "did",
      "do", "does", "for", "from", "has", "have", "how", "in", "is", "it",
      "latest", "of", "on", "or", "the", "to", "was", "what", "when", "where",
      "which", "who", "why", "with"}
  }

  function WithoutStop(tokens: seq<string>): seq<string> {
    if tokens == [] then []
    else if IsStop(tokens[0]) then WithoutStop(tokens[1..])
    else [tokens[0]] + WithoutStop(tokens[1..])
  }

  /** The lexical tokens of a text: its tokens that are not stop words, in order. */
  function Lexical(text: string): seq<string> {
    WithoutStop(Tokens(text))
  }

  /** Separator-delimited parts of at least three characters. */
  function Fragments(token: string): set<string> {
    set part | part in RunsFrom(token, FRAGMENT_CLASS, 0) && |part| >= 3
  }

  /** Four-character substrings; a shorter token stands for itself. */
  function Ngrams(token: string): set<string> {
    if |token| < 4 then (if token == "" then {} else {token})
    else GramsBelow(token, |token| - 3)
  }

  function GramsBelow(token: string, n: nat): set<string>
    requires n + 3 <= |token|
  {
    set i | 0 <= i < n :: Gram(token, i)
  }

  function Gram(token: string, i: nat): string
    requires i + 4 <= |token|
  {
    token[i..i + 4]
  }

  ghost predicate OccursAt(gram: string, token: string, i: int) {
    0 <= i <= |token| - |gram| && token[i..i + |gram|] == gram
  }

  /** The n-grams are the non-empty substrings of length four, or of the token's own length if shorter. */
  lemma NgramsExact(token: string, gram: string)
    ensures gram in Ngrams(token) <==> |gram| == Min(4, |token|) > 0 && exists i :: OccursAt(gram, token, i)
  {
    if |token| < 4 {
      assert token[0..|token|] == token;
      assert OccursAt(token, token, 0);
    } else {
      if gram in Ngrams(token) {
        var i :| 0 <= i < |token| - 3 && Gram(token, i) == gram;
        assert OccursAt(gram, token, i);
      }
      if i :| |gram| == 4 && OccursAt(gram, token, i) {
        assert Gram(token, i) == gram;
      }
    }
  }

  /** Stop words are dropped and every other token keeps its multiplicity. */
  lemma {:induction false} StopFiltered(tokens: seq<string>, t: string)
    ensures multiset(WithoutStop(tokens))[t] == if IsStop(t) then 0 else multiset(tokens)[t]
  {
    hide IsStop;
    if tokens != [] {
      StopFiltered(tokens[1..], t);
      assert tokens == [tokens[0]] + tokens[1..];
    }
  }

  /** The words that carry no address. */
  lemma StopWordsExactly(t: string)
    ensures IsStop(t) <==> t in [
      "a", "an", "and", "are", "as", "at", "be", "by", "current", "did", "do", "does", "for", "from", "has", "have",
      "how", "in", "is", "it", "latest", "of", "on", "or", "the", "to", "was", "what", "when", "where", "which",
      "who", "why", "with"]
  {
  }

  /** A lexical token is a token that is no stop word, as often as it occurs. */
  lemma LexicalExactly(text: string, t: string)
    ensures multiset(Lexical(text))[t] == if IsStop(t) then 0 else multiset(Tokens(text))[t]
  {
    StopFiltered(Tokens(text), t);
  }

  /** A fragment is a stretch of three or more characters between separators or ends. */
  lemma FragmentsExactly(token: string, part: string)
    ensures part in Fragments(token) <==>
            |part| >= 3 && exists a, b ::
              && 0 <= a < b <= |token| && token[a..b] == part
              && (forall k :: a <= k < b ==> token[k] != '-' && token[k] != '_')
              && (a == 0 || token[a - 1] == '-' || token[a - 1] == '_')
              && (b == |token| || token[b] == '-' || token[b] == '_')
  {
    RunsAreMaximal(token, FRAGMENT_CLASS, 0, part);
    forall a, b | 0 <= a < b <= |token|
      ensures MaximalRun(token, FRAGMENT_CLASS, a, b) <==>
        && (forall k :: a <= k < b ==> token[k] != '-' && token[k] != '_')
        && (a == 0 || token[a - 1] == '-' || token[a - 1] == '_')
        && (b == |token| || token[b] == '-' || token[b] == '_')
    {
      FragmentRun(token, a, b);
    }
  }

  lemma FragmentRun(token: string, a: int, b: int)
    requires 0 <= a < b <= |token|
    ensures MaximalRun(token, FRAGMENT_CLASS, a, b) <==>
      && (forall k :: a <= k < b ==> token[k] != '-' && token[k] != '_')
      && (a == 0 || token[a - 1] == '-' || token[a - 1] == '_')
      && (b == |token| || token[b] == '-' || token[b] == '_')
  {
    assert forall k :: a <= k < b ==> (FRAGMENT_CLASS(token[k]) <==> token[k] != '-' && token[k] != '_');
  }

  /** A letter, digit, underscore or hyphen of the ASCII alphabet. */
  lemma TokenCharsExactly(c: char)
    ensures TOKEN_CLASS(c) <==>
            'a' <= c <= 'z' || 'A' <= c <= 'Z' || '0' <= c <= '9' || c == '_' || c == '-'
  {
  }

  /** Case folding moves the letters `A` to `Z` to the letters 32 above them and nothing else. */
  lemma LowerExactly(s: string, k: nat)
    requires k < |s|
    ensures LowerAll(s)[k] as int == s[k] as int + if 'A' <= s[k] <= 'Z' then 32 else 0
  {
  }

  /**
   A token is a stretch of token characters that can be extended on neither side, up to case:
   each character is the one in the text, or the lower-case letter for an upper-case one.
   */
  lemma TokensExactly(text: string, token: string)
    ensures token in Tokens(text) <==> exists a, b :: MaximalRun(text, TOKEN_CLASS, a, b) && Folded(text, a, b, token)
  {
    var runs := RunsFrom(text, TOKEN_CLASS, 0);
    if token in Tokens(text) {
      var i :| 0 <= i < |runs| && LowerAll(runs[i]) == token;
      RunsAreMaximal(text, TOKEN_CLASS, 0, runs[i]);
      var a, b :| 0 <= a && MaximalRun(text, TOKEN_CLASS, a, b) && runs[i] == text[a..b];
      FoldedExactly(text, a, b, token);
    }
    if a, b :| MaximalRun(text, TOKEN_CLASS, a, b) && Folded(text, a, b, token) {
      RunsAreMaximal(text, TOKEN_CLASS, 0, text[a..b]);
      assert 0 <= a;
      var i :| 0 <= i < |runs| && runs[i] == text[a..b];
      FoldedExactly(text, a, b, token);
      assert LowerEach(runs)[i] == token;
    }
  }

  /** Position by position the token is the stretch of the text, upper-case letters moved 32 up. */
  ghost predicate Folded(text: string, a: int, b: int, token: string) {
    && 0 <= a < b <= |text| && |token| == b - a
    && forall k :: 0 <= k < |token| ==>
         token[k] as int == text[a + k] as int + if 'A' <= text[a + k] <= 'Z' then 32 else 0
  }

  lemma FoldedExactly(text: string, a: int, b: int, token: string)
    requires 0 <= a < b <= |text|
    ensures Folded(text, a, b, token) <==> token == LowerAll(text[a..b])
  {
    var part := text[a..b];
    forall k | 0 <= k < b - a
      ensures LowerAll(part)[k] as int == text[a + k] as int + if 'A' <= text[a + k] <= 'Z' then 32 else 0
    {
      LowerExactly(part, k);
    }
    if Folded(text, a, b, token) {
      forall k | 0 <= k < b - a ensures token[k] == LowerAll(part)[k] {
        assert token[k] as int == text[a + k] as int + if 'A' <= text[a + k] <= 'Z' then 32 else 0;
      }
    }
  }

  /** No token has an upper-case letter. */
  lemma TokensAreLower(text: string, token: string, k: nat)
    requires token in Tokens(text) && k < |token|
    ensures !('A' <= token[k] <= 'Z')
  {
    TokensExactly(text, token);
    var a, b :| MaximalRun(text, TOKEN_CLASS, a, b) && Folded(text, a, b, token);
    assert token[k] as int == text[a + k] as int + if 'A' <= text[a + k] <= 'Z' then 32 else 0;
  }

  /** The two texts differ at most in the case of letters. */
  ghost predicate SameUpToCase(s: string, t: string) {
    |s| == |t| && forall k :: 0 <= k < |s| ==>
      || s[k] == t[k]
      || ('A' <= s[k] <= 'Z' && t[k] as int == s[k] as int + 32)
      || ('A' <= t[k] <= 'Z' && s[k] as int == t[k] as int + 32)
  }

  /** Texts that differ only in case have the same tokens. */
  lemma CaseBlind(s: string, t: string)
    requires SameUpToCase(s, t)
    ensures Tokens(s) == Tokens(t)
  {
    CaseBlindRuns(s, t, 0);
  }

  lemma {:induction false} CaseBlindEnd(s: string, t: string, i: nat)
    requires SameUpToCase(s, t) && i <= |s|
    ensures RunEnd(s, TOKEN_CLASS, i) == RunEnd(t, TOKEN_CLASS, i)
    decreases |s| - i
  {
    if i < |s| {
      assert TOKEN_CLASS(s[i]) <==> TOKEN_CLASS(t[i]);
      CaseBlindEnd(s, t, i + 1);
    }
  }

  lemma {:induction false} CaseBlindRuns(s: string, t: string, i: nat)
    requires SameUpToCase(s, t) && i <= |s|
    ensures LowerEach(RunsFrom(s, TOKEN_CLASS, i)) == LowerEach(RunsFrom(t, TOKEN_CLASS, i))
    decreases |s| - i
  {
    if i < |s| {
      assert TOKEN_CLASS(s[i]) <==> TOKEN_CLASS(t[i]);
      if !TOKEN_CLASS(s[i]) {
        CaseBlindRuns(s, t, i + 1);
      } else {
        var j := RunEnd(s, TOKEN_CLASS, i + 1);
        CaseBlindEnd(s, t, i + 1);
        CaseBlindRuns(s, t, j);
        forall k | 0 <= k < j - i ensures LowerAll(s[i..j])[k] == LowerAll(t[i..j])[k] {
          assert s[i..j][k] == s[i + k] && t[i..j][k] == t[i + k];
        }
        assert LowerAll(s[i..j]) == LowerAll(t[i..j]);
        FirstLowered(s[i..j], RunsFrom(s, TOKEN_CLASS, j));
        FirstLowered(t[i..j], RunsFrom(t, TOKEN_CLASS, j));
      }
    }
  }

  lemma FirstLowered(part: string, parts: seq<string>)
    ensures LowerEach([part] + parts) == [LowerAll(part)] + LowerEach(parts)
  {
  }

  /** Fragment lookups of one token are at most a quarter of its length. */
  lemma FragmentsFew(token: string)
    ensures 4 * |Fragments(token)| <= |token| + 1
  {
    var runs := RunsFrom(token, FRAGMENT_CLASS, 0);
    LongParts(runs);
    RunsFit(token, FRAGMENT_CLASS, 0);
    assert Fragments(token) == set part | part in runs && |part| >= 3;
  }

  lemma {:induction false} LongParts(parts: seq<string>)
    ensures 4 * |set part | part in parts && |part| >= 3| <= TotalLength(parts)
  {
    var long := set part | part in parts && |part| >= 3;
    if parts == [] {
      assert long == {};
    } else {
      var rest := set part | part in parts[1..] && |part| >= 3;
      LongParts(parts[1..]);
      if |parts[0]| >= 3 {
        assert long == rest + {parts[0]};
      } else {
        assert long == rest;
      }
    }
  }

  lemma NgramsFew(token: string)
    ensures |Ngrams(token)| <= if token == "" then 0 else if |token| <= 4 then 1 else |token| - 3
  {
    if |token| >= 4 {
      GramsFrom(token, |token| - 3);
    }
  }

  lemma {:induction false} GramsFrom(token: string, n: nat)
    requires n + 3 <= |token|
    ensures |GramsBelow(token, n)| <= n
  {
    if n == 0 {
      assert GramsBelow(token, n) == {};
    } else {
      GramsFrom(token, n - 1);
      assert GramsBelow(token, n) == GramsBelow(token, n - 1) + {Gram(token, n - 1)};
    }
  }

  /** The lexical tokens of a text fit into it, one separator apart. */
  lemma LexicalFits(text: string)
    ensures TotalLength(Lexical(text)) <= |text| + 1
  {
    RunsFit(text, TOKEN_CLASS, 0);
    LowerKeepsLength(RunsFrom(text, TOKEN_CLASS, 0));
    StopShrinks(Tokens(text));
  }

  lemma {:induction false} LowerKeepsLength(parts: seq<string>)
    ensures TotalLength(LowerEach(parts)) == TotalLength(parts)
  {
    if parts != [] {
      LowerKeepsLength(parts[1..]);
      assert LowerEach(parts)[1..] == LowerEach(parts[1..]);
    }
  }

  lemma {:induction false} StopShrinks(tokens: seq<string>)
    ensures TotalLength(WithoutStop(tokens)) <= TotalLength(tokens)
  {
    if tokens != [] {
      StopShrinks(tokens[1..]);
      if !IsStop(tokens[0]) {
        assert ([tokens[0]] + WithoutStop(tokens[1..]))[1..] == WithoutStop(tokens[1..]);
      }
    }
  }
}
