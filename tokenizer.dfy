/**
 * The indexer's `SimpleTokenizer`: one pass over the text that cuts it into maximal runs of
 * non-separator characters and reports each run, lower-cased, with its offsets.
 *
 * A `char` here stands for one UTF-16 code unit (what `text[i]` and the offsets count). The
 * Unicode category tests `\p{Z}` and `\p{P}` and `String.prototype.toLowerCase` are not
 * re-implemented: they are the `CharTables` the tokenizer is given.
 */
module Tokenizer {

  /** The Unicode-dependent primitives: membership in category Z, in category P, and lower-casing. */
  datatype CharTables = CharTables(
    isSeparatorSpace: char -> bool,
    isPunctuation: char -> bool,
    toLowerCase: string -> string)

  /** The character class `[\n\r\p{Z}\p{P}]`; a tab, for one, is not in it. */
  predicate IsSeparator(t: CharTables, c: char) {
    c == '\n' || c == '\r' || t.isSeparatorSpace(c) || t.isPunctuation(c)
  }

  datatype Token = Token(term: string, start: nat, end: nat)

  /**
   * `tok` is a word of `text`: a non-empty range holding no separator, bounded on each side by a
   * separator or the end of the text, whose term is the lower-cased text of the range.
   */
  ghost predicate IsWord(t: CharTables, text: string, tok: Token) {
    && tok.start < tok.end <= |text|
    && tok.term == t.toLowerCase(text[tok.start..tok.end])
    && (forall k :: tok.start <= k < tok.end ==> !IsSeparator(t, text[k]))
    && (tok.start == 0 || IsSeparator(t, text[tok.start - 1]))
    && (tok.end == |text| || IsSeparator(t, text[tok.end]))
  }

  /** Position `k` lies inside one of the tokens. */
  ghost predicate Covered(tokens: seq<Token>, k: nat) {
    exists j :: 0 <= j < |tokens| && tokens[j].start <= k < tokens[j].end
  }

  /** The tokens are words, in strictly increasing order, and together cover every non-separator. */
  ghost predicate IsTokenization(t: CharTables, text: string, tokens: seq<Token>) {
    && (forall j :: 0 <= j < |tokens| ==> IsWord(t, text, tokens[j]))
    && (forall j :: 0 < j < |tokens| ==> tokens[j - 1].end < tokens[j].start)
    && (forall k :: 0 <= k < |text| && !IsSeparator(t, text[k]) ==> Covered(tokens, k))
  }

  /** Appending a token keeps every covered position covered, and covers the token's own range. */
  lemma CoveredAppend(tokens: seq<Token>, tok: Token, k: nat)
    requires Covered(tokens, k) || tok.start <= k < tok.end
    ensures Covered(tokens + [tok], k)
  {
    if tok.start <= k < tok.end {
      assert (tokens + [tok])[|tokens|] == tok;
    } else {
      var j :| 0 <= j < |tokens| && tokens[j].start <= k < tokens[j].end;
      assert (tokens + [tok])[j] == tokens[j];
    }
  }

  /**
   * What the scan knows after the first `i` characters: the tokens so far are ordered words that
   * end before `i`; when a run is open (`inWord`) it starts at `start`, after the last token and
   * after a separator or the text's start, and holds no separator; when none is open the last
   * character read was a separator; every non-separator read so far lies in a token or the run.
   */
  ghost predicate Scanned(t: CharTables, text: string, i: nat, tokens: seq<Token>, inWord: bool, start: nat) {
    && i <= |text| && start <= i
    && (inWord ==> start < i)
    && (inWord ==> forall k :: start <= k < i ==> !IsSeparator(t, text[k]))
    && (inWord ==> start == 0 || IsSeparator(t, text[start - 1]))
    && (!inWord && 0 < i ==> IsSeparator(t, text[i - 1]))
    && (forall j :: 0 <= j < |tokens| ==> IsWord(t, text, tokens[j]) && tokens[j].end < i)
    && (forall j :: 0 < j < |tokens| ==> tokens[j - 1].end < tokens[j].start)
    && (inWord && tokens != [] ==> tokens[|tokens| - 1].end < start)
    && (forall k :: 0 <= k < i && !IsSeparator(t, text[k]) ==> (inWord && start <= k) || Covered(tokens, k))
  }

  /** A separator closes the open run: the run becomes a token. */
  lemma CloseRun(t: CharTables, text: string, i: nat, tokens: seq<Token>, start: nat)
    requires i < |text| && Scanned(t, text, i, tokens, true, start) && IsSeparator(t, text[i])
    ensures Scanned(t, text, i + 1, tokens + [Token(t.toLowerCase(text[start..i]), start, i)], false, start)
  {
    var tok := Token(t.toLowerCase(text[start..i]), start, i);
    assert IsWord(t, text, tok);
    forall k | 0 <= k < i + 1 && !IsSeparator(t, text[k])
      ensures Covered(tokens + [tok], k)
    {
      CoveredAppend(tokens, tok, k);
    }
  }

  /** A separator outside a run changes nothing but the position. */
  lemma SkipSeparator(t: CharTables, text: string, i: nat, tokens: seq<Token>, start: nat)
    requires i < |text| && Scanned(t, text, i, tokens, false, start) && IsSeparator(t, text[i])
    ensures Scanned(t, text, i + 1, tokens, false, start)
  {
  }

  /** A non-separator outside a run opens a run at `i`. */
  lemma OpenRun(t: CharTables, text: string, i: nat, tokens: seq<Token>, start: nat)
    requires i < |text| && Scanned(t, text, i, tokens, false, start) && !IsSeparator(t, text[i])
    ensures Scanned(t, text, i + 1, tokens, true, i)
  {
  }

  /** A non-separator inside a run extends it. */
  lemma ExtendRun(t: CharTables, text: string, i: nat, tokens: seq<Token>, start: nat)
    requires i < |text| && Scanned(t, text, i, tokens, true, start) && !IsSeparator(t, text[i])
    ensures Scanned(t, text, i + 1, tokens, true, start)
  {
  }

  /** At the end of the text the tokens, plus the open run if any, are the tokenization. */
  lemma FinishScan(t: CharTables, text: string, tokens: seq<Token>, inWord: bool, start: nat)
    requires Scanned(t, text, |text|, tokens, inWord, start)
    ensures !inWord ==> IsTokenization(t, text, tokens)
    ensures inWord ==> IsTokenization(t, text, tokens + [Token(t.toLowerCase(text[start..]), start, |text|)])
  {
    if inWord {
      var tok := Token(t.toLowerCase(text[start..]), start, |text|);
      assert text[start..] == text[start..|text|];
      assert IsWord(t, text, tok);
      forall k | 0 <= k < |text| && !IsSeparator(t, text[k])
        ensures Covered(tokens + [tok], k)
      {
        CoveredAppend(tokens, tok, k);
      }
    }
  }

  /** `SimpleTokenizer.tokenize`. */
  method Tokenize(t: CharTables, text: string) returns (tokens: seq<Token>)
    ensures IsTokenization(t, text, tokens)
  {
    tokens := [];
    var start, end := 0, 0;
    var inWord := false;
    for i := 0 to |text|
      invariant Scanned(t, text, i, tokens, inWord, start)
    {
      var c := text[i];
      if IsSeparator(t, c) {
        if inWord {
          end := i;
          CloseRun(t, text, i, tokens, start);
          tokens := tokens + [Token(t.toLowerCase(text[start..end]), start, end)];
          inWord := false;
        } else {
          SkipSeparator(t, text, i, tokens, start);
        }
      } else {
        if !inWord {
          OpenRun(t, text, i, tokens, start);
          start := i;
          end := i;
          inWord := true;
        } else {
          ExtendRun(t, text, i, tokens, start);
        }
      }
    }
    FinishScan(t, text, tokens, inWord, start);
    if inWord {
      tokens := tokens + [Token(t.toLowerCase(text[start..]), start, |text|)];
    }
  }

  /** Token order is transitive: every earlier token ends before every later one starts. */
  lemma {:induction false} TokensOrdered(t: CharTables, text: string, tokens: seq<Token>, i: nat, j: nat)
    requires IsTokenization(t, text, tokens)
    requires i < j < |tokens|
    ensures tokens[i].end < tokens[j].start
    decreases j - i
  {
    if i + 1 < j {
      TokensOrdered(t, text, tokens, i + 1, j);
      assert IsWord(t, text, tokens[i + 1]);
    }
  }

  /** Every non-separator character lies in exactly one token. */
  lemma CoveredExactlyOnce(t: CharTables, text: string, tokens: seq<Token>, k: nat)
    requires IsTokenization(t, text, tokens)
    requires k < |text| && !IsSeparator(t, text[k])
    ensures exists j :: 0 <= j < |tokens| && tokens[j].start <= k < tokens[j].end
    ensures forall i, j ::
      (0 <= i < |tokens| && 0 <= j < |tokens| &&
       tokens[i].start <= k < tokens[i].end && tokens[j].start <= k < tokens[j].end) ==> i == j
  {
    forall i, j | 0 <= i < |tokens| && 0 <= j < |tokens| &&
      tokens[i].start <= k < tokens[i].end && tokens[j].start <= k < tokens[j].end
      ensures i == j
    {
      if i < j {
        TokensOrdered(t, text, tokens, i, j);
      } else if j < i {
        TokensOrdered(t, text, tokens, j, i);
      }
    }
  }

  /** The tokenization is empty exactly when the text holds separators only (the empty text included). */
  lemma EmptyIffAllSeparators(t: CharTables, text: string, tokens: seq<Token>)
    requires IsTokenization(t, text, tokens)
    ensures tokens == [] <==> forall k :: 0 <= k < |text| ==> IsSeparator(t, text[k])
  {
    if tokens != [] {
      assert IsWord(t, text, tokens[0]);
      assert !IsSeparator(t, text[tokens[0].start]);
    }
  }

  /** Token starts and ends never decrease along the list. */
  lemma TokensMonotone(t: CharTables, text: string, tokens: seq<Token>, i: nat, j: nat)
    requires IsTokenization(t, text, tokens)
    requires i <= j < |tokens|
    ensures tokens[i].start <= tokens[j].start && tokens[i].end <= tokens[j].end
  {
    if i < j {
      TokensOrdered(t, text, tokens, i, j);
      assert IsWord(t, text, tokens[i]) && IsWord(t, text, tokens[j]);
    }
  }

  /** The token a non-separator character lies in. */
  lemma CoveringToken(t: CharTables, text: string, tokens: seq<Token>, k: nat) returns (i: nat)
    requires IsTokenization(t, text, tokens)
    requires k < |text| && !IsSeparator(t, text[k])
    ensures i < |tokens| && tokens[i].start <= k < tokens[i].end
  {
    assert Covered(tokens, k);
    i :| 0 <= i < |tokens| && tokens[i].start <= k < tokens[i].end;
  }

  /** No non-separator lies between the end of token `j - 1` (or the text's start) and token `j`. */
  lemma GapIsSeparators(t: CharTables, text: string, tokens: seq<Token>, j: nat, k: nat)
    requires IsTokenization(t, text, tokens)
    requires j <= |tokens|
    requires (if j == 0 then 0 else tokens[j - 1].end) <= k < |text|
    requires j < |tokens| ==> k < tokens[j].start
    ensures IsSeparator(t, text[k])
  {
    if !IsSeparator(t, text[k]) {
      var i := CoveringToken(t, text, tokens, k);
      if i < j {
        TokensMonotone(t, text, tokens, i, j - 1);
        assert false;
      } else {
        TokensMonotone(t, text, tokens, j, i);
        assert false;
      }
    }
  }

  /** A word's end is the first separator at or after its start (or the end of the text). */
  lemma SameStartSameWord(t: CharTables, text: string, a: Token, b: Token)
    requires IsWord(t, text, a) && IsWord(t, text, b)
    requires a.start == b.start
    ensures a == b
  {
  }

  /** Two tokenizations that agree on their first `n` tokens agree on the next one, if both have one. */
  lemma NextTokenAgrees(t: CharTables, text: string, a: seq<Token>, b: seq<Token>, n: nat)
    requires IsTokenization(t, text, a) && IsTokenization(t, text, b)
    requires n < |a| && n < |b| && a[..n] == b[..n]
    ensures a[n] == b[n]
  {
    assert IsWord(t, text, a[n]) && IsWord(t, text, b[n]);
    if n > 0 {
      assert a[n - 1] == a[..n][n - 1] == b[..n][n - 1] == b[n - 1];
    }
    if a[n].start < b[n].start {
      GapIsSeparators(t, text, b, n, a[n].start);
      assert false;
    } else if b[n].start < a[n].start {
      GapIsSeparators(t, text, a, n, b[n].start);
      assert false;
    }
    SameStartSameWord(t, text, a[n], b[n]);
  }

  /** A tokenization that agrees with another on all of the other's tokens has no more tokens. */
  lemma NoTokenAfter(t: CharTables, text: string, a: seq<Token>, b: seq<Token>)
    requires IsTokenization(t, text, a) && IsTokenization(t, text, b)
    requires |b| <= |a| && a[..|b|] == b
    ensures |a| == |b|
  {
    var n := |b|;
    if n < |a| {
      assert IsWord(t, text, a[n]);
      if n > 0 {
        assert a[n - 1] == a[..n][n - 1] == b[n - 1];
      }
      GapIsSeparators(t, text, b, n, a[n].start);
      assert false;
    }
  }

  /** The tokenization of a text is unique: the tokenizer's output is determined by its contract. */
  lemma {:induction false} TokenizationUnique(t: CharTables, text: string, a: seq<Token>, b: seq<Token>)
    requires IsTokenization(t, text, a) && IsTokenization(t, text, b)
    ensures a == b
  {
    var n := 0;
    while n < |a| && n < |b|
      invariant n <= |a| && n <= |b|
      invariant a[..n] == b[..n]
    {
      NextTokenAgrees(t, text, a, b, n);
      PrefixGrows(a, b, n);
      n := n + 1;
    }
    if n < |a| {
      WholePrefix(b, n);
      NoTokenAfter(t, text, a, b);
    } else if n < |b| {
      WholePrefix(a, n);
      NoTokenAfter(t, text, b, a);
    }
    WholePrefix(a, n);
    WholePrefix(b, n);
  }

  /** Two lists with a common prefix and the same next element share the longer prefix. */
  lemma PrefixGrows<T>(a: seq<T>, b: seq<T>, n: nat)
    requires n < |a| && n < |b| && a[..n] == b[..n] && a[n] == b[n]
    ensures a[..n + 1] == b[..n + 1]
  {
    assert a[..n + 1] == a[..n] + [a[n]] && b[..n + 1] == b[..n] + [b[n]];
  }

  /** The prefix as long as the list is the list. */
  lemma WholePrefix<T>(s: seq<T>, n: nat)
    requires n == |s|
    ensures s[..n] == s
  {
  }

  /** The tokenizer test's input. */
  const Example: string := "hello  world,\n AFFiNE"

  /** The tables classify the characters of `Example` as Unicode does. */
  ghost predicate ClassifiesExample(t: CharTables) {
    && (forall c :: c in {'h', 'e', 'l', 'o', 'w', 'r', 'd', 'A', 'F', 'i', 'N', 'E'} ==>
          !t.isSeparatorSpace(c) && !t.isPunctuation(c))
    && t.isSeparatorSpace(' ') && t.isPunctuation(',')
  }

  /** Which positions of `Example` are separators. */
  lemma ExampleSeparators(t: CharTables, k: nat)
    requires ClassifiesExample(t)
    requires k < |Example|
    ensures IsSeparator(t, Example[k]) <==> k == 5 || k == 6 || k == 12 || k == 13 || k == 14
  {
    var letters := {'h', 'e', 'l', 'o', 'w', 'r', 'd', 'A', 'F', 'i', 'N', 'E'};
    if k < 5 {
      assert Example[k] in letters by {
        assert k == 0 || k == 1 || k == 2 || k == 3 || k == 4;
      }
    } else if k < 7 {
      assert Example[k] == ' ';
    } else if k < 12 {
      assert Example[k] in letters by {
        assert k == 7 || k == 8 || k == 9 || k == 10 || k == 11;
      }
    } else if k < 15 {
      assert Example[k] in {',', '\n', ' '} by {
        assert k == 12 || k == 13 || k == 14;
      }
    } else {
      assert Example[k] in letters by {
        assert k == 15 || k == 16 || k == 17 || k == 18 || k == 19 || k == 20;
      }
    }
  }

  /** The tokens the tokenizer test expects. */
  const ExampleWords: seq<Token> := [Token("hello", 0, 5), Token("world", 7, 12), Token("affine", 15, 21)]

  /** `ExampleSeparators` for every position at once. */
  lemma ExampleSeparatorsAll(t: CharTables)
    requires ClassifiesExample(t)
    ensures forall k :: 0 <= k < |Example| ==>
      (IsSeparator(t, Example[k]) <==> k == 5 || k == 6 || k == 12 || k == 13 || k == 14)
  {
    forall k | 0 <= k < |Example|
      ensures IsSeparator(t, Example[k]) <==> k == 5 || k == 6 || k == 12 || k == 13 || k == 14
    {
      ExampleSeparators(t, k);
    }
  }

  /** Each expected token is a word of the example. */
  lemma ExampleWordsAreWords(t: CharTables, j: nat)
    requires ClassifiesExample(t)
    requires t.toLowerCase("hello") == "hello" && t.toLowerCase("world") == "world"
    requires t.toLowerCase("AFFiNE") == "affine"
    requires j < |ExampleWords|
    ensures IsWord(t, Example, ExampleWords[j])
  {
    ExampleSeparatorsAll(t);
    if j == 0 {
      assert Example[0..5] == "hello";
    } else if j == 1 {
      assert Example[7..12] == "world";
    } else {
      assert Example[15..21] == "AFFiNE";
    }
  }

  /** The expected tokens cover every letter of the example. */
  lemma ExampleWordsCover(t: CharTables)
    requires ClassifiesExample(t)
    ensures forall k :: 0 <= k < |Example| && !IsSeparator(t, Example[k]) ==> Covered(ExampleWords, k)
  {
    ExampleSeparatorsAll(t);
    forall k | 0 <= k < |Example| && !IsSeparator(t, Example[k])
      ensures Covered(ExampleWords, k)
    {
      if k < 5 {
        assert ExampleWords[0].start <= k < ExampleWords[0].end;
      } else if k < 12 {
        assert ExampleWords[1].start <= k < ExampleWords[1].end;
      } else {
        assert ExampleWords[2].start <= k < ExampleWords[2].end;
      }
    }
  }

  /**
   * On `"hello  world,\n AFFiNE"` the tokenizer yields `hello[0,5)`, `world[7,12)` and
   * `affine[15,21)`, for any Unicode tables that classify the characters of that text as Unicode
   * does (the letters in neither category, the space in Z, the comma in P).
   */
  lemma ExampleTokens(t: CharTables, tokens: seq<Token>)
    requires ClassifiesExample(t)
    requires t.toLowerCase("hello") == "hello" && t.toLowerCase("world") == "world"
    requires t.toLowerCase("AFFiNE") == "affine"
    requires IsTokenization(t, Example, tokens)
    ensures tokens == [Token("hello", 0, 5), Token("world", 7, 12), Token("affine", 15, 21)]
  {
    forall j | 0 <= j < |ExampleWords|
      ensures IsWord(t, Example, ExampleWords[j])
    {
      ExampleWordsAreWords(t, j);
    }
    ExampleWordsCover(t);
    assert IsTokenization(t, Example, ExampleWords);
    TokenizationUnique(t, Example, tokens, ExampleWords);
  }
}
