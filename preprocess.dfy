/**
 * `preprocess_text`: lower-case, delete punctuation, tokenize, drop
 * stopwords, stem the rest and join the stems with single spaces.
 * The tokenizer, the stemmer and the stopword set are library code and
 * enter as parameters; `Text.Words` is the whitespace tokenizer used as
 * the stand-in for the library tokenizer.
 */
module Preprocess {
  import opened Text

  /** The collaborators `preprocess_text` uses: tokenizer, stemmer, stopword set. */
  datatype Pipeline = Pipeline(
    tokenize: string -> seq<string>,
    stem: string -> string,
    stopWords: set<string>)

  /** The text handed to the tokenizer: lower-cased, punctuation deleted. */
  function Normalize(text: string): (r: string)
    ensures |r| <= |text|
    ensures forall c :: c in r ==> !IsPunctuation(c) && !IsAsciiUpper(c)
  {
    var lowered := Lower(text);
    StripPunctuationCounts(lowered);
    assert forall c :: c in StripPunctuation(lowered) ==> multiset(StripPunctuation(lowered))[c] > 0;
    StripPunctuation(lowered)
  }

  /** The tokens that are not stopwords, in their order. */
  function RemoveStopwords(tokens: seq<string>, stopWords: set<string>): (r: seq<string>)
    ensures |r| <= |tokens|
    ensures forall t :: t in r ==> t in tokens && t !in stopWords
  {
    if tokens == [] then []
    else (if tokens[0] in stopWords then [] else [tokens[0]]) + RemoveStopwords(tokens[1..], stopWords)
  }

  /** The filter distributes over concatenation: it never reorders tokens. */
  lemma {:induction false} RemoveStopwordsAppend(a: seq<string>, b: seq<string>, stopWords: set<string>)
    ensures RemoveStopwords(a + b, stopWords) == RemoveStopwords(a, stopWords) + RemoveStopwords(b, stopWords)
  {
    if a == [] {
      assert a + b == b;
    } else {
      assert (a + b)[0] == a[0];
      assert (a + b)[1..] == a[1..] + b;
      RemoveStopwordsAppend(a[1..], b, stopWords);
    }
  }

  /**
   * Every stopword disappears and every other token keeps its number of
   * occurrences; so the output has as many tokens as the input has
   * non-stopword tokens.
   */
  lemma {:induction false} RemoveStopwordsCounts(tokens: seq<string>, stopWords: set<string>)
    ensures forall t :: multiset(RemoveStopwords(tokens, stopWords))[t]
                          == if t in stopWords then 0 else multiset(tokens)[t]
  {
    if tokens != [] {
      assert tokens == [tokens[0]] + tokens[1..];
      RemoveStopwordsCounts(tokens[1..], stopWords);
    }
  }

  /** A token list made only of stopwords filters down to nothing. */
  lemma RemoveStopwordsAll(tokens: seq<string>, stopWords: set<string>)
    requires forall t :: t in tokens ==> t in stopWords
    ensures RemoveStopwords(tokens, stopWords) == []
  {
  }

  /** `[stem(t) for t in tokens]`: one stem per token, position by position. */
  function StemAll(stem: string -> string, tokens: seq<string>): (r: seq<string>)
    ensures |r| == |tokens|
    ensures forall i :: 0 <= i < |tokens| ==> r[i] == stem(tokens[i])
  {
    seq(|tokens|, i requires 0 <= i < |tokens| => stem(tokens[i]))
  }

  /**
   * The tokens of the normalized text. With the whitespace tokenizer every
   * token is non-empty and free of whitespace, punctuation and capitals.
   */
  function Tokens(p: Pipeline, text: string): (ts: seq<string>)
    ensures p.tokenize == Words ==> forall w :: w in ts ==> w != ""
    ensures p.tokenize == Words ==>
              forall w, c :: w in ts && c in w ==> !IsWhitespace(c) && !IsPunctuation(c) && !IsAsciiUpper(c)
  {
    p.tokenize(Normalize(text))
  }

  /**
   * `filtered_tokens`: the i-th stem is the stem of the i-th token that is
   * not a stopword; the stopword test is on the token, before stemming.
   */
  function FilteredTokens(p: Pipeline, text: string): (r: seq<string>)
    ensures |r| == |RemoveStopwords(Tokens(p, text), p.stopWords)| <= |Tokens(p, text)|
    ensures forall i :: 0 <= i < |r| ==> r[i] == p.stem(RemoveStopwords(Tokens(p, text), p.stopWords)[i])
    ensures forall i :: 0 <= i < |r| ==>
              exists t :: t in Tokens(p, text) && t !in p.stopWords && r[i] == p.stem(t)
  {
    var kept := RemoveStopwords(Tokens(p, text), p.stopWords);
    assert forall i :: 0 <= i < |kept| ==> kept[i] in kept;
    StemAll(p.stem, kept)
  }

  /**
   * `preprocess_text(text)`: "" when no stems remain; otherwise every
   * character is a separating space or a character of one of the stems.
   */
  function PreprocessText(p: Pipeline, text: string): (r: string)
    ensures FilteredTokens(p, text) == [] ==> r == ""
    ensures forall c :: c in r ==>
              c == ' ' || exists i :: 0 <= i < |FilteredTokens(p, text)| && c in FilteredTokens(p, text)[i]
  {
    Join(FilteredTokens(p, text))
  }

  /**
   * The processed text is the filtered stems joined by single spaces:
   * no stems give "", otherwise `split(' ')` gives back exactly the stems
   * when none of them contains a space.
   */
  lemma PreprocessSplit(p: Pipeline, text: string)
    requires forall w :: w in FilteredTokens(p, text) ==> ' ' !in w
    ensures FilteredTokens(p, text) == [] ==> PreprocessText(p, text) == ""
    ensures FilteredTokens(p, text) != [] ==> Split(PreprocessText(p, text)) == FilteredTokens(p, text)
  {
    if FilteredTokens(p, text) != [] {
      SplitJoin(FilteredTokens(p, text));
    }
  }

  /**
   * With non-empty, whitespace-free stems, splitting the processed text on
   * whitespace gives the stems back, one per non-stopword token.
   */
  lemma PreprocessWords(p: Pipeline, text: string)
    requires forall w :: w in FilteredTokens(p, text) ==> w != "" && forall c :: c in w ==> !IsWhitespace(c)
    ensures Words(PreprocessText(p, text)) == FilteredTokens(p, text)
    ensures |Words(PreprocessText(p, text))| == |RemoveStopwords(Tokens(p, text), p.stopWords)|
  {
    WordsJoin(FilteredTokens(p, text));
  }

  /** When every token is a stopword, the processed text is "". */
  lemma PreprocessAllStopwords(p: Pipeline, text: string)
    requires forall t :: t in Tokens(p, text) ==> t in p.stopWords
    ensures PreprocessText(p, text) == ""
  {
    RemoveStopwordsAll(Tokens(p, text), p.stopWords);
  }

  /**
   * Text made only of punctuation (the empty text included) normalizes to
   * "", so it processes to "" whenever the tokenizer finds no token in "".
   */
  lemma PreprocessPunctuationOnly(p: Pipeline, text: string)
    requires forall c :: c in text ==> IsPunctuation(c)
    requires p.tokenize("") == []
    ensures Normalize(text) == ""
    ensures PreprocessText(p, text) == ""
  {
    var lowered := Lower(text);
    forall c | c in lowered ensures IsPunctuation(c) {
      var i :| 0 <= i < |lowered| && lowered[i] == c;
      assert text[i] in text;
      LowerKeepsPunctuation(text[i]);
    }
    StripPunctuationDrops(lowered);
  }

  /**
   * The stopword test looks at the token, not at its stem: a token whose
   * stem is a stopword still reaches the output.
   */
  lemma StemMayBeStopword()
    ensures var p := Pipeline(Words, _ => "di", {"di"});
      PreprocessText(p, "ke") == "di" && "di" in p.stopWords
  {
    var p := Pipeline(Words, _ => "di", {"di"});
    assert Lower("ke") == "ke";
    StripPunctuationKeeps("ke");
    assert Normalize("ke") == "ke";
    WordsJoin(["ke"]);
    assert Tokens(p, "ke") == ["ke"];
    assert RemoveStopwords(["ke"], p.stopWords) == ["ke"];
    assert FilteredTokens(p, "ke") == ["di"];
  }
}
