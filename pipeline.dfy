/**
 * The text pipeline that runs on the crawled opinions: the corpus of
 * cleaned opinions, tokenization through an abstract tokenizer, stop-word
 * removal, the newline-joined text of the intermediate files, and the word
 * counts of the analysis step.
 */
module Pipeline {
  import opened Text
  import opened Scraper

  // ---------------------------------------------------------------------
  // Characters
  // ---------------------------------------------------------------------

  /** Python's `string.punctuation`. */
  const Punctuation: string := "!\"#$%&'()*+,-./:;<=>?@[\\]^_`{|}~"

  /** The four ASCII ranges of printable characters that are neither letters, digits nor space. */
  predicate IsAsciiPunctuation(c: char)
  {
    ('!' <= c <= '/') || (':' <= c <= '@') || ('[' <= c <= '`') || ('{' <= c <= '~')
  }

  /** The `n` consecutive ASCII characters from `lo` on. */
  function AsciiRun(lo: char, n: nat): string
    requires lo as int + n <= 0x80
  {
    seq(n, i requires 0 <= i < n => (lo as int + i) as char)
  }

  lemma InAsciiRun(lo: char, n: nat, c: char)
    requires lo as int + n <= 0x80
    ensures c in AsciiRun(lo, n) <==> lo as int <= c as int < lo as int + n
  {
    if lo as int <= c as int < lo as int + n {
      assert AsciiRun(lo, n)[c as int - lo as int] == c;
    }
  }

  /** `string.punctuation` lists the four runs in ASCII order. */
  lemma PunctuationRuns()
    ensures Punctuation == AsciiRun('!', 15) + AsciiRun(':', 7) + AsciiRun('[', 6) + AsciiRun('{', 4)
  {
  }

  /** `string.punctuation` is exactly the 32 ASCII punctuation characters. */
  lemma PunctuationIsAsciiPunctuation(c: char)
    ensures |Punctuation| == 32
    ensures c in Punctuation <==> IsAsciiPunctuation(c)
  {
    PunctuationRuns();
    InAsciiRun('!', 15, c);
    InAsciiRun(':', 7, c);
    InAsciiRun('[', 6, c);
    InAsciiRun('{', 4, c);
  }

  /**
   * `str.lower()` on one character, for ASCII and for the capitals of the
   * Polish alphabet; every other character is left as it is.
   */
  function LowerChar(c: char): char
  {
    if 'A' <= c <= 'Z' then (c as int + 32) as char
    else if c == 'Ą' then 'ą'
    else if c == 'Ć' then 'ć'
    else if c == 'Ę' then 'ę'
    else if c == 'Ł' then 'ł'
    else if c == 'Ń' then 'ń'
    else if c == 'Ó' then 'ó'
    else if c == 'Ś' then 'ś'
    else if c == 'Ź' then 'ź'
    else if c == 'Ż' then 'ż'
    else c
  }

  /** Lowering a lowered character changes nothing. */
  lemma LowerCharIdempotent(c: char)
    ensures LowerChar(LowerChar(c)) == LowerChar(c)
  {
  }

  /** Lowering never turns a character into punctuation. */
  lemma LowerCharKeepsNonPunctuation(c: char)
    ensures c !in Punctuation ==> LowerChar(c) !in Punctuation
  {
    var d := LowerChar(c);
    assert !IsAsciiPunctuation(c) ==> !IsAsciiPunctuation(d);
    PunctuationIsAsciiPunctuation(c);
    PunctuationIsAsciiPunctuation(d);
  }

  /** `s.lower()`. */
  function Lower(s: string): string
  {
    seq(|s|, i requires 0 <= i < |s| => LowerChar(s[i]))
  }

  /** Lowering is idempotent. */
  lemma LowerLower(s: string)
    ensures Lower(Lower(s)) == Lower(s)
  {
    forall i | 0 <= i < |s|
      ensures Lower(Lower(s))[i] == Lower(s)[i]
    {
      LowerCharIdempotent(s[i]);
    }
  }

  /** `"".join(char for char in s if char not in string.punctuation)`. */
  function RemovePunctuation(s: string): string
  {
    if s == [] then []
    else if s[0] in Punctuation then RemovePunctuation(s[1..])
    else [s[0]] + RemovePunctuation(s[1..])
  }

  /** Exactly the characters of `s` that are not punctuation remain. */
  lemma {:induction false} RemovePunctuationSpec(s: string)
    ensures |RemovePunctuation(s)| <= |s|
    ensures forall c :: c in RemovePunctuation(s) <==> c in s && c !in Punctuation
    decreases |s|
  {
    if s != [] {
      RemovePunctuationSpec(s[1..]);
      assert forall c :: c in s <==> c == s[0] || c in s[1..];
    }
  }

  /** The result for two texts in a row is the two results in a row. */
  lemma {:induction false} RemovePunctuationConcat(a: string, b: string)
    ensures RemovePunctuation(a + b) == RemovePunctuation(a) + RemovePunctuation(b)
    decreases |a|
  {
    if a == [] {
      assert a + b == b;
    } else {
      var ab := a + b;
      assert ab[0] == a[0];
      assert ab[1..] == a[1..] + b;
      RemovePunctuationConcat(a[1..], b);
    }
  }

  /**
   * The filter works character by character and keeps order: a single
   * character is dropped exactly when it is punctuation, and the result for
   * two texts in a row is the two results in a row.
   */
  lemma RemovePunctuationAppend(a: string, b: string)
    ensures RemovePunctuation(a + b) == RemovePunctuation(a) + RemovePunctuation(b)
    ensures forall c :: RemovePunctuation([c]) == if c in Punctuation then [] else [c]
  {
    RemovePunctuationConcat(a, b);
    forall c
      ensures RemovePunctuation([c]) == if c in Punctuation then [] else [c]
    {
      assert [c][1..] == [];
    }
  }

  /** Removing punctuation from a text that has none gives it back. */
  lemma {:induction false} RemovePunctuationKeepsClean(s: string)
    requires forall c :: c in s ==> c !in Punctuation
    ensures RemovePunctuation(s) == s
    decreases |s|
  {
    if s != [] {
      assert s[0] in s;
      assert forall c :: c in s[1..] ==> c in s;
      RemovePunctuationKeepsClean(s[1..]);
      assert s == [s[0]] + s[1..];
    }
  }

  /** What create_corpus makes of one opinion: punctuation removed first, then lowered. */
  function CleanOpinion(opinion: string): string
  {
    Lower(RemovePunctuation(opinion))
  }

  /** Lowering works character by character and keeps order. */
  lemma LowerAppend(a: string, b: string)
    ensures Lower(a + b) == Lower(a) + Lower(b)
  {
    forall i | 0 <= i < |a + b|
      ensures Lower(a + b)[i] == (Lower(a) + Lower(b))[i]
    {
      if i < |a| {
        assert (a + b)[i] == a[i];
      } else {
        assert (a + b)[i] == b[i - |a|];
      }
    }
  }

  /**
   * A cleaned opinion holds no punctuation and is its own lower-case form.
   * Cleaning goes character by character in order: each character is dropped
   * when it is punctuation and lowered otherwise.
   */
  lemma CleanOpinionSpec(opinion: string)
    ensures forall c :: c in CleanOpinion(opinion) ==> c !in Punctuation
    ensures Lower(CleanOpinion(opinion)) == CleanOpinion(opinion)
    ensures |CleanOpinion(opinion)| <= |opinion|
    ensures forall a, b :: CleanOpinion(a + b) == CleanOpinion(a) + CleanOpinion(b)
    ensures forall c :: CleanOpinion([c]) == if c in Punctuation then [] else [LowerChar(c)]
  {
    forall a, b
      ensures CleanOpinion(a + b) == CleanOpinion(a) + CleanOpinion(b)
    {
      RemovePunctuationAppend(a, b);
      LowerAppend(RemovePunctuation(a), RemovePunctuation(b));
    }
    RemovePunctuationAppend([], []);
    var t := RemovePunctuation(opinion);
    RemovePunctuationSpec(opinion);
    forall c | c in Lower(t)
      ensures c !in Punctuation
    {
      var i :| 0 <= i < |t| && Lower(t)[i] == c;
      assert t[i] in t;
      LowerCharKeepsNonPunctuation(t[i]);
    }
    LowerLower(t);
  }

  // ---------------------------------------------------------------------
  // create_corpus
  // ---------------------------------------------------------------------

  /** The opinions of one entry, each passed through `clean`, in order. */
  function CleanAll(opinions: seq<string>, clean: string -> string): seq<string>
  {
    seq(|opinions|, j requires 0 <= j < |opinions| => clean(opinions[j]))
  }

  /**
   * Entry after entry, the opinions of each passed through `clean`. The
   * structure of create_corpus does not depend on what the cleaning does,
   * so it is stated and proved for any `clean`.
   */
  function CorpusOf(data: seq<HotelResult>, clean: string -> string): seq<string>
  {
    if data == [] then [] else CorpusOf(data[..|data| - 1], clean) + CleanAll(data[|data| - 1].opinions, clean)
  }

  /** What create_corpus returns. */
  function Corpus(data: seq<HotelResult>): seq<string>
  {
    CorpusOf(data, CleanOpinion)
  }

  /** The number of opinions over all entries. */
  function OpinionCount(data: seq<HotelResult>): nat
  {
    if data == [] then 0 else OpinionCount(data[..|data| - 1]) + |data[|data| - 1].opinions|
  }

  method CreateCorpus(data: seq<HotelResult>) returns (corpus: seq<string>)
    ensures corpus == Corpus(data)
  {
    corpus := [];
    for i := 0 to |data|
      invariant corpus == CorpusOf(data[..i], CleanOpinion)
    {
      var opinions := data[i].opinions;
      for j := 0 to |opinions|
        invariant corpus == CorpusOf(data[..i], CleanOpinion) + CleanAll(opinions[..j], CleanOpinion)
      {
        assert CleanAll(opinions[..j + 1], CleanOpinion) == CleanAll(opinions[..j], CleanOpinion) + [CleanOpinion(opinions[j])];
        corpus := corpus + [CleanOpinion(opinions[j])];
      }
      assert opinions[..|opinions|] == opinions;
      assert data[..i + 1][..i] == data[..i];
    }
    assert data[..|data|] == data;
  }

  /** The corpus of two runs of entries is the corpus of the first followed by that of the second. */
  lemma {:induction false} CorpusAppend(a: seq<HotelResult>, b: seq<HotelResult>, clean: string -> string)
    ensures CorpusOf(a + b, clean) == CorpusOf(a, clean) + CorpusOf(b, clean)
    decreases |b|
  {
    if b == [] {
      assert a + b == a;
    } else {
      var b', x := b[..|b| - 1], b[|b| - 1];
      CorpusAppend(a, b', clean);
      assert (a + b)[..|a + b| - 1] == a + b';
      assert (a + b)[|a + b| - 1] == x;
      var tail := CleanAll(x.opinions, clean);
      assert CorpusOf(a + b, clean) == CorpusOf(a + b', clean) + tail;
      assert CorpusOf(b, clean) == CorpusOf(b', clean) + tail;
      assert (CorpusOf(a, clean) + CorpusOf(b', clean)) + tail == CorpusOf(a, clean) + (CorpusOf(b', clean) + tail);
    }
  }

  /** One corpus string per opinion: the corpus is as long as the data holds opinions. */
  lemma {:induction false} CorpusLength(data: seq<HotelResult>, clean: string -> string)
    ensures |CorpusOf(data, clean)| == OpinionCount(data)
    decreases |data|
  {
    if data != [] {
      CorpusLength(data[..|data| - 1], clean);
    }
  }

  /**
   * Entry order, then opinion order: the `j`-th opinion of the `i`-th entry
   * is cleaned into the corpus right after the opinions of the entries
   * before it.
   */
  lemma {:induction false} CorpusOfIndex(data: seq<HotelResult>, i: nat, j: nat, clean: string -> string)
    requires i < |data| && j < |data[i].opinions|
    ensures OpinionCount(data[..i]) + j < |CorpusOf(data, clean)|
    ensures CorpusOf(data, clean)[OpinionCount(data[..i]) + j] == clean(data[i].opinions[j])
    decreases |data|
  {
    var front := data[..|data| - 1];
    CorpusLength(front, clean);
    if i == |data| - 1 {
      assert data[..i] == front;
    } else {
      CorpusOfIndex(front, i, j, clean);
      assert front[..i] == data[..i] && front[i] == data[i];
    }
  }

  /** The same, for the cleaning create_corpus applies. */
  lemma CorpusIndex(data: seq<HotelResult>, i: nat, j: nat)
    requires i < |data| && j < |data[i].opinions|
    ensures OpinionCount(data[..i]) + j < |Corpus(data)|
    ensures Corpus(data)[OpinionCount(data[..i]) + j] == CleanOpinion(data[i].opinions[j])
  {
    CorpusOfIndex(data, i, j, CleanOpinion);
  }

  /** No corpus string contains a punctuation character, and each is its own lower-case form. */
  lemma {:induction false} CorpusIsClean(data: seq<HotelResult>)
    ensures forall k :: 0 <= k < |Corpus(data)| ==>
      (forall c :: c in Corpus(data)[k] ==> c !in Punctuation) && Lower(Corpus(data)[k]) == Corpus(data)[k]
    decreases |data|
  {
    if data != [] {
      var front := data[..|data| - 1];
      var last := CleanAll(data[|data| - 1].opinions, CleanOpinion);
      CorpusIsClean(front);
      forall j | 0 <= j < |last|
        ensures (forall c :: c in last[j] ==> c !in Punctuation) && Lower(last[j]) == last[j]
      {
        CleanOpinionSpec(data[|data| - 1].opinions[j]);
      }
      assert Corpus(data) == Corpus(front) + last;
      assert forall k :: |Corpus(front)| <= k < |Corpus(data)| ==>
        Corpus(data)[k] == last[k - |Corpus(front)|];
    }
  }

  // ---------------------------------------------------------------------
  // tokenize
  // ---------------------------------------------------------------------

  /** The tokens of every text of the corpus, text after text, as cut by the tokenizer `nlp`. */
  function Tokens(corpus: seq<string>, nlp: string -> seq<string>): seq<string>
  {
    if corpus == [] then [] else Tokens(corpus[..|corpus| - 1], nlp) + nlp(corpus[|corpus| - 1])
  }

  method Tokenize(corpus: seq<string>, nlp: string -> seq<string>) returns (tokens: seq<string>)
    ensures tokens == Tokens(corpus, nlp)
  {
    tokens := [];
    for i := 0 to |corpus|
      invariant tokens == Tokens(corpus[..i], nlp)
    {
      assert corpus[..i + 1][..i] == corpus[..i];
      tokens := tokens + nlp(corpus[i]);
    }
    assert corpus[..|corpus|] == corpus;
  }

  /** Tokenizing two runs of texts gives the tokens of the first, then those of the second. */
  lemma {:induction false} TokensAppend(a: seq<string>, b: seq<string>, nlp: string -> seq<string>)
    ensures Tokens(a + b, nlp) == Tokens(a, nlp) + Tokens(b, nlp)
    decreases |b|
  {
    if b == [] {
      assert a + b == a;
    } else {
      var b', x := b[..|b| - 1], b[|b| - 1];
      TokensAppend(a, b', nlp);
      assert (a + b)[..|a + b| - 1] == a + b';
      assert (a + b)[|a + b| - 1] == x;
      assert Tokens(a + b, nlp) == Tokens(a + b', nlp) + nlp(x);
      assert Tokens(b, nlp) == Tokens(b', nlp) + nlp(x);
      assert (Tokens(a, nlp) + Tokens(b', nlp)) + nlp(x) == Tokens(a, nlp) + (Tokens(b', nlp) + nlp(x));
    }
  }

  // ---------------------------------------------------------------------
  // remove_stop_words
  // ---------------------------------------------------------------------

  /** Whether a token survives: its lower-case form is not a stop word. */
  predicate Kept(token: string, stopWords: set<string>)
  {
    Lower(token) !in stopWords
  }

  /** `[token for token in tokens if token.lower() not in stop_words]`. */
  function RemoveStopWords(tokens: seq<string>, stopWords: set<string>): (r: seq<string>)
    ensures |r| <= |tokens|
    ensures forall t :: t in r <==> t in tokens && Kept(t, stopWords)
  {
    if tokens == [] then []
    else
      var front := RemoveStopWords(tokens[..|tokens| - 1], stopWords);
      var last := tokens[|tokens| - 1];
      assert tokens == tokens[..|tokens| - 1] + [last];
      if Kept(last, stopWords) then front + [last] else front
  }

  /** The positions of the tokens that survive, in increasing order. */
  function KeptPositions(tokens: seq<string>, stopWords: set<string>): (ps: seq<nat>)
    ensures forall k :: 0 <= k < |ps| ==> ps[k] < |tokens|
  {
    if tokens == [] then []
    else
      var n := |tokens| - 1;
      KeptPositions(tokens[..n], stopWords) + (if Kept(tokens[n], stopWords) then [n] else [])
  }

  /** The surviving positions increase, and a position survives exactly when its token is kept. */
  lemma {:induction false} KeptPositionsSpec(tokens: seq<string>, stopWords: set<string>)
    ensures var ps := KeptPositions(tokens, stopWords);
      && (forall k, l :: 0 <= k < l < |ps| ==> ps[k] < ps[l])
      && (forall i :: 0 <= i < |tokens| ==> (i in ps <==> Kept(tokens[i], stopWords)))
    decreases |tokens|
  {
    if tokens != [] {
      var n := |tokens| - 1;
      var front := tokens[..n];
      KeptPositionsSpec(front, stopWords);
      var pf := KeptPositions(front, stopWords);
      var extra := if Kept(tokens[n], stopWords) then [n] else [];
      var ps := KeptPositions(tokens, stopWords);
      assert ps == pf + extra;
      forall i | 0 <= i < |tokens|
        ensures i in ps <==> Kept(tokens[i], stopWords)
      {
        assert (i in ps) == (i in pf || i in extra);
        if i < n {
          assert front[i] == tokens[i];
          assert i !in extra;
        } else {
          assert forall k :: 0 <= k < |pf| ==> pf[k] != n;
        }
      }
    }
  }

  /**
   * The filtered tokens are exactly the tokens at the surviving positions,
   * in their original order; with KeptPositionsSpec, every token whose
   * lower-case form is not a stop word is kept, and nothing else.
   */
  lemma {:induction false} RemoveStopWordsSpec(tokens: seq<string>, stopWords: set<string>)
    ensures var r := RemoveStopWords(tokens, stopWords); var ps := KeptPositions(tokens, stopWords);
      && |ps| == |r|
      && (forall k :: 0 <= k < |ps| ==> r[k] == tokens[ps[k]])
    decreases |tokens|
  {
    if tokens != [] {
      var n := |tokens| - 1;
      var front := tokens[..n];
      RemoveStopWordsSpec(front, stopWords);
      var rf, pf := RemoveStopWords(front, stopWords), KeptPositions(front, stopWords);
      var r, ps := RemoveStopWords(tokens, stopWords), KeptPositions(tokens, stopWords);
      assert ps == pf + (if Kept(tokens[n], stopWords) then [n] else []);
      assert r == rf + (if Kept(tokens[n], stopWords) then [tokens[n]] else []);
      forall k | 0 <= k < |ps|
        ensures r[k] == tokens[ps[k]]
      {
        if k < |pf| {
          assert r[k] == rf[k] == front[pf[k]];
        }
      }
    }
  }

  /** Filtering twice removes nothing more. */
  lemma {:induction false} RemoveStopWordsIdempotent(tokens: seq<string>, stopWords: set<string>)
    ensures RemoveStopWords(RemoveStopWords(tokens, stopWords), stopWords) == RemoveStopWords(tokens, stopWords)
    decreases |tokens|
  {
    if tokens != [] {
      var n := |tokens| - 1;
      var front := RemoveStopWords(tokens[..n], stopWords);
      RemoveStopWordsIdempotent(tokens[..n], stopWords);
      if Kept(tokens[n], stopWords) {
        var r := front + [tokens[n]];
        assert r[..|r| - 1] == front;
      }
    }
  }

  // ---------------------------------------------------------------------
  // write_tokens_to_file
  // ---------------------------------------------------------------------

  /** `"".join(token)`: joining the characters of a token gives the token back. */
  function JoinChars(token: string): (r: string)
    ensures r == token
  {
    if token == [] then [] else [token[0]] + JoinChars(token[1..])
  }

  /** The text write_tokens_to_file writes: the tokens, one per line, with no final newline. */
  function FileText(tokens: seq<string>): string
  {
    Join(seq(|tokens|, i requires 0 <= i < |tokens| => JoinChars(tokens[i])), '\n')
  }

  /** When no token holds a newline and there is at least one token, splitting the text on newlines gives the tokens back. */
  lemma FileTextRoundTrip(tokens: seq<string>)
    requires |tokens| >= 1
    requires forall i :: 0 <= i < |tokens| ==> '\n' !in tokens[i]
    ensures Split(FileText(tokens), '\n') == tokens
  {
    assert seq(|tokens|, i requires 0 <= i < |tokens| => JoinChars(tokens[i])) == tokens;
    SplitJoin(tokens, '\n');
  }

  /** No tokens and one empty token are written as the same empty text, which splits into one empty token. */
  lemma FileTextEmpty()
    ensures FileText([]) == FileText([""]) == ""
    ensures Split("", '\n') == [""]
  {
  }

  // ---------------------------------------------------------------------
  // analyze_and_visualize: the two counts
  // ---------------------------------------------------------------------

  /** The total and distinct numbers of words printed by the analysis step. */
  datatype Counts = Counts(wordCount: nat, uniqueWords: nat)

  /** The distinct tokens, `set(flattened_tokens)`. */
  function Vocabulary(tokens: seq<string>): set<string>
  {
    set t | t in tokens
  }

  predicate NoDuplicates(tokens: seq<string>)
  {
    forall i, j :: 0 <= i < j < |tokens| ==> tokens[i] != tokens[j]
  }

  /** One more token adds at most that token to the vocabulary. */
  lemma VocabularySnoc(front: seq<string>, last: string)
    ensures Vocabulary(front + [last]) == Vocabulary(front) + {last}
  {
    var tokens := front + [last];
    assert forall t :: t in tokens <==> t in front || t == last;
  }

  /** One more token keeps the tokens distinct exactly when it is new. */
  lemma NoDuplicatesSnoc(front: seq<string>, last: string)
    ensures NoDuplicates(front + [last]) <==> NoDuplicates(front) && last !in front
  {
    var tokens := front + [last];
    var n := |front|;
    if last in front {
      var i :| 0 <= i < n && front[i] == last;
      assert tokens[i] == tokens[n];
    }
    if NoDuplicates(tokens) {
      forall i, j | 0 <= i < j < n
        ensures front[i] != front[j]
      {
        assert tokens[i] == front[i] && tokens[j] == front[j];
      }
    }
    if NoDuplicates(front) && last !in front {
      forall i, j | 0 <= i < j < |tokens|
        ensures tokens[i] != tokens[j]
      {
        assert tokens[i] == front[i];
        if j < n {
          assert tokens[j] == front[j];
        }
      }
    }
  }

  /** There are never more distinct words than words, and as many exactly when no word repeats. */
  lemma {:induction false} VocabularySize(tokens: seq<string>)
    ensures |Vocabulary(tokens)| <= |tokens|
    ensures |Vocabulary(tokens)| == |tokens| <==> NoDuplicates(tokens)
    decreases |tokens|
  {
    if tokens != [] {
      var n := |tokens| - 1;
      var front, last := tokens[..n], tokens[n];
      assert tokens == front + [last];
      VocabularySize(front);
      VocabularySnoc(front, last);
      NoDuplicatesSnoc(front, last);
      if last in front {
        assert Vocabulary(tokens) == Vocabulary(front);
      }
    }
  }

  /** `word_count` and `unique_words` of analyze_and_visualize. */
  function Analyze(tokens: seq<string>): (c: Counts)
    ensures c.wordCount == |tokens|
    ensures c.uniqueWords == |Vocabulary(tokens)|
    ensures c.uniqueWords <= c.wordCount
    ensures c.uniqueWords == c.wordCount <==> NoDuplicates(tokens)
  {
    var flattened := seq(|tokens|, i requires 0 <= i < |tokens| => tokens[i]);
    assert flattened == tokens;
    VocabularySize(tokens);
    Counts(|flattened|, |Vocabulary(flattened)|)
  }
}
