/** The text normalisation of `TextProcessor`: `clean_text`, `remove_stopwords`,
    `lemmatize`, the `process_text` pipeline and the length bound and de-duplication
    of `extract_keywords`. NLTK's tokeniser and lemmatiser, its English stop-word
    list and spaCy's keyword candidates are parameters. */
module TextProcessor {
  import opened Strings
  import opened Optional

  /** No element occurs twice. */
  predicate Distinct<T(==)>(s: seq<T>) {
    forall i, j :: 0 <= i < j < |s| ==> s[i] != s[j]
  }

  /** `re.sub(r'[^a-zA-Z\s]', '', s)`: drop every character that is neither an ASCII
      letter nor white space. */
  function KeepLettersAndSpaces(s: string): (r: string)
    ensures forall i :: 0 <= i < |r| ==> (IsAsciiLetter(r[i]) || IsSpace(r[i])) && r[i] in s
    ensures |r| <= |s|
    ensures IsSubsequence(r, s)
    ensures forall c :: IsAsciiLetter(c) || IsSpace(c) ==> multiset(r)[c] == multiset(s)[c]
  {
    if s == [] then []
    else
      var rest := KeepLettersAndSpaces(s[1..]);
      assert s == [s[0]] + s[1..];
      assert forall i :: 0 <= i < |rest| ==> rest[i] in s by {
        forall i | 0 <= i < |rest| ensures rest[i] in s {
          var k :| 0 <= k < |s[1..]| && s[1..][k] == rest[i];
          assert s[k + 1] == rest[i];
        }
      }
      if IsAsciiLetter(s[0]) || IsSpace(s[0]) then [s[0]] + rest else rest
  }

  lemma {:induction false} KeepLettersAndSpacesOfClean(s: string)
    requires forall i :: 0 <= i < |s| ==> IsLowerLetter(s[i]) || s[i] == ' '
    ensures KeepLettersAndSpaces(s) == s
  {
    if s != [] {
      KeepLettersAndSpacesOfClean(s[1..]);
    }
  }

  /** `clean_text`: lower-case, drop what is not an ASCII letter or white space, and
      collapse white space to single spaces. The result holds only `a`-`z` and spaces,
      and no space at an end or next to another. */
  function CleanText(text: string): (r: string)
    ensures forall i :: 0 <= i < |r| ==> IsLowerLetter(r[i]) || r[i] == ' '
    ensures SingleSpaced(r)
  {
    var lowered := Lower(text);
    var kept := KeepLettersAndSpaces(lowered);
    var words := Split(kept);
    assert forall i, j :: 0 <= i < |words| && 0 <= j < |words[i]| ==> IsLowerLetter(words[i][j]) by {
      forall i, j | 0 <= i < |words| && 0 <= j < |words[i]| ensures IsLowerLetter(words[i][j]) {
        var c := words[i][j];
        assert !IsSpace(c);
        var k :| 0 <= k < |kept| && kept[k] == c;
        var m :| 0 <= m < |lowered| && lowered[m] == c;
      }
    }
    JoinOfLowerWords(words);
    Join(words)
  }

  /** The words of the cleaned text are the words of the filtered, lower-cased text. */
  lemma CleanTextWords(text: string)
    ensures Split(CleanText(text)) == Split(KeepLettersAndSpaces(Lower(text)))
  {
    SplitJoin(Split(KeepLettersAndSpaces(Lower(text))));
  }

  /** Cleaning is idempotent. */
  lemma CleanTextIdempotent(text: string)
    ensures CleanText(CleanText(text)) == CleanText(text)
  {
    var c := CleanText(text);
    LowerOfLowercase(c);
    KeepLettersAndSpacesOfClean(c);
    CleanTextWords(text);
  }

  /** `s` can be obtained from `t` by deleting elements. */
  predicate IsSubsequence<T(==)>(s: seq<T>, t: seq<T>)
    decreases |t|
  {
    if s == [] then true
    else if t == [] then false
    else if s[0] == t[0] then IsSubsequence(s[1..], t[1..])
    else IsSubsequence(s, t[1..])
  }

  /** `remove_stopwords`: the tokens that are not stop words, in their order; every
      occurrence of a non-stop token is kept. */
  function RemoveStopwords(tokens: seq<string>, stopWords: set<string>): (r: seq<string>)
    ensures IsSubsequence(r, tokens)
    ensures forall i :: 0 <= i < |r| ==> r[i] !in stopWords
    ensures forall w :: w !in stopWords ==> multiset(r)[w] == multiset(tokens)[w]
  {
    if tokens == [] then []
    else
      var rest := RemoveStopwords(tokens[1..], stopWords);
      assert tokens == [tokens[0]] + tokens[1..];
      if tokens[0] in stopWords then
        assert rest != [] ==> rest[0] != tokens[0];
        rest
      else
        [tokens[0]] + rest
  }

  /** No stop word survives, and every non-stop token does. */
  lemma RemoveStopwordsExact(tokens: seq<string>, stopWords: set<string>, w: string)
    ensures w in RemoveStopwords(tokens, stopWords) <==> w in tokens && w !in stopWords
  {
    var r := RemoveStopwords(tokens, stopWords);
    if w in r {
      assert multiset(r)[w] > 0;
    }
    if w in tokens && w !in stopWords {
      assert multiset(tokens)[w] > 0;
    }
  }

  /** `lemmatize`: the lemmatiser applied to every token. */
  function Lemmatize(tokens: seq<string>, lemmaOf: string -> string): (r: seq<string>)
    ensures |r| == |tokens|
    ensures forall i :: 0 <= i < |r| ==> r[i] == lemmaOf(tokens[i])
  {
    seq(|tokens|, i requires 0 <= i < |tokens| => lemmaOf(tokens[i]))
  }

  /** `process_text`: clean, tokenise, then remove stop words if `removeStop`, then
      lemmatise if `lemmatize`. */
  function ProcessText(text: string, removeStop: bool, lemmatize: bool, stopWords: set<string>,
                       tokenize: string -> seq<string>, lemmaOf: string -> string): seq<string>
  {
    var cleaned := CleanText(text);
    var tokens := tokenize(cleaned);
    var tokens := if removeStop then RemoveStopwords(tokens, stopWords) else tokens;
    var tokens := if lemmatize then Lemmatize(tokens, lemmaOf) else tokens;
    tokens
  }

  /** Cleaning is the first step: processing cleaned text is processing the text. */
  lemma ProcessTextOfCleaned(text: string, removeStop: bool, lemmatize: bool, stopWords: set<string>,
                             tokenize: string -> seq<string>, lemmaOf: string -> string)
    ensures ProcessText(CleanText(text), removeStop, lemmatize, stopWords, tokenize, lemmaOf)
         == ProcessText(text, removeStop, lemmatize, stopWords, tokenize, lemmaOf)
  {
    CleanTextIdempotent(text);
  }

  /** Stop words are removed before lemmatising: without lemmatising no stop word is
      left, and lemmatising keeps the number of surviving tokens. */
  lemma ProcessTextStopWords(text: string, lemmatize: bool, stopWords: set<string>,
                             tokenize: string -> seq<string>, lemmaOf: string -> string)
    ensures var r := ProcessText(text, true, lemmatize, stopWords, tokenize, lemmaOf);
            && |r| == |RemoveStopwords(tokenize(CleanText(text)), stopWords)|
            && (!lemmatize ==> forall i :: 0 <= i < |r| ==> r[i] !in stopWords)
  {
  }

  /** `lst[:n]`. */
  function Take<T>(s: seq<T>, n: nat): (r: seq<T>)
    ensures |r| == if |s| <= n then |s| else n
    ensures r == s[..|r|]
    ensures |s| <= n ==> r == s
  {
    if |s| <= n then s else s[..n]
  }

  /** The distinct elements of `s` in order of first occurrence (the model's choice
      for the iteration order of `set(s)`, and the key order of `FreqDist`). */
  function Dedup(s: seq<string>): (r: seq<string>)
    ensures Distinct(r)
    ensures forall x :: x in r <==> x in s
    ensures |r| <= |s|
  {
    if s == [] then []
    else
      var d := Dedup(s[..|s| - 1]);
      assert s == s[..|s| - 1] + [s[|s| - 1]];
      if s[|s| - 1] in d then d else d + [s[|s| - 1]]
  }

  /** Number of occurrences of `w` in `tokens`. */
  function Count(tokens: seq<string>, w: string): nat {
    multiset(tokens)[w]
  }

  /** Counts never increase along `s`. */
  predicate ByCountDescending(s: seq<string>, tokens: seq<string>) {
    forall i, j :: 0 <= i < j < |s| ==> Count(tokens, s[i]) >= Count(tokens, s[j])
  }

  /** Inserts `w` after every element whose count is not smaller (so ties keep their
      earlier order). */
  function InsertByCount(w: string, s: seq<string>, tokens: seq<string>): (r: seq<string>)
    ensures |r| == |s| + 1
    ensures forall x :: x in r <==> x == w || x in s
    ensures ByCountDescending(s, tokens) ==> ByCountDescending(r, tokens)
    ensures Distinct(s) && w !in s ==> Distinct(r)
  {
    if s == [] then [w]
    else if Count(tokens, s[0]) >= Count(tokens, w) then
      var rest := InsertByCount(w, s[1..], tokens);
      InsertAfterHead(w, s, rest, tokens);
      [s[0]] + rest
    else
      InsertBeforeHead(w, s, tokens);
      [w] + s
  }

  /** The recursive case of `InsertByCount`: keeping the head in front of `rest`,
      the insertion into the tail, keeps the order and the distinctness. */
  lemma InsertAfterHead(w: string, s: seq<string>, rest: seq<string>, tokens: seq<string>)
    requires s != [] && Count(tokens, s[0]) >= Count(tokens, w)
    requires forall x :: x in rest <==> x == w || x in s[1..]
    requires ByCountDescending(s[1..], tokens) ==> ByCountDescending(rest, tokens)
    requires Distinct(s[1..]) && w !in s[1..] ==> Distinct(rest)
    ensures forall x :: x in [s[0]] + rest <==> x == w || x in s
    ensures ByCountDescending(s, tokens) ==> ByCountDescending([s[0]] + rest, tokens)
    ensures Distinct(s) && w !in s ==> Distinct([s[0]] + rest)
  {
    assert s == [s[0]] + s[1..];
    if ByCountDescending(s, tokens) {
      TailDescending(s, tokens);
      HeadDescending(w, s, rest, tokens);
    }
    if Distinct(s) && w !in s {
      TailDistinct(s);
      assert s[0] !in rest;
      HeadDistinct(s[0], rest);
    }
  }

  lemma TailDescending(s: seq<string>, tokens: seq<string>)
    requires s != [] && ByCountDescending(s, tokens)
    ensures ByCountDescending(s[1..], tokens)
  {
    forall i, j | 0 <= i < j < |s[1..]| ensures Count(tokens, s[1..][i]) >= Count(tokens, s[1..][j]) {
      assert s[1..][i] == s[i + 1] && s[1..][j] == s[j + 1];
    }
  }

  lemma TailDistinct(s: seq<string>)
    requires s != [] && Distinct(s)
    ensures Distinct(s[1..])
  {
    forall i, j | 0 <= i < j < |s[1..]| ensures s[1..][i] != s[1..][j] {
      assert s[1..][i] == s[i + 1] && s[1..][j] == s[j + 1];
    }
  }

  lemma HeadDistinct(x: string, rest: seq<string>)
    requires x !in rest && Distinct(rest)
    ensures Distinct([x] + rest)
  {
    var r := [x] + rest;
    forall i, j | 0 <= i < j < |r| ensures r[i] != r[j] {
      assert r[j] == rest[j - 1];
      if i > 0 { assert r[i] == rest[i - 1]; }
    }
  }

  lemma HeadDescending(w: string, s: seq<string>, rest: seq<string>, tokens: seq<string>)
    requires s != [] && Count(tokens, s[0]) >= Count(tokens, w)
    requires forall x :: x in rest ==> x == w || x in s[1..]
    requires ByCountDescending(s, tokens) && ByCountDescending(rest, tokens)
    ensures ByCountDescending([s[0]] + rest, tokens)
  {
    var r := [s[0]] + rest;
    forall i, j | 0 <= i < j < |r| ensures Count(tokens, r[i]) >= Count(tokens, r[j]) {
      assert r[j] == rest[j - 1];
      if i == 0 {
        assert r[j] in rest;
        if r[j] != w {
          var k :| 0 <= k < |s[1..]| && s[1..][k] == r[j];
          assert s[k + 1] == r[j];
        }
      } else {
        assert r[i] == rest[i - 1];
      }
    }
  }

  /** The other case: a word counted more often than the head goes in front. */
  lemma InsertBeforeHead(w: string, s: seq<string>, tokens: seq<string>)
    requires s != [] && Count(tokens, s[0]) < Count(tokens, w)
    ensures ByCountDescending(s, tokens) ==> ByCountDescending([w] + s, tokens)
    ensures Distinct(s) && w !in s ==> Distinct([w] + s)
  {
    var r := [w] + s;
    if ByCountDescending(s, tokens) {
      forall i, j | 0 <= i < j < |r| ensures Count(tokens, r[i]) >= Count(tokens, r[j]) {
        assert r[j] == s[j - 1];
        if i > 0 { assert r[i] == s[i - 1]; }
        else if j > 1 { assert Count(tokens, s[0]) >= Count(tokens, s[j - 1]); }
      }
    }
  }

  /** Stable sort by count, highest first. */
  function SortByCount(s: seq<string>, tokens: seq<string>): (r: seq<string>)
    ensures |r| == |s|
    ensures forall x :: x in r <==> x in s
    ensures ByCountDescending(r, tokens)
    ensures Distinct(s) ==> Distinct(r)
  {
    if s == [] then []
    else
      var init := s[..|s| - 1];
      assert s == init + [s[|s| - 1]];
      assert Distinct(s) ==> s[|s| - 1] !in init;
      InsertByCount(s[|s| - 1], SortByCount(init, tokens), tokens)
  }

  /** `nltk.FreqDist(tokens).most_common(n)`, keeping the words only: `n` distinct
      tokens (all of them when there are fewer), most frequent first, and no token
      left out is more frequent than one taken. */
  function MostCommon(tokens: seq<string>, n: nat): (r: seq<string>)
    ensures |r| == if |Dedup(tokens)| <= n then |Dedup(tokens)| else n
    ensures Distinct(r)
    ensures ByCountDescending(r, tokens)
    ensures forall i :: 0 <= i < |r| ==> r[i] in tokens
    ensures forall w, i :: w in tokens && w !in r && 0 <= i < |r| ==> Count(tokens, w) <= Count(tokens, r[i])
  {
    var sorted := SortByCount(Dedup(tokens), tokens);
    var r := Take(sorted, n);
    assert forall i :: 0 <= i < |r| ==> r[i] == sorted[i];
    PrefixOutranksRest(sorted, |r|, tokens);
    r
  }

  /** In a list ordered by count, every element after a prefix counts no more than
      each element of the prefix. */
  lemma PrefixOutranksRest(sorted: seq<string>, k: nat, tokens: seq<string>)
    requires k <= |sorted| && ByCountDescending(sorted, tokens)
    ensures forall w, i :: w in sorted && w !in sorted[..k] && 0 <= i < k ==>
              Count(tokens, w) <= Count(tokens, sorted[..k][i])
  {
    forall w, i | w in sorted && w !in sorted[..k] && 0 <= i < k
      ensures Count(tokens, w) <= Count(tokens, sorted[..k][i])
    {
      var j :| 0 <= j < |sorted| && sorted[j] == w;
      assert sorted[..k][i] == sorted[i];
    }
  }

  /** `extract_keywords`. With spaCy loaded (`spacyKeywords` holds the lower-cased
      noun chunks, entities and non-stop nouns and verbs it found) the first `topN`
      distinct candidates; otherwise the `topN` most frequent processed tokens. */
  function ExtractKeywords(text: string, topN: nat, spacyKeywords: Option<seq<string>>,
                           stopWords: set<string>, tokenize: string -> seq<string>,
                           lemmaOf: string -> string): (r: seq<string>)
    ensures |r| <= topN
    ensures Distinct(r)
    ensures spacyKeywords.Some? ==> forall i :: 0 <= i < |r| ==> r[i] in spacyKeywords.value
    ensures spacyKeywords.Some? ==>
      var distinct := |Dedup(spacyKeywords.value)|;
      |r| == if distinct <= topN then distinct else topN
    ensures spacyKeywords.None? ==>
      r == MostCommon(ProcessText(text, true, true, stopWords, tokenize, lemmaOf), topN)
  {
    match spacyKeywords
    case Some(candidates) =>
      var d := Dedup(candidates);
      var r := Take(d, topN);
      assert forall i :: 0 <= i < |r| ==> r[i] == d[i];
      r
    case None =>
      MostCommon(ProcessText(text, true, true, stopWords, tokenize, lemmaOf), topN)
  }

}
