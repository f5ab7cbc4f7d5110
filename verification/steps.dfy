/** The three loops both trainers share (`count_words`, `find_pairs` and
    `merge_pair`), written as the loops they are and proved equal to the
    functions of `Learner` that specify them. */
module Steps {
  import opened Strings
  import opened Counts
  import opened Learner

  /** The loop of `count_words` over `clean_text.split()`: each word gets the
      end marker `_` and is counted in a `defaultdict(int)`. */
  method CountWords(clean: string) returns (freqs: Dict<string>)
    ensures freqs == Tally(Split(clean))
    ensures forall w :: Get(freqs, w + "_") == multiset(Split(clean))[w]
  {
    var words := Split(clean);
    freqs := [];
    var i := 0;
    while i < |words|
      invariant i <= |words|
      invariant freqs == Tally(words[..i])
    {
      var word := words[i] + "_";
      assert words[..i + 1][..i] == words[..i];
      freqs := Add(freqs, word, 1);
      i := i + 1;
    }
    assert words[..|words|] == words;
    forall w ensures Get(freqs, w + "_") == multiset(words)[w] {
      TallyCounts(words, w);
    }
  }

  /** `find_pairs`: for every word, in table order, and every neighbouring
      position in it, the word's count is added to the pair found there. */
  method FindPairs(wordDict: Dict<string>) returns (pairs: Dict<Pair>)
    ensures pairs == PairCounts(wordDict)
    ensures Distinct(Keys(pairs))
    ensures forall p :: Get(pairs, p) == Weighted(wordDict, p)
  {
    pairs := [];
    var k := 0;
    while k < |wordDict|
      invariant k <= |wordDict|
      invariant pairs == PairCounts(wordDict[..k])
    {
      var (word, count) := wordDict[k];
      var tokens := Split(word);
      ghost var before := pairs;
      var i := 0;
      while i < |tokens| - 1
        invariant i <= Positions(tokens)
        invariant pairs == AddWordPairs(before, tokens, count, i)
      {
        var pair := (tokens[i], tokens[i + 1]);
        pairs := Add(pairs, pair, count);
        i := i + 1;
      }
      assert wordDict[..k + 1][..k] == wordDict[..k];
      k := k + 1;
    }
    assert wordDict[..|wordDict|] == wordDict;
    PairCountsDistinct(wordDict);
    forall p ensures Get(pairs, p) == Weighted(wordDict, p) {
      PairCountsWeighted(wordDict, p);
    }
  }

  /** `merge_pair`: every key has `' '.join(pair)` replaced by
      `''.join(pair)`, and its count is added under the new key. */
  method MergePair(wordDict: Dict<string>, pair: Pair) returns (newDict: Dict<string>)
    ensures newDict == MergeTable(wordDict, pair)
    ensures Total(newDict) == Total(wordDict)
  {
    var joined, merged := pair.0 + " " + pair.1, pair.0 + pair.1;
    newDict := [];
    var k := 0;
    while k < |wordDict|
      invariant k <= |wordDict|
      invariant newDict == Regroup(Rekeyed(wordDict[..k], pair))
    {
      var (word, count) := wordDict[k];
      var mergedWord := Replace(word, joined, merged);
      ghost var es := Rekeyed(wordDict[..k + 1], pair);
      assert es[..k] == Rekeyed(wordDict[..k], pair);
      assert es[k] == (mergedWord, count);
      newDict := Add(newDict, mergedWord, count);
      k := k + 1;
    }
    assert wordDict[..|wordDict|] == wordDict;
    MergeTableTotal(wordDict, pair);
  }
}
