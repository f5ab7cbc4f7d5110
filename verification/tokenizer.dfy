/** `BPETokenizer` of BPE.py: a learner whose `train` deletes punctuation
    from the text and keeps the final word table and token vocabulary in
    its fields. */
module Tokenizer {
  import opened Strings
  import opened Counts
  import opened Learner
  import Steps

  class BPETokenizer {
    var wordVocab: Dict<string>
    var tokenVocab: set<string>

    constructor()
      ensures wordVocab == [] && tokenVocab == {}
    {
      wordVocab := [];
      tokenVocab := {};
    }

    /** `get_vocab`: every character of the text that is neither punctuation
        nor whitespace, as a one-character token. */
    function GetVocab(text: string): (r: set<string>)
      ensures forall t {:trigger t in r} :: t in r <==> |t| == 1 && t[0] in text && !IsPunct(t[0]) && !IsSpace(t[0])
    {
      Alphabet(StripPunct(text))
    }

    /** `count_words`: the words of the text with punctuation deleted, each
        followed by `_`, with the number of times it occurs. */
    method CountWords(text: string) returns (freqs: Dict<string>)
      ensures freqs == Tally(Split(StripPunct(text)))
      ensures forall w :: Get(freqs, w + "_") == multiset(Split(StripPunct(text)))[w]
    {
      freqs := Steps.CountWords(StripPunct(text));
    }

    /** `find_pairs`: the frequency of every pair of neighbouring symbols. */
    method FindPairs(wordDict: Dict<string>) returns (pairs: Dict<Pair>)
      ensures pairs == PairCounts(wordDict)
      ensures forall p :: Get(pairs, p) == Weighted(wordDict, p)
    {
      pairs := Steps.FindPairs(wordDict);
    }

    /** `merge_pair`: the table with the pair merged in every key. */
    method MergePair(wordDict: Dict<string>, pair: Pair) returns (newDict: Dict<string>)
      ensures newDict == MergeTable(wordDict, pair)
      ensures Total(newDict) == Total(wordDict)
    {
      newDict := Steps.MergePair(wordDict, pair);
    }

    /** `train`: at most `numMerges` rounds of merging the most frequent pair,
        stopping early when no pair is left. The fields end up holding the
        word table and vocabulary of `Learn` on the text with punctuation
        deleted, and are returned. */
    method Train(text: string, numMerges: int) returns (wv: Dict<string>, tv: set<string>)
      modifies this
      ensures wordVocab == Learn(StripPunct(text), numMerges).words
      ensures tokenVocab == Learn(StripPunct(text), numMerges).vocab
      ensures wv == wordVocab && tv == tokenVocab
    {
      ghost var goal := Learn(StripPunct(text), numMerges);
      tokenVocab := GetVocab(text);
      var wordFreqs := CountWords(text);
      wordVocab := InitialTable(wordFreqs);
      assert wordVocab == InitialWords(StripPunct(text));
      assert tokenVocab == Alphabet(StripPunct(text));
      var i := 0;
      ghost var left := numMerges;
      while i < numMerges
        invariant left == numMerges - i
        invariant Learner.Train(wordVocab, tokenVocab, left).words == goal.words
        invariant Learner.Train(wordVocab, tokenVocab, left).vocab == goal.vocab
      {
        var pairFreqs := FindPairs(wordVocab);
        if pairFreqs == [] {
          break;
        }
        var bestPair := pairFreqs[FirstMax(pairFreqs)].0;
        ghost var next := left - 1;
        TrainStep(wordVocab, tokenVocab, left, next);
        var mergedToken := bestPair.0 + bestPair.1;
        tokenVocab := tokenVocab + {mergedToken};
        wordVocab := MergePair(wordVocab, bestPair);
        i, left := i + 1, next;
      }
      wv, tv := wordVocab, tokenVocab;
    }
  }
}
