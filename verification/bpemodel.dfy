/** `BPE` of BPE/BPE.py: a learner built over one text and a merge budget,
    whose `bpe` turns punctuation into spaces and keeps the final word
    table and token vocabulary in its fields. */
module BpeModel {
  import opened Strings
  import opened Counts
  import opened Learner
  import Steps

  class BPE {
    var tokenVocab: set<string>
    var wordVocab: Dict<string>
    var numMerges: int
    var text: string

    constructor(text: string, numMerges: int)
      ensures this.text == text && this.numMerges == numMerges
      ensures tokenVocab == {} && wordVocab == []
    {
      tokenVocab := {};
      wordVocab := [];
      this.numMerges := numMerges;
      this.text := text;
    }

    /** `get_vocab`: every character of the text that is neither punctuation
        nor whitespace, as a one-character token. */
    function GetVocab(): (r: set<string>)
      reads this
      ensures forall t {:trigger t in r} :: t in r <==> |t| == 1 && t[0] in text && !IsPunct(t[0]) && !IsSpace(t[0])
    {
      PunctToSpaceChars(text);
      Alphabet(PunctToSpace(text))
    }

    /** `count_words`: the words of the text with punctuation turned into
        spaces, each followed by `_`, with the number of times it occurs. */
    method CountWords() returns (freqs: Dict<string>)
      ensures freqs == Tally(Split(PunctToSpace(text)))
      ensures forall w :: Get(freqs, w + "_") == multiset(Split(PunctToSpace(text)))[w]
    {
      freqs := Steps.CountWords(PunctToSpace(text));
    }

    /** `find_pairs`: the frequency of every pair of neighbouring symbols in
        the current word table. */
    method FindPairs() returns (pairs: Dict<Pair>)
      ensures pairs == PairCounts(wordVocab)
      ensures forall p :: Get(pairs, p) == Weighted(wordVocab, p)
    {
      pairs := Steps.FindPairs(wordVocab);
    }

    /** `merge_pair`: the current word table with the pair merged in every key. */
    method MergePair(pair: Pair) returns (newDict: Dict<string>)
      ensures newDict == MergeTable(wordVocab, pair)
      ensures Total(newDict) == Total(wordVocab)
    {
      newDict := Steps.MergePair(wordVocab, pair);
    }

    /** `bpe`: at most `numMerges` rounds of merging the most frequent pair,
        stopping early when no pair is left. The fields end up holding the
        word table and vocabulary of `Learn` on the text with punctuation
        turned into spaces, and are returned; the text and the budget are
        left as they were. */
    method Bpe() returns (wv: Dict<string>, tv: set<string>)
      modifies this
      ensures text == old(text) && numMerges == old(numMerges)
      ensures wordVocab == Learn(PunctToSpace(text), numMerges).words
      ensures tokenVocab == Learn(PunctToSpace(text), numMerges).vocab
      ensures wv == wordVocab && tv == tokenVocab
    {
      ghost var goal := Learn(PunctToSpace(text), numMerges);
      tokenVocab := GetVocab();
      var wordFreqs := CountWords();
      wordVocab := InitialTable(wordFreqs);
      assert wordVocab == InitialWords(PunctToSpace(text));
      assert tokenVocab == Alphabet(PunctToSpace(text));
      var i := 0;
      ghost var left := numMerges;
      while i < numMerges
        modifies this`wordVocab, this`tokenVocab
        invariant left == numMerges - i
        invariant Learner.Train(wordVocab, tokenVocab, left).words == goal.words
        invariant Learner.Train(wordVocab, tokenVocab, left).vocab == goal.vocab
      {
        var pairFreqs := FindPairs();
        if pairFreqs == [] {
          break;
        }
        var bestPair := pairFreqs[FirstMax(pairFreqs)].0;
        ghost var next := left - 1;
        TrainStep(wordVocab, tokenVocab, left, next);
        var mergedToken := bestPair.0 + bestPair.1;
        tokenVocab := tokenVocab + {mergedToken};
        wordVocab := MergePair(bestPair);
        i, left := i + 1, next;
      }
      wv, tv := wordVocab, tokenVocab;
    }
  }

  /** The two trainers learn the same table and vocabulary from a text
      without punctuation. */
  lemma TrainersAgree(text: string, numMerges: int)
    requires forall i :: 0 <= i < |text| ==> !IsPunct(text[i])
    ensures Learn(StripPunct(text), numMerges) == Learn(PunctToSpace(text), numMerges)
  {
    NoPunctUnchanged(text);
  }

  /** Punctuation between letters separates words for `BPE`: "a,b" is the
      two words "a" and "b". */
  lemma PunctuationSeparates()
    ensures Split(PunctToSpace("a,b")) == ["a", "b"]
  {
    assert IsPunct(',') && !IsPunct('a') && !IsPunct('b');
    assert !IsSpace('a') && !IsSpace('b') && IsSpace(' ');
    var comma, spaced := "a,b", "a b";
    assert comma == ['a', ','] + ['b'] && spaced == ['a', ' '] + ['b'];
    assert PunctToSpace(comma) == spaced by {
      assert comma[1..] == [','] + ['b'] && comma[2..] == ['b'];
    }
    assert ['b'][1..] == [] && [] + ['b'] == ['b'];
    assert SplitAfter(['b'], []) == SplitAfter([], ['b']) == ["b"];
    assert [] + [spaced[0]] == ['a'] && spaced[1..] == [' '] + ['b'];
    assert SplitAfter(spaced, []) == SplitAfter(spaced[1..], ['a']);
    assert SplitAfter(spaced[1..], ['a']) == [['a']] + SplitAfter(['b'], []);
  }

  /** Punctuation between letters joins words for `BPETokenizer`: "a,b" is
      the one word "ab". */
  lemma PunctuationJoins()
    ensures Split(StripPunct("a,b")) == ["ab"]
  {
    assert IsPunct(',') && !IsPunct('a') && !IsPunct('b');
    assert !IsSpace('a') && !IsSpace('b');
    var comma, joined := "a,b", "ab";
    assert comma == ['a', ','] + ['b'] && joined == ['a'] + ['b'];
    assert StripPunct(comma) == joined by {
      assert comma[1..] == [','] + ['b'] && comma[2..] == ['b'];
    }
    assert [] + [joined[0]] == ['a'] && ['a'] + ['b'] == ['a', 'b'];
    assert joined[1..] == ['b'] && ['b'][1..] == [];
    assert SplitAfter(joined, []) == SplitAfter(['b'], ['a']);
    assert SplitAfter(['b'], ['a']) == SplitAfter([], ['a', 'b']) == ["ab"];
  }
}
