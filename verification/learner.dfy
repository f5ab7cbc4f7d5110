/** The BPE training loop as functions over values: word counting, the
    initial word table, pair counting, best-pair selection, merging and the
    bounded merge loop, with the properties the loop guarantees. Both
    trainers (`BPETokenizer` in BPE.py and `BPE` in BPE/BPE.py) are proved
    against these functions. */
module Learner {
  import opened Strings
  import opened Counts

  /** A pair of neighbouring symbols, `(tokens[i], tokens[i + 1])`. */
  type Pair = (string, string)

  // ---------------------------------------------------------------------
  // Word counting and the initial tables

  /** A word of the cleaned text: symbols without whitespace or punctuation. */
  predicate CleanWord(w: string) {
    IsToken(w) && forall i :: 0 <= i < |w| ==> !IsPunct(w[i])
  }

  /** A key of `count_words`: a clean word followed by the end marker `_`,
      which occurs nowhere else in it since `_` is punctuation. */
  predicate WordKey(k: string) {
    |k| >= 2 && k[|k| - 1] == '_' && CleanWord(k[..|k| - 1])
  }

  /** The counting loop of `count_words`: every word, suffixed with `_`,
      counted in the order the words are first seen. */
  function Tally(words: seq<string>): Dict<string> {
    if words == [] then []
    else Add(Tally(words[..|words| - 1]), words[|words| - 1] + "_", 1)
  }

  /** `count_words` on clean words: distinct keys, each a word key. */
  lemma {:induction false} TallyKeys(words: seq<string>)
    requires forall i :: 0 <= i < |words| ==> CleanWord(words[i])
    ensures Distinct(Keys(Tally(words)))
    ensures forall k :: k in Keys(Tally(words)) ==> WordKey(k)
  {
    if words != [] {
      var n := |words|;
      var init := words[..n - 1];
      var key := words[n - 1] + "_";
      TallyKeys(init);
      var prev := Tally(init);
      assert Tally(words) == Add(prev, key, 1);
      AddDistinct(prev, key, 1);
      AddKeys(prev, key, 1);
      assert WordKey(key) by {
        assert key[..|key| - 1] == words[n - 1];
        assert CleanWord(words[n - 1]);
      }
    }
  }

  /** `count_words` counts every key at least once, and as many times in all
      as there are words. */
  lemma {:induction false} TallyTotal(words: seq<string>)
    ensures forall j :: 0 <= j < |Tally(words)| ==> Tally(words)[j].1 >= 1
    ensures Total(Tally(words)) == |words|
  {
    if words != [] {
      var n := |words|;
      var init := words[..n - 1];
      var key := words[n - 1] + "_";
      TallyTotal(init);
      var prev := Tally(init);
      assert Tally(words) == Add(prev, key, 1);
      AddTotal(prev, key, 1);
      AddKeys(prev, key, 1);
      if key !in Keys(prev) {
        AddNew(prev, key, 1);
      }
    }
  }

  /** `count_words` counts each word as often as it occurs. */
  lemma {:induction false} TallyCounts(words: seq<string>, w: string)
    ensures Get(Tally(words), w + "_") == multiset(words)[w]
  {
    if words != [] {
      var n := |words|;
      var init, last := words[..n - 1], words[n - 1];
      TallyCounts(init, w);
      var prev := Tally(init);
      assert Tally(words) == Add(prev, last + "_", 1);
      var bump := if w == last then 1 else 0;
      if w + "_" == last + "_" {
        MarkerCancels(w, last);
      }
      GetAdd(prev, last + "_", 1, w + "_");
      assert Get(Tally(words), w + "_") == Get(prev, w + "_") + bump;
      assert words == init + [last];
      assert multiset(words) == multiset(init) + multiset{last};
      assert multiset(words)[w] == multiset(init)[w] + bump;
    }
  }

  lemma MarkerCancels(a: string, b: string)
    requires a + "_" == b + "_"
    ensures a == b
  {
    assert |a| == |b|;
    assert a == (a + "_")[..|a|];
    assert b == (b + "_")[..|b|];
  }

  /** Every entry of `count_words` with its key spelled out by `' '.join`. */
  function Spelled(freqs: Dict<string>): (r: Dict<string>)
    ensures |r| == |freqs|
    ensures forall j :: 0 <= j < |freqs| ==> r[j] == (Spaced(freqs[j].0), freqs[j].1)
  {
    if freqs == [] then [] else [(Spaced(freqs[0].0), freqs[0].1)] + Spelled(freqs[1..])
  }

  /** The word table `train` starts from: every counted word spelled out as
      its characters separated by single spaces, with its count. */
  function InitialTable(freqs: Dict<string>): Dict<string> {
    Assign(Spelled(freqs))
  }

  /** What every word table of a training run satisfies: each key is a
      well-spaced symbol string, and no two keys spell the same word once
      the spaces are removed. */
  predicate WordTable(wd: Dict<string>) {
    && (forall j {:trigger WellSpaced(wd[j].0)} :: 0 <= j < |wd| ==> WellSpaced(wd[j].0))
    && (forall i, j {:trigger NoSpaces(wd[i].0), NoSpaces(wd[j].0)} :: 0 <= i < j < |wd| ==> NoSpaces(wd[i].0) != NoSpaces(wd[j].0))
  }

  /** The keys of a word table are distinct. */
  lemma WordTableKeys(wd: Dict<string>)
    requires WordTable(wd)
    ensures Distinct(Keys(wd))
  {
    var ks := Keys(wd);
    forall i, j | 0 <= i < j < |ks| ensures ks[i] != ks[j] {
      assert NoSpaces(wd[i].0) != NoSpaces(wd[j].0);
    }
  }

  /** Spelling out distinct words gives a word table whose keys spell the
      words. */
  lemma SpelledTable(freqs: Dict<string>)
    requires Distinct(Keys(freqs))
    requires forall j :: 0 <= j < |freqs| ==> IsToken(freqs[j].0)
    ensures forall j :: 0 <= j < |freqs| ==> NoSpaces(Spelled(freqs)[j].0) == freqs[j].0
    ensures WordTable(Spelled(freqs))
  {
    var t := Spelled(freqs);
    forall j | 0 <= j < |t| ensures WellSpaced(t[j].0) && NoSpaces(t[j].0) == freqs[j].0 {
      SpacedWord(freqs[j].0);
    }
    forall i, j | 0 <= i < j < |t| ensures NoSpaces(t[i].0) != NoSpaces(t[j].0) {
      assert Keys(freqs)[i] != Keys(freqs)[j];
    }
  }

  /** Distinct words give distinct spelled-out keys, so the initial table
      keeps every entry, in order, with its count unchanged; it is a word
      table whose keys spell the counted words. */
  lemma InitialTableFacts(freqs: Dict<string>)
    requires Distinct(Keys(freqs))
    requires forall j :: 0 <= j < |freqs| ==> IsToken(freqs[j].0)
    ensures InitialTable(freqs) == Spelled(freqs)
    ensures forall j :: 0 <= j < |freqs| ==> NoSpaces(InitialTable(freqs)[j].0) == freqs[j].0
    ensures WordTable(InitialTable(freqs))
  {
    SpelledTable(freqs);
    WordTableKeys(Spelled(freqs));
    AssignDistinct(Spelled(freqs));
  }

  // ---------------------------------------------------------------------
  // Pair counting

  /** The number of neighbouring positions in a token list (none when it has
      fewer than two tokens). */
  function Positions(toks: seq<string>): nat {
    if |toks| == 0 then 0 else |toks| - 1
  }

  /** The inner loop of `find_pairs` after its first `n` steps over one word
      with symbols `toks` and count `count`. */
  function AddWordPairs(acc: Dict<Pair>, toks: seq<string>, count: int, n: nat): Dict<Pair>
    requires n <= Positions(toks)
  {
    if n == 0 then acc
    else Add(AddWordPairs(acc, toks, count, n - 1), (toks[n - 1], toks[n]), count)
  }

  /** `find_pairs(word_dict)`: every pair of neighbouring symbols, weighted by
      the count of its word, in the order the pairs are first met. */
  function PairCounts(wd: Dict<string>): Dict<Pair> {
    if wd == [] then []
    else
      var toks := Split(wd[|wd| - 1].0);
      AddWordPairs(PairCounts(wd[..|wd| - 1]), toks, wd[|wd| - 1].1, Positions(toks))
  }

  /** How often `p` occurs among the first `n` neighbouring positions of `toks`. */
  function Occurrences(toks: seq<string>, p: Pair, n: nat): nat
    requires n <= Positions(toks)
  {
    if n == 0 then 0
    else Occurrences(toks, p, n - 1) + (if toks[n - 1] == p.0 && toks[n] == p.1 then 1 else 0)
  }

  /** How often `p` occurs as neighbouring symbols in `toks`. */
  function Adjacent(toks: seq<string>, p: Pair): nat {
    Occurrences(toks, p, Positions(toks))
  }

  /** Reference frequency of a pair: the sum over the words of the word's
      count times the pair's occurrences in it. */
  function Weighted(wd: Dict<string>, p: Pair): int {
    if wd == [] then 0
    else Weighted(wd[..|wd| - 1], p) + wd[|wd| - 1].1 * Adjacent(Split(wd[|wd| - 1].0), p)
  }

  lemma {:induction false} AddWordPairsGet(acc: Dict<Pair>, toks: seq<string>, count: int, n: nat, p: Pair)
    requires n <= Positions(toks)
    ensures Get(AddWordPairs(acc, toks, count, n), p) == Get(acc, p) + count * Occurrences(toks, p, n)
  {
    if n > 0 {
      var hit := toks[n - 1] == p.0 && toks[n] == p.1;
      AddWordPairsGet(acc, toks, count, n - 1, p);
      GetAdd(AddWordPairs(acc, toks, count, n - 1), (toks[n - 1], toks[n]), count, p);
      ScaleStep(count, Occurrences(toks, p, n - 1), Occurrences(toks, p, n), hit);
    }
  }

  lemma ScaleStep(c: int, k: int, o: int, hit: bool)
    requires o == k + (if hit then 1 else 0)
    ensures c * o == c * k + (if hit then c else 0)
  {
  }

  /** `find_pairs` gives each pair exactly its reference frequency. */
  lemma {:induction false} PairCountsWeighted(wd: Dict<string>, p: Pair)
    ensures Get(PairCounts(wd), p) == Weighted(wd, p)
  {
    if wd != [] {
      var toks := Split(wd[|wd| - 1].0);
      PairCountsWeighted(wd[..|wd| - 1], p);
      AddWordPairsGet(PairCounts(wd[..|wd| - 1]), toks, wd[|wd| - 1].1, Positions(toks), p);
    }
  }

  lemma {:induction false} AddWordPairsDistinct(acc: Dict<Pair>, toks: seq<string>, count: int, n: nat)
    requires n <= Positions(toks) && Distinct(Keys(acc))
    ensures Distinct(Keys(AddWordPairs(acc, toks, count, n)))
  {
    if n > 0 {
      AddWordPairsDistinct(acc, toks, count, n - 1);
      AddDistinct(AddWordPairs(acc, toks, count, n - 1), (toks[n - 1], toks[n]), count);
    }
  }

  lemma {:induction false} AddWordPairsMember(acc: Dict<Pair>, toks: seq<string>, count: int, n: nat, p: Pair)
    requires n <= Positions(toks)
    ensures p in Keys(AddWordPairs(acc, toks, count, n)) <==> p in Keys(acc) || Occurrences(toks, p, n) > 0
  {
    if n > 0 {
      AddWordPairsMember(acc, toks, count, n - 1, p);
      AddKeys(AddWordPairs(acc, toks, count, n - 1), (toks[n - 1], toks[n]), count);
    }
  }

  lemma {:induction false} AddWordPairsSize(acc: Dict<Pair>, toks: seq<string>, count: int, n: nat)
    requires n <= Positions(toks)
    ensures |AddWordPairs(acc, toks, count, n)| >= |acc|
    ensures n > 0 ==> AddWordPairs(acc, toks, count, n) != []
  {
    if n > 0 {
      var prev := AddWordPairs(acc, toks, count, n - 1);
      AddWordPairsSize(acc, toks, count, n - 1);
      AddTotal(prev, (toks[n - 1], toks[n]), count);
      assert Add(prev, (toks[n - 1], toks[n]), count) != [];
    }
  }

  /** The keys of `find_pairs` are distinct. */
  lemma {:induction false} PairCountsDistinct(wd: Dict<string>)
    ensures Distinct(Keys(PairCounts(wd)))
  {
    if wd != [] {
      var toks := Split(wd[|wd| - 1].0);
      PairCountsDistinct(wd[..|wd| - 1]);
      AddWordPairsDistinct(PairCounts(wd[..|wd| - 1]), toks, wd[|wd| - 1].1, Positions(toks));
    }
  }

  /** A pair is a key of `find_pairs` exactly when it occurs as neighbouring
      symbols in some word. */
  lemma {:induction false} PairCountsMember(wd: Dict<string>, p: Pair)
    ensures p in Keys(PairCounts(wd)) <==> exists j :: 0 <= j < |wd| && Adjacent(Split(wd[j].0), p) > 0
  {
    if wd != [] {
      var n := |wd|;
      var init := wd[..n - 1];
      var toks := Split(wd[n - 1].0);
      PairCountsMember(init, p);
      AddWordPairsMember(PairCounts(init), toks, wd[n - 1].1, Positions(toks), p);
      if exists j :: 0 <= j < n && Adjacent(Split(wd[j].0), p) > 0 {
        var j :| 0 <= j < n && Adjacent(Split(wd[j].0), p) > 0;
        if j < n - 1 {
          assert init[j] == wd[j];
        }
      }
      if exists j :: 0 <= j < n - 1 && Adjacent(Split(init[j].0), p) > 0 {
        var j :| 0 <= j < n - 1 && Adjacent(Split(init[j].0), p) > 0;
        assert init[j] == wd[j];
      }
    }
  }

  /** `find_pairs` returns an empty map exactly when every word has at most one symbol. */
  lemma {:induction false} PairCountsEmpty(wd: Dict<string>)
    ensures PairCounts(wd) == [] <==> forall j :: 0 <= j < |wd| ==> |Split(wd[j].0)| <= 1
  {
    if wd != [] {
      var n := |wd|;
      var init := wd[..n - 1];
      var toks := Split(wd[n - 1].0);
      PairCountsEmpty(init);
      AddWordPairsSize(PairCounts(init), toks, wd[n - 1].1, Positions(toks));
      if forall j :: 0 <= j < n ==> |Split(wd[j].0)| <= 1 {
        forall j | 0 <= j < n - 1 ensures |Split(init[j].0)| <= 1 {
          assert init[j] == wd[j];
        }
      } else {
        var j :| 0 <= j < n && |Split(wd[j].0)| > 1;
        if j < n - 1 {
          assert init[j] == wd[j];
        }
      }
    }
  }

  /** A pair that occurs somewhere occurs at a concrete position. */
  lemma {:induction false} OccurrenceAt(toks: seq<string>, p: Pair, n: nat) returns (i: nat)
    requires n <= Positions(toks) && Occurrences(toks, p, n) > 0
    ensures i + 1 < |toks| && toks[i] == p.0 && toks[i + 1] == p.1
  {
    if toks[n - 1] == p.0 && toks[n] == p.1 {
      i := n - 1;
    } else {
      i := OccurrenceAt(toks, p, n - 1);
    }
  }

  // ---------------------------------------------------------------------
  // Selection and merging

  /** The index of the entry Python's `max` picks when keyed on the value:
      an entry of largest value, the first one in insertion order among
      equals. */
  function FirstMax<K>(d: Dict<K>): (r: nat)
    requires d != []
    ensures r < |d|
    ensures forall j :: 0 <= j < |d| ==> d[j].1 <= d[r].1
    ensures forall j :: 0 <= j < r ==> d[j].1 < d[r].1
  {
    if |d| == 1 then 0
    else
      var m := FirstMax(d[..|d| - 1]);
      if d[|d| - 1].1 > d[m].1 then |d| - 1 else m
  }

  /** A key with every occurrence of the pair's two symbols, separated by a
      space, replaced by the merged symbol. */
  function MergeKey(k: string, p: Pair): string {
    Replace(k, p.0 + " " + p.1, p.0 + p.1)
  }

  /** Every entry of the table with the pair merged in its key. */
  function Rekeyed(wd: Dict<string>, p: Pair): (r: Dict<string>)
    ensures |r| == |wd|
    ensures forall j {:trigger r[j]} :: 0 <= j < |wd| ==> r[j] == (MergeKey(wd[j].0, p), wd[j].1)
  {
    if wd == [] then [] else [(MergeKey(wd[0].0, p), wd[0].1)] + Rekeyed(wd[1..], p)
  }

  /** The table `merge_pair(word_dict, pair)` builds: every key with the pair
      replaced, its count added under the new key. */
  function MergeTable(wd: Dict<string>, p: Pair): Dict<string> {
    Regroup(Rekeyed(wd, p))
  }

  /** `merge_pair` keeps the total of the counts. */
  lemma MergeTableTotal(wd: Dict<string>, p: Pair)
    ensures Total(MergeTable(wd, p)) == Total(wd)
  {
    RegroupTotal(Rekeyed(wd, p));
    TotalEntrywise(Rekeyed(wd, p), wd);
  }

  lemma {:induction false} TotalEntrywise(a: Dict<string>, b: Dict<string>)
    requires |a| == |b| && forall j :: 0 <= j < |a| ==> a[j].1 == b[j].1
    ensures Total(a) == Total(b)
  {
    if a != [] {
      TotalEntrywise(a[1..], b[1..]);
    }
  }

  /** On a word table, merging symbols never makes two keys collide: the
      merged table has the same entries in the same order, each key rewritten
      and each count unchanged, and it is again a word table that spells the
      same words. */
  lemma MergeWordTable(wd: Dict<string>, p: Pair)
    requires WordTable(wd) && IsToken(p.0) && IsToken(p.1)
    ensures |MergeTable(wd, p)| == |wd|
    ensures forall j :: 0 <= j < |wd| ==> MergeTable(wd, p)[j] == (MergeKey(wd[j].0, p), wd[j].1)
    ensures forall j :: 0 <= j < |wd| ==> NoSpaces(MergeTable(wd, p)[j].0) == NoSpaces(wd[j].0)
    ensures WordTable(MergeTable(wd, p))
  {
    var es := Rekeyed(wd, p);
    forall j | 0 <= j < |wd|
      ensures NoSpaces(es[j].0) == NoSpaces(wd[j].0)
      ensures WellSpaced(es[j].0)
    {
      MergeReplaceWord(wd[j].0, p.0, p.1);
      MergeReplaceSpacing(wd[j].0, p.0, p.1);
    }
    assert Distinct(Keys(es));
    RegroupDistinct(es);
  }

  // ---------------------------------------------------------------------
  // Progress: every merge removes at least one separator

  /** The number of separating spaces left in the table's keys. */
  function Separators(wd: Dict<string>): nat {
    if wd == [] then 0 else Spaces(wd[0].0) + Separators(wd[1..])
  }

  lemma {:induction false} SeparatorsShrink(a: Dict<string>, b: Dict<string>, j: nat)
    requires |a| == |b| && j < |a|
    requires forall i :: 0 <= i < |a| ==> Spaces(a[i].0) <= Spaces(b[i].0)
    requires Spaces(a[j].0) < Spaces(b[j].0)
    ensures Separators(a) < Separators(b)
  {
    if j == 0 {
      SeparatorsAtMost(a[1..], b[1..]);
    } else {
      SeparatorsShrink(a[1..], b[1..], j - 1);
    }
  }

  lemma {:induction false} SeparatorsAtMost(a: Dict<string>, b: Dict<string>)
    requires |a| == |b|
    requires forall i :: 0 <= i < |a| ==> Spaces(a[i].0) <= Spaces(b[i].0)
    ensures Separators(a) <= Separators(b)
  {
    if a != [] {
      SeparatorsAtMost(a[1..], b[1..]);
    }
  }

  /** Neighbouring symbols of a split key are tokens. */
  lemma AdjacentTokens(k: string, p: Pair)
    requires Adjacent(Split(k), p) > 0
    ensures IsToken(p.0) && IsToken(p.1)
  {
    var toks := Split(k);
    var i := OccurrenceAt(toks, p, Positions(toks));
    SplitWords(k);
    assert toks[i] in toks && toks[i + 1] in toks;
  }

  /** Merging a pair that occurs in a key removes at least one of its spaces. */
  lemma MergeShrinks(k: string, p: Pair)
    requires WellSpaced(k) && Adjacent(Split(k), p) > 0
    ensures Spaces(MergeKey(k, p)) < Spaces(k)
  {
    var toks := Split(k);
    var i := OccurrenceAt(toks, p, Positions(toks));
    AdjacentTokens(k, p);
    JoinContainsNeighbours(toks, i);
    SplitWellSpaced(k);
    MatchesIffContains(k, p.0 + " " + p.1, p.0 + p.1);
    MergeReplaceSpaces(k, p.0, p.1);
  }

  /** A key in which the pair occurs as neighbouring symbols splits into
      fewer symbols once the pair is merged, and stays well spaced. */
  lemma MergeFewerTokens(k: string, p: Pair)
    requires WellSpaced(k) && Adjacent(Split(k), p) > 0
    ensures WellSpaced(MergeKey(k, p))
    ensures |Split(MergeKey(k, p))| < |Split(k)|
  {
    AdjacentTokens(k, p);
    MergeShrinks(k, p);
    MergeReplaceSpacing(k, p.0, p.1);
    SplitWellSpaced(k);
    SplitWellSpaced(MergeKey(k, p));
  }

  /** Merging any pair `find_pairs` reports strictly reduces the separators,
      which bounds the number of merges that can happen. */
  lemma MergeProgress(wd: Dict<string>, p: Pair)
    requires WordTable(wd) && p in Keys(PairCounts(wd))
    ensures IsToken(p.0) && IsToken(p.1)
    ensures Separators(MergeTable(wd, p)) < Separators(wd)
  {
    PairCountsMember(wd, p);
    var j :| 0 <= j < |wd| && Adjacent(Split(wd[j].0), p) > 0;
    AdjacentTokens(wd[j].0, p);
    MergeWordTable(wd, p);
    var m := MergeTable(wd, p);
    forall i | 0 <= i < |m| ensures Spaces(m[i].0) <= Spaces(wd[i].0) {
      MergeReplaceSpaces(wd[i].0, p.0, p.1);
    }
    MergeShrinks(wd[j].0, p);
    SeparatorsShrink(m, wd, j);
  }

  // ---------------------------------------------------------------------
  // Training

  /** The state the learner ends in: the word table, the token vocabulary
      and, for the proofs, the pairs merged in order. */
  datatype Trace = Trace(words: Dict<string>, vocab: set<string>, merges: seq<Pair>)

  /** The pair the learner merges next. */
  function BestPair(pf: Dict<Pair>): Pair
    requires pf != []
  {
    pf[FirstMax(pf)].0
  }

  /** The merge loop of `train` run for at most `n` rounds from the table `wd`
      and the vocabulary `vocab`: it stops early when no pair is left. */
  function Train(wd: Dict<string>, vocab: set<string>, n: int): Trace
    decreases n, 1
  {
    if n <= 0 || PairCounts(wd) == [] then Trace(wd, vocab, [])
    else TrainRound(wd, vocab, n)
  }

  /** One round of the loop: merge the most frequent pair, add the merged
      token to the vocabulary, and run the remaining rounds. */
  function TrainRound(wd: Dict<string>, vocab: set<string>, n: int): Trace
    requires n > 0 && PairCounts(wd) != []
    decreases n, 0
  {
    var best := BestPair(PairCounts(wd));
    var t := Train(MergeTable(wd, best), vocab + {best.0 + best.1}, n - 1);
    Trace(t.words, t.vocab, [best] + t.merges)
  }

  /** One round of the loop as the training methods take it, with the
      remaining budget `m` passed in. */
  lemma TrainStep(wd: Dict<string>, vocab: set<string>, n: int, m: int)
    requires n > 0 && PairCounts(wd) != [] && m == n - 1
    ensures var best := BestPair(PairCounts(wd));
      && Train(wd, vocab, n).words == Train(MergeTable(wd, best), vocab + {best.0 + best.1}, m).words
      && Train(wd, vocab, n).vocab == Train(MergeTable(wd, best), vocab + {best.0 + best.1}, m).vocab
  {
  }

  /** The tokens a run of merges adds. */
  function MergedTokens(merges: seq<Pair>): set<string> {
    set i | 0 <= i < |merges| :: merges[i].0 + merges[i].1
  }

  /** At most `num_merges` rounds happen, none when it is not positive; the
      vocabulary only grows, by exactly the merged tokens. */
  lemma {:induction false} TrainVocab(wd: Dict<string>, vocab: set<string>, n: int)
    ensures |Train(wd, vocab, n).merges| <= if n < 0 then 0 else n
    ensures n <= 0 ==> Train(wd, vocab, n) == Trace(wd, vocab, [])
    ensures Train(wd, vocab, n).vocab == vocab + MergedTokens(Train(wd, vocab, n).merges)
    decreases n
  {
    if n > 0 && PairCounts(wd) != [] {
      var best := BestPair(PairCounts(wd));
      var v := vocab + {best.0 + best.1};
      var t := Train(MergeTable(wd, best), v, n - 1);
      TrainVocab(MergeTable(wd, best), v, n - 1);
      assert Train(wd, vocab, n) == TrainRound(wd, vocab, n);
      MergedTokensCons(best, t.merges);
    }
  }

  lemma MergedTokensCons(p: Pair, ms: seq<Pair>)
    ensures MergedTokens([p] + ms) == {p.0 + p.1} + MergedTokens(ms)
  {
    var all := [p] + ms;
    forall x | x in MergedTokens(all) ensures x in {p.0 + p.1} + MergedTokens(ms) {
      var i :| 0 <= i < |all| && x == all[i].0 + all[i].1;
      if i > 0 {
        assert all[i] == ms[i - 1];
      }
    }
    forall x | x in MergedTokens(ms) ensures x in MergedTokens(all) {
      var i :| 0 <= i < |ms| && x == ms[i].0 + ms[i].1;
      assert all[i + 1] == ms[i];
    }
    assert all[0] == p;
  }

  /** The loop stops before `num_merges` rounds only when no word has two
      symbols left. */
  lemma {:induction false} TrainStopsEarly(wd: Dict<string>, vocab: set<string>, n: int)
    ensures |Train(wd, vocab, n).merges| < n ==>
              forall j :: 0 <= j < |Train(wd, vocab, n).words| ==> |Split(Train(wd, vocab, n).words[j].0)| <= 1
    decreases n
  {
    var t := Train(wd, vocab, n);
    if n > 0 {
      if PairCounts(wd) == [] {
        PairCountsEmpty(wd);
      } else {
        var best := BestPair(PairCounts(wd));
        TrainStopsEarly(MergeTable(wd, best), vocab + {best.0 + best.1}, n - 1);
      }
    }
  }

  /** Each round merges the pair with the largest frequency, the first one
      `find_pairs` met among equals. */
  lemma TrainChoice(wd: Dict<string>, vocab: set<string>, n: int) returns (i: nat)
    requires n > 0 && PairCounts(wd) != []
    ensures i < |PairCounts(wd)|
    ensures |Train(wd, vocab, n).merges| > 0 && Train(wd, vocab, n).merges[0] == PairCounts(wd)[i].0
    ensures forall q :: Weighted(wd, q) > 0 ==> Weighted(wd, q) <= Weighted(wd, PairCounts(wd)[i].0)
    ensures forall j :: 0 <= j < i ==> Weighted(wd, PairCounts(wd)[j].0) < Weighted(wd, PairCounts(wd)[i].0)
  {
    var pf := PairCounts(wd);
    i := FirstMax(pf);
    PairCountsDistinct(wd);
    GetEntry(pf, i);
    PairCountsWeighted(wd, pf[i].0);
    forall q | Weighted(wd, q) > 0 ensures Weighted(wd, q) <= Weighted(wd, pf[i].0) {
      PairCountsWeighted(wd, q);
      GetPresent(pf, q);
      var j :| 0 <= j < |pf| && pf[j].0 == q;
      GetEntry(pf, j);
    }
    forall j | 0 <= j < i ensures Weighted(wd, pf[j].0) < Weighted(wd, pf[i].0) {
      PairCountsWeighted(wd, pf[j].0);
      GetEntry(pf, j);
    }
  }

  /** Two tables with the same counts, entry by entry, spelling the same
      words once the spaces are removed. */
  predicate SameWords(a: Dict<string>, b: Dict<string>) {
    |a| == |b| && forall j {:trigger a[j]} :: 0 <= j < |a| ==> a[j].1 == b[j].1 && NoSpaces(a[j].0) == NoSpaces(b[j].0)
  }

  lemma SameWordsChain(a: Dict<string>, b: Dict<string>, c: Dict<string>)
    requires SameWords(a, b) && SameWords(b, c)
    ensures SameWords(a, c)
  {
    forall j | 0 <= j < |a| ensures a[j].1 == c[j].1 && NoSpaces(a[j].0) == NoSpaces(c[j].0) {
      assert b[j].1 == c[j].1;
    }
  }

  /** One round of the loop on a word table: the merged table is again a
      word table with the same words and counts. */
  lemma RoundTable(wd: Dict<string>)
    requires WordTable(wd) && PairCounts(wd) != []
    ensures WordTable(MergeTable(wd, BestPair(PairCounts(wd))))
    ensures SameWords(MergeTable(wd, BestPair(PairCounts(wd))), wd)
  {
    var pf := PairCounts(wd);
    var best := BestPair(pf);
    assert Keys(pf)[FirstMax(pf)] == best;
    MergeProgress(wd, best);
    MergeWordTable(wd, best);
  }

  /** One round of the loop on a word table removes at least one separator. */
  lemma RoundProgress(wd: Dict<string>)
    requires WordTable(wd) && PairCounts(wd) != []
    ensures WordTable(MergeTable(wd, BestPair(PairCounts(wd))))
    ensures Separators(MergeTable(wd, BestPair(PairCounts(wd)))) < Separators(wd)
  {
    var pf := PairCounts(wd);
    var best := BestPair(pf);
    assert Keys(pf)[FirstMax(pf)] == best;
    MergeProgress(wd, best);
    MergeWordTable(wd, best);
  }

  /** On a word table the loop only rewrites keys, and the result is again
      a word table. */
  lemma {:induction false} TrainWordTable(wd: Dict<string>, vocab: set<string>, n: int)
    requires WordTable(wd)
    ensures WordTable(Train(wd, vocab, n).words)
    decreases n
  {
    if n > 0 && PairCounts(wd) != [] {
      var best := BestPair(PairCounts(wd));
      var m := MergeTable(wd, best);
      RoundTable(wd);
      TrainWordTable(m, vocab + {best.0 + best.1}, n - 1);
      assert Train(wd, vocab, n) == TrainRound(wd, vocab, n);
      assert Train(wd, vocab, n).words == Train(m, vocab + {best.0 + best.1}, n - 1).words;
    } else {
      assert Train(wd, vocab, n).words == wd;
    }
  }

  /** On a word table the loop keeps the length of the table, every count
      and every word it spells. */
  lemma {:induction false} TrainSameWords(wd: Dict<string>, vocab: set<string>, n: int)
    requires WordTable(wd)
    ensures SameWords(Train(wd, vocab, n).words, wd)
    decreases n
  {
    if n > 0 && PairCounts(wd) != [] {
      var best := BestPair(PairCounts(wd));
      var m := MergeTable(wd, best);
      RoundTable(wd);
      TrainSameWords(m, vocab + {best.0 + best.1}, n - 1);
      var t := Train(m, vocab + {best.0 + best.1}, n - 1).words;
      assert Train(wd, vocab, n) == TrainRound(wd, vocab, n);
      assert Train(wd, vocab, n).words == t;
      SameWordsChain(t, m, wd);
    } else {
      assert Train(wd, vocab, n).words == wd;
    }
  }

  /** The loop keeps the total count of words. */
  lemma {:induction false} TrainTotal(wd: Dict<string>, vocab: set<string>, n: int)
    ensures Total(Train(wd, vocab, n).words) == Total(wd)
    decreases n
  {
    if n > 0 && PairCounts(wd) != [] {
      var best := BestPair(PairCounts(wd));
      MergeTableTotal(wd, best);
      TrainTotal(MergeTable(wd, best), vocab + {best.0 + best.1}, n - 1);
      assert Train(wd, vocab, n) == TrainRound(wd, vocab, n);
    }
  }

  /** However large `num_merges` is, a word table admits no more merges than
      it has separating spaces. */
  lemma {:induction false} TrainBound(wd: Dict<string>, vocab: set<string>, n: int)
    requires WordTable(wd)
    ensures |Train(wd, vocab, n).merges| <= Separators(wd)
    decreases n
  {
    if n > 0 && PairCounts(wd) != [] {
      var best := BestPair(PairCounts(wd));
      RoundProgress(wd);
      var m := MergeTable(wd, best);
      TrainBound(m, vocab + {best.0 + best.1}, n - 1);
      assert Train(wd, vocab, n) == TrainRound(wd, vocab, n);
      assert |Train(wd, vocab, n).merges| == 1 + |Train(m, vocab + {best.0 + best.1}, n - 1).merges|;
    } else {
      assert Train(wd, vocab, n).merges == [];
    }
  }

  // ---------------------------------------------------------------------
  // The whole learner on a cleaned text

  /** `get_vocab` on a cleaned text: every character of every word, as a
      one-character token. */
  function Alphabet(clean: string): (r: set<string>)
    ensures forall t {:trigger t in r} :: t in r <==> |t| == 1 && t[0] in clean && !IsSpace(t[0])
  {
    var r := set c | c in CharsOf(Split(clean)) :: [c];
    SplitWords(clean);
    forall t | |t| == 1 && t[0] in clean && !IsSpace(t[0]) ensures t in r {
      assert t[0] in CharsOf(Split(clean));
      assert t == [t[0]];
    }
    r
  }

  /** The word table `train` starts from. */
  function InitialWords(clean: string): Dict<string> {
    InitialTable(Tally(Split(clean)))
  }

  /** `train` on a text whose punctuation has already been handled. */
  function Learn(clean: string, n: int): Trace {
    Train(InitialWords(clean), Alphabet(clean), n)
  }

  /** The words of a text without punctuation are clean words. */
  lemma SplitClean(clean: string)
    requires forall i :: 0 <= i < |clean| ==> !IsPunct(clean[i])
    ensures forall i :: 0 <= i < |Split(clean)| ==> CleanWord(Split(clean)[i])
  {
    var words := Split(clean);
    SplitWords(clean);
    forall i, k | 0 <= i < |words| && 0 <= k < |words[i]| ensures !IsPunct(words[i][k]) {
      assert words[i] in words;
      CharsOfIn(words, i, words[i][k]);
    }
  }

  /** The counted words of a text without punctuation are distinct tokens. */
  lemma TallyTokens(clean: string)
    requires forall i :: 0 <= i < |clean| ==> !IsPunct(clean[i])
    ensures Distinct(Keys(Tally(Split(clean))))
    ensures forall i :: 0 <= i < |Tally(Split(clean))| ==> IsToken(Tally(Split(clean))[i].0)
    ensures Total(Tally(Split(clean))) == |Split(clean)|
  {
    var freqs := Tally(Split(clean));
    SplitClean(clean);
    TallyKeys(Split(clean));
    TallyTotal(Split(clean));
    forall i | 0 <= i < |freqs| ensures IsToken(freqs[i].0) {
      assert Keys(freqs)[i] == freqs[i].0;
      assert freqs[i].0 in Keys(freqs);
      var w := freqs[i].0;
      assert WordKey(w);
      assert w == w[..|w| - 1] + "_";
    }
  }

  /** The starting table is a word table whose counts add up to the number
      of words. */
  lemma InitialWordsTable(clean: string)
    requires forall i :: 0 <= i < |clean| ==> !IsPunct(clean[i])
    ensures WordTable(InitialWords(clean))
    ensures Total(InitialWords(clean)) == |Split(clean)|
  {
    TallyTokens(clean);
    InitialTableFacts(Tally(Split(clean)));
    InitialTableTotal(Tally(Split(clean)));
  }

  /** The starting table spells each word of the text followed by `_`,
      counted as often as the word occurs. */
  lemma InitialWordsEntry(clean: string, w: string) returns (j: nat)
    requires forall i :: 0 <= i < |clean| ==> !IsPunct(clean[i])
    requires w in Split(clean)
    ensures j < |InitialWords(clean)|
    ensures NoSpaces(InitialWords(clean)[j].0) == w + "_"
    ensures InitialWords(clean)[j].1 == multiset(Split(clean))[w]
  {
    var freqs := Tally(Split(clean));
    TallyTokens(clean);
    TallyCounts(Split(clean), w);
    GetPresent(freqs, w + "_");
    j :| 0 <= j < |freqs| && freqs[j].0 == w + "_";
    GetEntry(freqs, j);
    InitialTableFacts(freqs);
  }

  lemma InitialTableTotal(freqs: Dict<string>)
    requires InitialTable(freqs) == Spelled(freqs)
    ensures Total(InitialTable(freqs)) == Total(freqs)
  {
    TotalEntrywise(Spelled(freqs), freqs);
  }

  /** `train` on a cleaned text makes at most `num_merges` merges, and no
      more than the separators of the starting table; the vocabulary is the
      alphabet plus the merged tokens; the counts add up to the number of
      words. */
  lemma LearnFacts(clean: string, n: int)
    requires forall i :: 0 <= i < |clean| ==> !IsPunct(clean[i])
    ensures |Learn(clean, n).merges| <= if n < 0 then 0 else n
    ensures |Learn(clean, n).merges| <= Separators(InitialWords(clean))
    ensures Learn(clean, n).vocab == Alphabet(clean) + MergedTokens(Learn(clean, n).merges)
    ensures Total(Learn(clean, n).words) == |Split(clean)|
  {
    var wd := InitialWords(clean);
    InitialWordsTable(clean);
    TrainVocab(wd, Alphabet(clean), n);
    TrainBound(wd, Alphabet(clean), n);
    TrainTotal(wd, Alphabet(clean), n);
  }

  /** After `train` on a cleaned text, every word of the text still has an
      entry that spells it followed by `_`, counted as often as it occurs. */
  lemma LearnWord(clean: string, n: int, w: string) returns (j: nat)
    requires forall i :: 0 <= i < |clean| ==> !IsPunct(clean[i])
    requires w in Split(clean)
    ensures j < |Learn(clean, n).words|
    ensures NoSpaces(Learn(clean, n).words[j].0) == w + "_"
    ensures Learn(clean, n).words[j].1 == multiset(Split(clean))[w]
  {
    var wd := InitialWords(clean);
    InitialWordsTable(clean);
    j := InitialWordsEntry(clean, w);
    TrainSameWords(wd, Alphabet(clean), n);
    assert SameWords(Learn(clean, n).words, wd);
  }

  /** A text with no word gives an empty table, an empty vocabulary and no
      merges. */
  lemma EmptyLearn(clean: string, n: int)
    requires forall i :: 0 <= i < |clean| ==> IsSpace(clean[i])
    ensures Learn(clean, n) == Trace([], {}, [])
  {
    var words := Split(clean);
    SplitWords(clean);
    if words != [] {
      assert IsToken(words[0]) by { assert words[0] in words; }
      var c := words[0][0];
      CharsOfIn(words, 0, c);
      assert false;
    }
    assert Tally(words) == [];
    assert InitialWords(clean) == [];
    assert Alphabet(clean) == {};
    assert PairCounts([]) == [];
  }

  /** One round on two words whose pairs tie: the pair met first wins, and
      its merged token joins the vocabulary. */
  lemma TieGoesToFirst()
    ensures Train([("a b", 1), ("b c", 1)], {}, 1).merges == [("a", "b")]
    ensures Train([("a b", 1), ("b c", 1)], {}, 1).vocab == {"ab"}
  {
    var wd := [("a b", 1), ("b c", 1)];
    var pf := TiedPairs();
    assert pf[..1] == [(("a", "b"), 1)];
    assert FirstMax(pf) == 0;
    assert BestPair(pf) == ("a", "b") && "a" + "b" == "ab";
    assert Train(wd, {}, 1) == TrainRound(wd, {}, 1);
  }

  /** `find_pairs` on the two words of `TieGoesToFirst`: both pairs once, in
      the order they are met. */
  lemma TiedPairs() returns (pf: Dict<Pair>)
    ensures pf == PairCounts([("a b", 1), ("b c", 1)])
    ensures pf == [(("a", "b"), 1), (("b", "c"), 1)]
  {
    SplitTwo('a', 'b');
    SplitTwo('b', 'c');
    var wd := [("a b", 1), ("b c", 1)];
    assert wd[..1] == [("a b", 1)] && wd[..0] == [];
    var first := AddWordPairs([], ["a", "b"], 1, 1);
    assert first == [(("a", "b"), 1)];
    assert PairCounts(wd[..1]) == first;
    pf := AddWordPairs(first, ["b", "c"], 1, 1);
    assert pf == [(("a", "b"), 1), (("b", "c"), 1)];
  }

  /** `"x y".split()` gives the two symbols. */
  lemma SplitTwo(x: char, y: char)
    requires !IsSpace(x) && !IsSpace(y)
    ensures Split([x, ' ', y]) == [[x], [y]]
  {
    var s := [x, ' ', y];
    assert s[1..] == [' ', y] && s[1..][1..] == [y] && [y][1..] == [];
    assert [] + [x] == [x] && [] + [y] == [y];
    assert SplitAfter(s, []) == SplitAfter([' ', y], [x]);
    assert SplitAfter([' ', y], [x]) == [[x]] + SplitAfter([y], []);
    assert SplitAfter([y], []) == SplitAfter([], [y]);
  }
}
