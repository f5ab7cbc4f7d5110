# BPE learner in Dafny

This project models the training loop of a Byte Pair Encoding (BPE) learner
and proves properties of it. The repository has two near-identical trainers:

- `BPETokenizer` in `BPE.py` is given the text and the merge budget as
  arguments. It deletes punctuation before splitting the text into words.
- `BPE` in `BPE/BPE.py` holds the text and the budget in fields. It turns
  each punctuation character into a space, so punctuation also separates
  words.

Both trainers run the same steps:

1. Count every word of the cleaned text, with the end marker `_` appended
   (`count_words`).
2. Spell each counted word as its characters separated by single spaces.
   This is the initial word table.
3. Repeat at most `num_merges` times:
   - count every pair of neighbouring symbols, weighted by the word counts
     (`find_pairs`);
   - stop if there is no pair;
   - otherwise take the pair Python's `max` picks. That is the most frequent
     pair, and among equals the one inserted first.
   - Replace `"L R"` by `"LR"` in every key (`merge_pair`, with `str.replace`)
     and add the token `LR` to the vocabulary.

The token vocabulary starts as the set of single characters of the cleaned
text (`get_vocab`).

## Layout

- `strings.dfy` (module `Strings`) holds the Python string built-ins the
  learner uses:
  - the punctuation and whitespace character classes;
  - the two `translate` tables, written as `StripPunct` and `PunctToSpace`;
  - `split()`, `' '.join`, and `str.replace` with its exact
    leftmost, non-overlapping semantics.
- `counts.dfy` (module `Counts`) holds dicts and `defaultdict(int)`. A dict
  is a list of `(key, value)` entries in insertion order. `Add` is
  `d[k] += c` and `Put` is `d[k] = v`.
- `learner.dfy` (module `Learner`) holds the learner as functions over
  values, with its properties as lemmas:
  - `Tally` counts the words.
  - `InitialTable` builds the initial word table.
  - `PairCounts` counts the pairs.
  - `FirstMax` picks the pair.
  - `MergeTable` merges a pair into the table.
  - `Train` and `TrainRound` run the bounded loop. They return a `Trace`
    that holds the final word table, the final vocabulary, and the list of
    merges made. The list of merges exists only for the proofs.
  - `Learn` runs the whole learner on a text that is already cleaned.
- `steps.dfy` (module `Steps`) holds the three loops both trainers share.
  Each is written as a method with a loop and proved equal to its
  specification function.
- `tokenizer.dfy` (module `Tokenizer`) is the class `BPETokenizer`.
- `bpemodel.dfy` (module `BpeModel`) is the class `BPE`, plus lemmas that
  compare the two trainers.

Each training method (`Train`, `Bpe`) is proved to leave in its fields the
word table and vocabulary of `Learn` on its cleaned text. The properties of
`Learn` are proved once, in `Learner`.

A "word table" (`Learner.WordTable`) is a table in which:

- every key is a list of non-empty symbols separated by single spaces;
- no two keys spell the same word once the spaces are removed.

The initial table is a word table, and every merge keeps it one. So
`merge_pair` never makes two keys collide. It rewrites the table entry by
entry and keeps every count.

Progress is measured by the total number of separating spaces in the
table. Every merge strictly reduces it. So the number of merges is bounded
by that initial total, whatever `num_merges` is.

## Model

| member | source | states |
|---|---|---|
| Strings.StripPunct | BPE.py:14 | deleting punctuation never makes the text longer, and keeps exactly the characters that are not punctuation |
| Strings.PunctToSpace | BPE/BPE.py:16 | mapping punctuation to spaces keeps the length, turns every punctuation character into a space, and leaves every other character in place |
| Strings.PunctToSpaceChars | BPE/BPE.py:12 | apart from whitespace, the text with punctuation turned into spaces has exactly the non-punctuation characters of the text |
| Strings.PunctuationInRanges | BPE.py:2 | every character of `string.punctuation` is accepted by `IsPunct` |
| Strings.RangesInPunctuation | BPE.py:2 | every character `IsPunct` accepts is in `string.punctuation` |
| Strings.NoPunctUnchanged | BPE.py:14 | on a text without punctuation, both translation tables leave the text unchanged |
| Strings.Split | BPE.py:16 | `str.split()` with no argument: the maximal runs of non-whitespace characters, in order, with no empty words |
| Strings.SplitWords | BPE.py:16 | the words of `split()` are non-empty and contain no whitespace, and together they hold exactly the non-whitespace characters of the text |
| Strings.Spaced | BPE.py:48 | `' '.join(w)` of a non-empty word has length `2·len(w) − 1` |
| Strings.SpacedWord | BPE.py:48 | `' '.join(w)` of a whitespace-free word is a well-spaced key with `len(w) − 1` spaces, and removing its spaces gives `w` back |
| Strings.SplitWellSpaced | BPE.py:26 | `split()` on a well-spaced key gives one more symbol than the key has spaces, and `' '.join` of those symbols rebuilds the key |
| Strings.Replace | BPE.py:39 | `str.replace`: every leftmost, non-overlapping occurrence of the pattern replaced, including Python's empty-pattern case that inserts the replacement around every character |
| Strings.MatchesIffContains | BPE.py:39 | `replace` rewrites something exactly when the pattern occurs, and leaves a key that does not contain the pattern unchanged |
| Strings.MergeReplaceWord | BPE.py:39 | replacing `"L R"` by `"LR"` keeps the key's characters once spaces are removed |
| Strings.MergeReplaceSpaces | BPE.py:39 | each replacement of `"L R"` by `"LR"` removes exactly one space |
| Strings.MergeReplaceSpacing | BPE.py:39 | merging two whitespace-free symbols in a well-spaced key leaves it well spaced |
| Strings.JoinContainsNeighbours | BPE.py:26-28 | for neighbouring symbols `a`, `b` of a split key, the text `"a b"` occurs in the key |
| Strings.ReplaceCrossesSymbols | BPE.py:39 | `str.replace` can cross symbol boundaries: the key `"ab c"` splits as `["ab", "c"]`, yet replacing `"b c"` gives `"abc"` |
| Counts.Add | BPE.py:18 | `d[k] += c` on a `defaultdict(int)`: an existing key keeps its place and grows by `c`; a new key is inserted last with `c` |
| Counts.AddKeys | BPE.py:18 | `d[k] += c` keeps the key order and appends `k` at the end when it is new |
| Counts.AddNew | BPE.py:18 | `d[k] += c` with a new key appends the entry `(k, c)` |
| Counts.GetAdd | BPE.py:18 | after `d[k] += c`, the value under `k` grew by `c` and every other value is unchanged |
| Counts.AddTotal | BPE.py:40 | `d[k] += c` adds `c` to the total, never shortens the dict, and with `c ≥ 0` never lowers a value |
| Counts.AddDistinct | BPE.py:29 | `d[k] += c` keeps the keys distinct |
| Counts.Put | BPE.py:48 | `d[k] = v`: an existing key keeps its place and takes `v`; a new key is inserted last |
| Counts.Assign | BPE.py:48 | a dict comprehension: `d[k] = v` for every produced entry in turn, a later equal key overwriting the value in the earlier key's place |
| Counts.PutNew | BPE.py:48 | `d[k] = v` with a new key appends the entry `(k, v)` |
| Counts.AssignDistinct | BPE.py:48 | building a dict from entries whose keys are distinct keeps every entry, in order |
| Counts.GetEntry | BPE.py:56 | in a dict with distinct keys, looking up an entry's key gives that entry's value |
| Counts.GetPresent | BPE.py:53 | a key with a non-zero value is one of the dict's entries |
| Counts.Regroup | BPE.py:38-40 | the accumulation loop of `merge_pair`: a fresh `defaultdict(int)` filled by `d[k] += c` for every entry in turn |
| Counts.RegroupDistinct | BPE.py:38-40 | accumulating entries whose keys are distinct gives back those entries, in order |
| Counts.RegroupTotal | BPE.py:38-40 | accumulating entries by `+=` keeps the total |
| Learner.Tally | BPE.py:16-18 | the counting loop of `count_words`: each word with `_` appended gets `+= 1`, keys in the order the words are first seen |
| Learner.TallyKeys | BPE.py:16-18 | on clean words, `count_words` has distinct keys, and each is a clean word followed by `_`, with no `_` before it |
| Learner.TallyTotal | BPE.py:16-18 | every count of `count_words` is at least 1, and the counts add up to the number of words |
| Learner.TallyCounts | BPE.py:16-18 | the count of `w_` is the number of times `w` occurs among the words |
| Learner.Spelled | BPE.py:48 | the spelled table has one entry per counted word: the word joined by spaces, with its count |
| Learner.InitialTable | BPE.py:48 | the comprehension `{' '.join(word): freq}` over the counted words, in their order |
| Learner.SpelledTable | BPE.py:48 | spelling distinct words gives a word table, and each key without its spaces is the word it came from |
| Learner.InitialTableFacts | BPE.py:48 | from distinct whitespace-free words, the dict comprehension keeps every entry, spells each key, and gives a word table |
| Learner.PairCounts | BPE.py:22-31 | `find_pairs`: for each word in table order, each neighbouring pair of its split symbols gets `+=` the word's count |
| Learner.AddWordPairsGet | BPE.py:27-29 | the inner loop of `find_pairs` adds `count` times the pair's occurrences among the positions visited |
| Learner.PairCountsWeighted | BPE.py:22-31 | `find_pairs` gives every pair the sum, over the words, of the word's count times the pair's neighbouring occurrences in it |
| Learner.PairCountsDistinct | BPE.py:22-31 | the pairs of `find_pairs` are distinct |
| Learner.PairCountsMember | BPE.py:22-31 | a pair is a key of `find_pairs` exactly when it occurs as neighbouring symbols in some word |
| Learner.PairCountsEmpty | BPE.py:53 | `find_pairs` is empty exactly when every word has at most one symbol |
| Learner.OccurrenceAt | BPE.py:27-28 | a pair counted in a word occurs there at some position `i`, as `tokens[i]`, `tokens[i + 1]` |
| Learner.FirstMax | BPE.py:56 | the index `max` picks: no entry has a larger value, and every earlier entry has a smaller one |
| Learner.BestPair | BPE.py:56 | the key of the entry `FirstMax` picks: the pair Python's `max` returns over the items ordered by count |
| Learner.MergeKey | BPE.py:35-39 | one key with every occurrence of `"L R"` replaced by `"LR"`, by `Replace` |
| Learner.Rekeyed | BPE.py:38-39 | each entry is rewritten by `replace` in its key, keeping its count and position |
| Learner.MergeTable | BPE.py:33-42 | `merge_pair`: every key rewritten by `MergeKey`, its count added under the new key in a fresh dict |
| Learner.MergeTableTotal | BPE.py:33-42 | `merge_pair` keeps the total of the counts |
| Learner.MergeWordTable | BPE.py:33-42 | on a word table, `merge_pair` rewrites each key in place, keeps each count and the characters of each key, and gives a word table again |
| Learner.AdjacentTokens | BPE.py:27-28 | the two symbols of a counted pair are non-empty and contain no whitespace |
| Learner.MergeShrinks | BPE.py:39 | merging a pair that occurs in a key removes at least one of its spaces |
| Learner.MergeFewerTokens | BPE.py:39 | a key containing the pair as neighbouring symbols splits into strictly fewer symbols after the merge, and stays well spaced |
| Learner.MergeProgress | BPE.py:56-60 | merging any pair `find_pairs` reports strictly reduces the spaces in the table |
| Learner.Train | BPE.py:50-54 | the loop with `n` rounds left: it stops with the table and vocabulary unchanged and no merge when `n` is not positive or `find_pairs` is empty, and otherwise runs a round |
| Learner.TrainRound | BPE.py:55-60 | one round: merge `BestPair` into the table, add its merged token to the vocabulary, and run the remaining `n - 1` rounds |
| Learner.TrainStep | BPE.py:50-60 | `Train` unfolded by one round, with the remaining budget passed in: the bridge the loop invariants of both training methods use |
| Learner.TrainVocab | BPE.py:50-60 | the loop makes at most `num_merges` merges and none when it is not positive; the vocabulary only grows, by exactly the merged tokens |
| Learner.TrainStopsEarly | BPE.py:53-54 | the loop stops before `num_merges` rounds only when every word has at most one symbol |
| Learner.TrainChoice | BPE.py:56 | each round merges a pair of largest weighted frequency, and the first such pair in the order `find_pairs` met them |
| Learner.RoundTable | BPE.py:56-60 | one round on a word table gives a word table with the same counts and words |
| Learner.RoundProgress | BPE.py:56-60 | one round on a word table removes at least one separating space |
| Learner.TrainWordTable | BPE.py:50-60 | on a word table, the loop ends with a word table |
| Learner.TrainSameWords | BPE.py:50-60 | on a word table, the loop keeps the length of the table, every count, and every word its key spells |
| Learner.TrainTotal | BPE.py:50-60 | the loop keeps the total count of words |
| Learner.TrainBound | BPE.py:50-60 | however large `num_merges` is, there are no more merges than separating spaces in the starting table |
| Learner.Alphabet | BPE.py:10 | the initial vocabulary is exactly the one-character strings of non-whitespace characters of the cleaned text |
| Learner.InitialWords | BPE.py:47-48 | the starting table of `train`: `InitialTable` of `count_words` on the cleaned text |
| Learner.Learn | BPE.py:44-62 | `train` on a cleaned text: `Alphabet` as the vocabulary, `InitialWords` as the table, then `Train` for `num_merges` rounds |
| Learner.SplitClean | BPE.py:14-16 | the words of a text without punctuation are non-empty and contain neither whitespace nor punctuation |
| Learner.TallyTokens | BPE.py:47 | on a cleaned text, `count_words` has distinct, whitespace-free keys whose counts add up to the number of words |
| Learner.InitialWordsTable | BPE.py:47-48 | the starting table of a cleaned text is a word table whose counts add up to the number of words |
| Learner.InitialWordsEntry | BPE.py:47-48 | every word of the cleaned text has an entry in the starting table that spells the word with `_`, counted as often as the word occurs |
| Learner.InitialTableTotal | BPE.py:48 | the dict comprehension keeps the total count when it keeps every entry |
| Learner.LearnFacts | BPE.py:44-62 | `train` makes at most `num_merges` merges, and no more than the separators of the starting table; the vocabulary is the alphabet plus the merged tokens; the counts add up to the number of words |
| Learner.LearnWord | BPE.py:44-62 | after `train`, each word of the text keeps an entry spelling it with `_`, counted as often as the word occurs |
| Learner.EmptyLearn | BPE.py:44-62 | a text of whitespace only gives an empty table, an empty vocabulary and no merge |
| Learner.TiedPairs | BPE.py:22-31 | `find_pairs` on the table `{"a b": 1, "b c": 1}` is `{("a", "b"): 1, ("b", "c"): 1}`, in that order |
| Learner.TieGoesToFirst | BPE.py:50-60 | one round on that table merges `("a", "b")`, the first of the two tied pairs, and the vocabulary gains `"ab"` |
| Learner.SplitTwo | BPE.py:26 | `"x y".split()` is `["x", "y"]` for non-whitespace `x` and `y` |
| Steps.CountWords | BPE.py:12-20 | the counting loop builds `Tally` of the words, so `w_` is counted as often as `w` occurs |
| Steps.FindPairs | BPE.py:22-31 | the nested loops build `PairCounts`, with distinct pairs, each with its weighted frequency |
| Steps.MergePair | BPE.py:33-42 | the loop builds `MergeTable` and keeps the total of the counts |
| Tokenizer.BPETokenizer.constructor | BPE.py:5-7 | a new tokenizer has an empty word table and an empty vocabulary |
| Tokenizer.BPETokenizer.GetVocab | BPE.py:9-10 | a token is in the result exactly when it is one character of the text that is neither punctuation nor whitespace, so never `_` |
| Tokenizer.BPETokenizer.CountWords | BPE.py:12-20 | the result is `Tally` of the words of the text without punctuation; each `w_` is counted as often as `w` occurs |
| Tokenizer.BPETokenizer.FindPairs | BPE.py:22-31 | the result is `PairCounts` of the table; each pair has its weighted frequency |
| Tokenizer.BPETokenizer.MergePair | BPE.py:33-42 | the result is `MergeTable` of the table and the pair, with the same total |
| Tokenizer.BPETokenizer.Train | BPE.py:44-62 | the fields end as the word table and vocabulary of `Learn` on the text without punctuation, and are returned |
| BpeModel.BPE.constructor | BPE/BPE.py:5-9 | a new learner keeps the text and the budget, with an empty table and vocabulary |
| BpeModel.BPE.GetVocab | BPE/BPE.py:11-12 | a token is in the result exactly when it is one character of the text that is neither punctuation nor whitespace, so never `_` |
| BpeModel.BPE.CountWords | BPE/BPE.py:14-22 | the result is `Tally` of the words of the text with punctuation turned into spaces; each `w_` is counted as often as `w` occurs |
| BpeModel.BPE.FindPairs | BPE/BPE.py:24-33 | the result is `PairCounts` of the word table field; each pair has its weighted frequency |
| BpeModel.BPE.MergePair | BPE/BPE.py:35-44 | the result is `MergeTable` of the word table field and the pair, with the same total |
| BpeModel.BPE.Bpe | BPE/BPE.py:46-64 | the text and the budget are unchanged; the table and vocabulary fields end as those of `Learn` on the text with punctuation turned into spaces, and are returned |
| BpeModel.TrainersAgree | BPE/BPE.py:16 | on a text without punctuation, the two trainers learn the same table, vocabulary and merges |
| BpeModel.PunctuationSeparates | BPE/BPE.py:16-18 | for `BPE`, `"a,b"` is the two words `"a"` and `"b"` |
| BpeModel.PunctuationJoins | BPE.py:14-16 | for `BPETokenizer`, `"a,b"` is the one word `"ab"` |

## Left out

- The `__main__` demo blocks only print. They are not modelled.
- The demo run (the example text with 3 merges) is not computed by a lemma.
  A smaller table is computed instead, in `Learner.TieGoesToFirst`.
- `Strings.IsSpace` is the set of characters for which Python's
  `str.isspace()` holds. It is written out as a fixed list and is not
  derived from the Unicode database.
- `Strings.IsPunct` is `string.punctuation`, the 32 ASCII punctuation
  characters. Two lemmas show it matches the constant.
- `str.maketrans` and `str.translate` are not modelled in general. Only the
  two tables the trainers build are modelled, as per-character functions.
- Dicts are ordered lists of entries. Hashing and performance are not
  modelled. Only insertion order matters, for the `max` tie-break.
- The token vocabulary is a mathematical set.
- Integers are unbounded. Python's integers are unbounded too.
- Methods return the new dict as a value. The model does not track that
  Python hands back the dict object held in a field, so a caller could
  alias it.
- The merges list in `Learner.Trace` records the rounds for the proofs. The
  source does not keep it.
- `merge_pair` uses `str.replace`, which can join symbols that are not
  neighbours. For example, with the pair `("b", "c")` the key `"ab c"`
  becomes `"abc"`. The model keeps this behaviour, and
  `Strings.ReplaceCrossesSymbols` exhibits it. The properties above still
  hold with it.
