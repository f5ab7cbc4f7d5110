/** The Python string built-ins the BPE learner is made of: the character
    classes behind `string.punctuation` and `str.split()`, the two
    `str.translate` tables, `str.split()`, `str.join` and `str.replace`,
    with the facts about them that the learner's properties rest on. */
module Strings {

  /** `string.punctuation`: the 32 ASCII punctuation characters. */
  const Punctuation: string := "!\"#$%&'()*+,-./:;<=>?@[\\]^_`{|}~"

  /** Membership in `Punctuation`, written as the four ASCII ranges it covers. */
  predicate IsPunct(c: char) {
    ('!' <= c <= '/') || (':' <= c <= '@') || ('[' <= c <= '`') || ('{' <= c <= '~')
  }

  /** Every character of `Punctuation` satisfies `IsPunct`. */
  lemma PunctuationInRanges(c: char)
    requires c in Punctuation
    ensures IsPunct(c)
  {
  }

  /** Every character `IsPunct` accepts is in `Punctuation`. */
  lemma RangesInPunctuation(c: char)
    requires IsPunct(c)
    ensures c in Punctuation
  {
    var i := if c <= '/' then c as int - '!' as int
      else if c <= '@' then c as int - ':' as int + 15
      else if c <= '`' then c as int - '[' as int + 22
      else c as int - '{' as int + 28;
    assert Punctuation[i] == c;
  }

  /** The characters for which `str.isspace()` holds, the separators of
      `str.split()`. */
  predicate IsSpace(c: char) {
    c == ' ' || ('\t' <= c <= '\r') || ('\U{001C}' <= c <= '\U{001F}')
    || c == '\U{0085}' || c == '\U{00A0}' || c == '\U{1680}'
    || ('\U{2000}' <= c <= '\U{200A}') || c == '\U{2028}' || c == '\U{2029}'
    || c == '\U{202F}' || c == '\U{205F}' || c == '\U{3000}'
  }

  /** A symbol: a non-empty string without whitespace. */
  predicate IsToken(w: string) {
    |w| > 0 && forall i :: 0 <= i < |w| ==> !IsSpace(w[i])
  }

  /** `s.translate(str.maketrans('', '', punctuation))`: drop every punctuation character. */
  function StripPunct(s: string): (r: string)
    ensures |r| <= |s|
    ensures forall c :: c in r <==> c in s && !IsPunct(c)
  {
    if s == [] then []
    else (if IsPunct(s[0]) then [] else [s[0]]) + StripPunct(s[1..])
  }

  /** `s.translate(str.maketrans(punctuation, ' ' * len(punctuation)))`:
      every punctuation character becomes a space. */
  function PunctToSpace(s: string): (r: string)
    ensures |r| == |s|
    ensures forall i :: 0 <= i < |s| && IsPunct(s[i]) ==> r[i] == ' '
    ensures forall i :: 0 <= i < |s| && !IsPunct(s[i]) ==> r[i] == s[i]
  {
    if s == [] then []
    else [if IsPunct(s[0]) then ' ' else s[0]] + PunctToSpace(s[1..])
  }

  /** Apart from whitespace, the text with punctuation turned into spaces
      holds exactly the characters of the text that are not punctuation. */
  lemma PunctToSpaceChars(s: string)
    ensures forall c :: c in PunctToSpace(s) && !IsSpace(c) <==> c in s && !IsPunct(c) && !IsSpace(c)
  {
  }

  /** On a text without punctuation the two `translate` tables agree: both
      leave it as it is. */
  lemma {:induction false} NoPunctUnchanged(s: string)
    requires forall i :: 0 <= i < |s| ==> !IsPunct(s[i])
    ensures StripPunct(s) == s && PunctToSpace(s) == s
  {
    if s != [] {
      NoPunctUnchanged(s[1..]);
      assert s == [s[0]] + s[1..];
    }
  }

  /** The characters occurring in a list of strings. */
  function CharsOf(ws: seq<string>): set<char> {
    if ws == [] then {} else (set c | c in ws[0]) + CharsOf(ws[1..])
  }

  lemma {:induction false} CharsOfIn(ws: seq<string>, i: nat, c: char)
    requires i < |ws| && c in ws[i]
    ensures c in CharsOf(ws)
  {
    if i > 0 {
      CharsOfIn(ws[1..], i - 1, c);
    }
  }

  /** `s.split()`: the maximal runs of non-whitespace characters, in order. */
  function Split(s: string): seq<string> {
    SplitAfter(s, [])
  }

  /** The words of `s.split()` are symbols, and together they hold exactly
      the characters of `s` that are not whitespace. */
  lemma SplitWords(s: string)
    ensures forall w :: w in Split(s) ==> IsToken(w)
    ensures CharsOf(Split(s)) == set c | c in s && !IsSpace(c)
  {
    SplitAfterFacts(s, []);
  }

  /** Splitting `s` when the word `cur` has been read but not yet closed. */
  function SplitAfter(s: string, cur: string): seq<string>
    decreases |s|
  {
    if s == [] then (if cur == [] then [] else [cur])
    else if IsSpace(s[0]) then (if cur == [] then [] else [cur]) + SplitAfter(s[1..], [])
    else SplitAfter(s[1..], cur + [s[0]])
  }

  lemma {:induction false} SplitAfterFacts(s: string, cur: string)
    requires forall i :: 0 <= i < |cur| ==> !IsSpace(cur[i])
    ensures forall w :: w in SplitAfter(s, cur) ==> IsToken(w)
    ensures CharsOf(SplitAfter(s, cur)) == (set c | c in cur) + (set c | c in s && !IsSpace(c))
    decreases |s|
  {
    if s == [] {
      if cur != [] {
        assert CharsOf([cur]) == (set c | c in cur) + CharsOf([]);
      }
    } else if IsSpace(s[0]) {
      SplitAfterFacts(s[1..], []);
      var rest := SplitAfter(s[1..], []);
      if cur != [] {
        assert SplitAfter(s, cur) == [cur] + rest;
        assert ([cur] + rest)[1..] == rest;
        assert CharsOf([cur] + rest) == (set c | c in cur) + CharsOf(rest);
      } else {
        assert SplitAfter(s, cur) == rest;
        assert (set c | c in cur) == {};
      }
      assert s == [s[0]] + s[1..];
      assert (set c | c in s && !IsSpace(c)) == (set c | c in s[1..] && !IsSpace(c));
    } else {
      SplitAfterFacts(s[1..], cur + [s[0]]);
      assert s == [s[0]] + s[1..];
    }
  }

  /** `sep.join(xs)`. */
  function Join(sep: string, xs: seq<string>): string {
    if xs == [] then []
    else if |xs| == 1 then xs[0]
    else xs[0] + sep + Join(sep, xs[1..])
  }

  /** `' '.join(w)` for a string `w`: its characters separated by single spaces. */
  function Spaced(w: string): (r: string)
    ensures w != [] ==> |r| == 2 * |w| - 1
  {
    if |w| <= 1 then w else [w[0], ' '] + Spaced(w[1..])
  }

  /** The number of space characters in `s`. */
  function Spaces(s: string): nat {
    if s == [] then 0 else (if s[0] == ' ' then 1 else 0) + Spaces(s[1..])
  }

  /** `s` with every space character removed. */
  function NoSpaces(s: string): string {
    if s == [] then [] else (if s[0] == ' ' then [] else [s[0]]) + NoSpaces(s[1..])
  }

  lemma {:induction false} SpacesAppend(a: string, b: string)
    ensures Spaces(a + b) == Spaces(a) + Spaces(b)
    ensures NoSpaces(a + b) == NoSpaces(a) + NoSpaces(b)
  {
    if a != [] {
      assert (a + b)[1..] == a[1..] + b;
      SpacesAppend(a[1..], b);
    } else {
      assert a + b == b;
    }
  }

  /** No two spaces in a row. */
  predicate NoDoubleSpace(s: string) {
    forall i :: 0 <= i < |s| - 1 ==> s[i] != ' ' || s[i + 1] != ' '
  }

  /** The only whitespace in `s` is the space character. */
  predicate OnlyPlainSpaces(s: string) {
    forall i :: 0 <= i < |s| ==> s[i] == ' ' || !IsSpace(s[i])
  }

  /** The shape of a word-table key: non-empty symbols separated by single spaces. */
  predicate WellSpaced(s: string) {
    |s| > 0 && s[0] != ' ' && s[|s| - 1] != ' ' && NoDoubleSpace(s) && OnlyPlainSpaces(s)
  }

  /** On a well-spaced string, `split()` returns the symbols that `' '.join`
      reassembles into the string, one more than the number of spaces. */
  lemma SplitWellSpaced(s: string)
    requires WellSpaced(s)
    ensures |Split(s)| == Spaces(s) + 1
    ensures Join(" ", Split(s)) == s
  {
    SplitAfterWellSpaced(s, []);
  }

  lemma {:induction false} SplitAfterWellSpaced(s: string, cur: string)
    requires |s| > 0 && s[|s| - 1] != ' ' && NoDoubleSpace(s) && OnlyPlainSpaces(s)
    requires cur != [] || s[0] != ' '
    ensures |SplitAfter(s, cur)| == Spaces(s) + 1
    ensures Join(" ", SplitAfter(s, cur)) == cur + s
    decreases |s|
  {
    if |s| == 1 {
      assert SplitAfter(s[1..], cur + [s[0]]) == [cur + [s[0]]];
    } else if s[0] == ' ' {
      var t := s[1..];
      assert t[0] == s[1] != ' ';
      assert NoDoubleSpace(t) by {
        forall i | 0 <= i < |t| - 1 ensures t[i] != ' ' || t[i + 1] != ' ' {
          assert t[i] == s[i + 1] && t[i + 1] == s[i + 2];
        }
      }
      SplitAfterWellSpaced(t, []);
      var rest := SplitAfter(t, []);
      assert |rest| >= 1;
      assert SplitAfter(s, cur) == [cur] + rest;
      assert ([cur] + rest)[1..] == rest;
      assert s == " " + t;
    } else {
      var t := s[1..];
      assert OnlyPlainSpaces(t) by {
        forall i | 0 <= i < |t| ensures t[i] == ' ' || !IsSpace(t[i]) {
          assert t[i] == s[i + 1];
        }
      }
      assert NoDoubleSpace(t) by {
        forall i | 0 <= i < |t| - 1 ensures t[i] != ' ' || t[i + 1] != ' ' {
          assert t[i] == s[i + 1] && t[i + 1] == s[i + 2];
        }
      }
      SplitAfterWellSpaced(t, cur + [s[0]]);
      assert s == [s[0]] + t;
      assert (cur + [s[0]]) + t == cur + s;
    }
  }

  /** `s.replace(pat, rep)`: every leftmost, non-overlapping occurrence of
      `pat` in `s` replaced by `rep`, scanning left to right; an empty `pat`
      matches before every character and at the end. */
  function Replace(s: string, pat: string, rep: string): string
    decreases |s|
  {
    if pat == [] then (if s == [] then rep else rep + [s[0]] + Replace(s[1..], pat, rep))
    else if s == [] then []
    else if pat <= s then rep + Replace(s[|pat|..], pat, rep)
    else [s[0]] + Replace(s[1..], pat, rep)
  }

  /** The number of occurrences of a non-empty `pat` that `Replace` rewrites. */
  function Matches(s: string, pat: string): nat
    requires pat != []
    decreases |s|
  {
    if s == [] then 0
    else if pat <= s then 1 + Matches(s[|pat|..], pat)
    else Matches(s[1..], pat)
  }

  /** `t in s` for strings: `t` occurs in `s` as a substring. */
  predicate Contains(s: string, t: string) {
    exists k :: 0 <= k <= |s| && t <= s[k..]
  }

  /** `Replace` rewrites something exactly when the pattern occurs, and leaves
      a string without the pattern as it was. */
  lemma {:induction false} MatchesIffContains(s: string, pat: string, rep: string)
    requires pat != []
    ensures Matches(s, pat) > 0 <==> Contains(s, pat)
    ensures !Contains(s, pat) ==> Replace(s, pat, rep) == s
    decreases |s|
  {
    if s == [] {
    } else if pat <= s {
      assert s[0..] == s;
    } else {
      MatchesIffContains(s[1..], pat, rep);
      if Contains(s, pat) {
        var k :| 0 <= k <= |s| && pat <= s[k..];
        assert k != 0 by { assert s[0..] == s; }
        assert s[1..][k - 1..] == s[k..];
      }
      if Contains(s[1..], pat) {
        var k :| 0 <= k <= |s[1..]| && pat <= s[1..][k..];
        assert s[1..][k..] == s[k + 1..];
      }
      if !Contains(s, pat) {
        assert s == [s[0]] + s[1..];
      }
    }
  }

  /** Joining two tokens with a space and without one spells the same
      characters, with exactly one more space in the first. */
  lemma PairSpelling(l: string, r: string)
    ensures NoSpaces(l + " " + r) == NoSpaces(l + r)
    ensures Spaces(l + " " + r) == Spaces(l + r) + 1
  {
    SpacesAppend(l + " ", r);
    SpacesAppend(l, " ");
    SpacesAppend(l, r);
  }

  /** Merging a pair never changes the characters a key spells. */
  lemma {:induction false} MergeReplaceWord(s: string, l: string, r: string)
    ensures NoSpaces(Replace(s, l + " " + r, l + r)) == NoSpaces(s)
    decreases |s|
  {
    var pat, rep := l + " " + r, l + r;
    if s == [] {
    } else if pat <= s {
      var rest := s[|pat|..];
      MergeReplaceWord(rest, l, r);
      assert s == pat + rest;
      SpacesAppend(pat, rest);
      SpacesAppend(rep, Replace(rest, pat, rep));
      PairSpelling(l, r);
      assert Replace(s, pat, rep) == rep + Replace(rest, pat, rep);
    } else {
      MergeReplaceWord(s[1..], l, r);
      assert s == [s[0]] + s[1..];
      SpacesAppend([s[0]], s[1..]);
      SpacesAppend([s[0]], Replace(s[1..], pat, rep));
    }
  }

  /** Merging a pair removes one space for every occurrence replaced. */
  lemma {:induction false} MergeReplaceSpaces(s: string, l: string, r: string)
    ensures Spaces(Replace(s, l + " " + r, l + r)) + Matches(s, l + " " + r) == Spaces(s)
    decreases |s|
  {
    var pat, rep := l + " " + r, l + r;
    if s == [] {
    } else if pat <= s {
      var rest := s[|pat|..];
      MergeReplaceSpaces(rest, l, r);
      assert s == pat + rest;
      SpacesAppend(pat, rest);
      SpacesAppend(rep, Replace(rest, pat, rep));
      PairSpelling(l, r);
      assert Replace(s, pat, rep) == rep + Replace(rest, pat, rep);
      assert Matches(s, pat) == 1 + Matches(rest, pat);
    } else {
      MergeReplaceSpaces(s[1..], l, r);
      assert s == [s[0]] + s[1..];
      SpacesAppend([s[0]], s[1..]);
      SpacesAppend([s[0]], Replace(s[1..], pat, rep));
    }
  }

  lemma JoinSpacing(a: string, b: string)
    requires NoDoubleSpace(a) && NoDoubleSpace(b)
    requires a != [] && b != [] ==> a[|a| - 1] != ' ' || b[0] != ' '
    requires OnlyPlainSpaces(a) && OnlyPlainSpaces(b)
    ensures NoDoubleSpace(a + b) && OnlyPlainSpaces(a + b)
  {
  }

  lemma DropSpacing(s: string, n: nat)
    requires n <= |s| && NoDoubleSpace(s) && OnlyPlainSpaces(s)
    ensures NoDoubleSpace(s[n..]) && OnlyPlainSpaces(s[n..])
  {
  }

  /** Replacing by a symbol (no whitespace at all) keeps the string empty or
      non-empty, and creates no leading or trailing space. */
  lemma {:induction false} ReplaceEnds(s: string, pat: string, rep: string)
    requires pat != [] && IsToken(rep)
    ensures Replace(s, pat, rep) == [] <==> s == []
    ensures Replace(s, pat, rep) != [] && Replace(s, pat, rep)[0] == ' ' ==> s[0] == ' '
    ensures Replace(s, pat, rep) != [] && Replace(s, pat, rep)[|Replace(s, pat, rep)| - 1] == ' '
            ==> s[|s| - 1] == ' '
    decreases |s|
  {
    if s == [] {
    } else if pat <= s {
      var rest := s[|pat|..];
      var tail := Replace(rest, pat, rep);
      ReplaceEnds(rest, pat, rep);
      assert Replace(s, pat, rep) == rep + tail;
      if tail != [] {
        assert s[|s| - 1] == rest[|rest| - 1];
      }
    } else {
      var t := s[1..];
      var tail := Replace(t, pat, rep);
      ReplaceEnds(t, pat, rep);
      assert Replace(s, pat, rep) == [s[0]] + tail;
      if tail != [] {
        assert s[|s| - 1] == t[|t| - 1];
      }
    }
  }

  /** Replacing by a symbol never creates a doubled space or other whitespace. */
  lemma {:induction false} ReplaceSpacing(s: string, pat: string, rep: string)
    requires pat != [] && IsToken(rep)
    requires NoDoubleSpace(s) && OnlyPlainSpaces(s)
    ensures NoDoubleSpace(Replace(s, pat, rep)) && OnlyPlainSpaces(Replace(s, pat, rep))
    decreases |s|
  {
    if s == [] {
    } else if pat <= s {
      var rest := s[|pat|..];
      var tail := Replace(rest, pat, rep);
      DropSpacing(s, |pat|);
      ReplaceSpacing(rest, pat, rep);
      assert Replace(s, pat, rep) == rep + tail;
      JoinSpacing(rep, tail);
    } else {
      var t := s[1..];
      var tail := Replace(t, pat, rep);
      DropSpacing(s, 1);
      ReplaceSpacing(t, pat, rep);
      ReplaceEnds(t, pat, rep);
      assert Replace(s, pat, rep) == [s[0]] + tail;
      assert tail != [] && tail[0] == ' ' ==> s[1] == ' ';
      JoinSpacing([s[0]], tail);
    }
  }

  /** The merge replacement keeps a word-table key well spaced. */
  lemma MergeReplaceSpacing(s: string, l: string, r: string)
    requires IsToken(l) && IsToken(r) && WellSpaced(s)
    ensures WellSpaced(Replace(s, l + " " + r, l + r))
  {
    assert IsToken(l + r) by {
      var lr := l + r;
      forall i | 0 <= i < |lr| ensures !IsSpace(lr[i]) {
        if i < |l| { assert lr[i] == l[i]; } else { assert lr[i] == r[i - |l|]; }
      }
    }
    ReplaceEnds(s, l + " " + r, l + r);
    ReplaceSpacing(s, l + " " + r, l + r);
  }

  lemma ContainsInSuffix(a: string, b: string, t: string)
    requires Contains(b, t)
    ensures Contains(a + b, t)
  {
    var k :| 0 <= k <= |b| && t <= b[k..];
    assert (a + b)[|a| + k..] == b[k..];
  }

  /** Two neighbouring symbols of a list show up, separated by one space, in
      the list's `' '.join`. */
  lemma {:induction false} JoinContainsNeighbours(toks: seq<string>, i: nat)
    requires i + 1 < |toks|
    ensures Contains(Join(" ", toks), toks[i] + " " + toks[i + 1])
    decreases i
  {
    var rest := Join(" ", toks[1..]);
    assert Join(" ", toks) == toks[0] + " " + rest;
    if i == 0 {
      assert toks[1..][0] == toks[1];
      if |toks| == 2 {
        assert rest == toks[1];
      } else {
        assert rest == toks[1] + " " + Join(" ", toks[2..]) by {
          assert toks[1..][1..] == toks[2..];
        }
      }
      assert Join(" ", toks)[0..] == Join(" ", toks);
    } else {
      JoinContainsNeighbours(toks[1..], i - 1);
      ContainsInSuffix(toks[0] + " ", rest, toks[i] + " " + toks[i + 1]);
    }
  }

  /** `' '.join(w)` of a whitespace-free word is a well-spaced key whose symbols
      are the word's characters: one space fewer than characters, and the word
      comes back when the spaces are removed. */
  lemma SpacedWord(w: string)
    requires IsToken(w)
    ensures WellSpaced(Spaced(w))
    ensures Spaces(Spaced(w)) == |w| - 1
    ensures NoSpaces(Spaced(w)) == w
  {
    SpacedShape(w);
    SpacedCounts(w);
  }

  lemma {:induction false} SpacedShape(w: string)
    requires IsToken(w)
    ensures WellSpaced(Spaced(w))
    decreases |w|
  {
    if |w| > 1 {
      var t := w[1..];
      assert IsToken(t) by {
        forall i | 0 <= i < |t| ensures !IsSpace(t[i]) { assert t[i] == w[i + 1]; }
      }
      SpacedShape(t);
      var head: string := [w[0], ' '];
      assert Spaced(w) == head + Spaced(t);
      JoinSpacing(head, Spaced(t));
    }
  }

  lemma {:induction false} SpacedCounts(w: string)
    requires IsToken(w)
    ensures Spaces(Spaced(w)) == |w| - 1
    ensures NoSpaces(Spaced(w)) == w
    decreases |w|
  {
    if |w| == 1 {
      assert NoSpaces(w[1..]) == [];
    } else {
      var t := w[1..];
      assert IsToken(t) by {
        forall i | 0 <= i < |t| ensures !IsSpace(t[i]) { assert t[i] == w[i + 1]; }
      }
      SpacedCounts(t);
      var head: string := [w[0], ' '];
      assert Spaced(w) == head + Spaced(t);
      SpacesAppend(head, Spaced(t));
      assert NoSpaces(head) == [w[0]] by {
        assert head[1..] == " ";
        assert " "[1..] == [];
      }
      assert w == [w[0]] + t;
    }
  }

  /** `str.replace` works on characters, not symbols: in the key "ab c" the
      symbols "b" and "c" are not neighbours, yet replacing "b c" by "bc"
      fuses the symbols "ab" and "c" into "abc". */
  lemma ReplaceCrossesSymbols()
    ensures Split("ab c") == ["ab", "c"]
    ensures Replace("ab c", "b c", "bc") == "abc"
  {
    assert "ab c"[1..] == "b c";
    assert "b c"[1..] == " c";
    assert " c"[1..] == "c";
    assert "c"[1..] == [];
    assert "ab c"[0] == 'a' != 'b';
    assert !("b c" <= "ab c");
    assert [] + ['c'] == "c" && [] + ['a'] == "a" && "a" + ['b'] == "ab";
    assert !IsSpace('a') && !IsSpace('b') && !IsSpace('c') && IsSpace(' ');
    assert SplitAfter("c", []) == SplitAfter([], "c") == ["c"];
    assert SplitAfter(" c", "ab") == ["ab"] + SplitAfter("c", []);
    assert SplitAfter("b c", "a") == SplitAfter(" c", "ab");
    assert SplitAfter("ab c", []) == SplitAfter("b c", "a");
    assert "b c" <= "b c";
    assert "b c"[3..] == [];
  }
}

