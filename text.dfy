/**
  Whitespace-insensitive comparison of artifact contents (src/utils/text.ts).

  `Normalize` is the source's inner `normalize`: trim both ends, then replace
  every run of whitespace with a single space. `AreContentsEqual` compares the
  normalised forms character for character.

  The reference definition beside it is `Words`: the sequence of maximal
  whitespace-free pieces of a string. The main results are that a normalised
  string is its words joined by single spaces, that two contents are equal
  exactly when they have the same words, and that normalisation is idempotent
  and fixes exactly the strings already in normal form.
*/
module Text {

  /** The characters JavaScript's `String.prototype.trim` removes and the regex class `\s` matches. */
  predicate IsSpace(c: char) {
    || c == '\t' || c == '\n' || c == '\U{000B}' || c == '\U{000C}' || c == '\r' || c == ' '
    || c == '\U{00A0}' || c == '\U{1680}' || ('\U{2000}' <= c <= '\U{200A}')
    || c == '\U{2028}' || c == '\U{2029}' || c == '\U{202F}' || c == '\U{205F}'
    || c == '\U{3000}' || c == '\U{FEFF}'
  }

  predicate NoSpaces(s: string) {
    forall i :: 0 <= i < |s| ==> !IsSpace(s[i])
  }

  predicate AllSpaces(s: string) {
    forall i :: 0 <= i < |s| ==> IsSpace(s[i])
  }

  /** A word: a non-empty run of non-whitespace characters. */
  predicate IsWord(w: string) {
    w != [] && NoSpaces(w)
  }

  /** Every whitespace character is a plain space followed by a non-whitespace character. */
  predicate SingleSpaced(s: string) {
    forall i :: 0 <= i < |s| && IsSpace(s[i]) ==> s[i] == ' ' && i + 1 < |s| && !IsSpace(s[i + 1])
  }

  /** Normal form: no leading or trailing whitespace, and whitespace only as lone spaces. */
  predicate IsNormal(s: string) {
    (s == [] || !IsSpace(s[0])) && SingleSpaced(s)
  }

  /** `trimStart`: drops the leading whitespace and nothing else. */
  function TrimStart(s: string): (r: string)
    ensures |r| <= |s|
    ensures r == [] || !IsSpace(r[0])
  {
    if s != [] && IsSpace(s[0]) then TrimStart(s[1..]) else s
  }

  /** `trimEnd`: drops the trailing whitespace and nothing else. */
  function TrimEnd(s: string): (r: string)
    ensures |r| <= |s| && r == s[..|r|]
    ensures r == [] || !IsSpace(r[|r| - 1])
  {
    if s != [] && IsSpace(s[|s| - 1]) then TrimEnd(s[..|s| - 1]) else s
  }

  /** `String.prototype.trim`: the result is empty exactly when the input is all whitespace. */
  function Trim(s: string): (r: string)
    ensures r == [] || (!IsSpace(r[0]) && !IsSpace(r[|r| - 1]))
    ensures r == [] <==> AllSpaces(s)
  {
    var t := TrimStart(s);
    TrimStartDropsOnlySpaces(s);
    TrimEndDropsOnlySpaces(t);
    TrimmedBlankIffAllSpaces(s, t, TrimEnd(t));
    TrimEnd(t)
  }

  lemma {:induction false} TrimStartIsSuffix(s: string)
    ensures TrimStart(s) == s[|s| - |TrimStart(s)|..]
    decreases |s|
  {
    if s != [] && IsSpace(s[0]) {
      TrimStartIsSuffix(s[1..]);
      assert s[1..][|s| - 1 - |TrimStart(s)|..] == s[|s| - |TrimStart(s)|..];
    }
  }

  lemma {:induction false} TrimStartDropsOnlySpaces(s: string)
    ensures AllSpaces(s[..|s| - |TrimStart(s)|])
    decreases |s|
  {
    if s != [] && IsSpace(s[0]) {
      TrimStartDropsOnlySpaces(s[1..]);
      var k := |s| - |TrimStart(s)|;
      forall i | 0 <= i < k ensures IsSpace(s[..k][i]) {
        if i > 0 {
          assert s[..k][i] == s[1..][..k - 1][i - 1];
        }
      }
    }
  }

  lemma {:induction false} TrimEndDropsOnlySpaces(s: string)
    ensures AllSpaces(s[|TrimEnd(s)|..])
    decreases |s|
  {
    if s != [] && IsSpace(s[|s| - 1]) {
      var init := s[..|s| - 1];
      TrimEndDropsOnlySpaces(init);
      var k := |TrimEnd(s)|;
      forall i | 0 <= i < |s| - k ensures IsSpace(s[k..][i]) {
        if k + i < |s| - 1 {
          assert s[k..][i] == init[k..][i];
        }
      }
    }
  }

  lemma {:induction false} TrimmedBlankIffAllSpaces(s: string, t: string, r: string)
    requires t == TrimStart(s) && r == TrimEnd(t)
    requires AllSpaces(s[..|s| - |t|]) && AllSpaces(t[|r|..])
    ensures r == [] <==> AllSpaces(s)
  {
    var k := |s| - |t|;
    if r == [] {
      forall i | 0 <= i < |s| ensures IsSpace(s[i]) {
        if i < k {
          assert s[i] == s[..k][i];
        }
      }
    } else {
      TrimStartIsSuffix(s);
      assert s[k] == t[0] == r[0];
    }
  }

  /** `replace(/\s+/g, ' ')`: every maximal run of whitespace becomes one space. */
  function CollapseRuns(s: string): (r: string)
    ensures |r| <= |s|
    decreases |s|
  {
    if s == [] then []
    else if IsSpace(s[0]) then " " + CollapseRuns(TrimStart(s))
    else [s[0]] + CollapseRuns(s[1..])
  }

  /** The inner `normalize` of `areContentsEqual`. */
  function Normalize(s: string): string {
    CollapseRuns(Trim(s))
  }

  /** `areContentsEqual`: equal after normalisation, character for character and case-sensitive. */
  predicate AreContentsEqual(content1: string, content2: string) {
    Normalize(content1) == Normalize(content2)
  }

  /** The longest whitespace-free prefix. */
  function TakeWord(s: string): (w: string)
    ensures |w| <= |s| && w == s[..|w|]
    ensures |w| < |s| ==> IsSpace(s[|w|])
    ensures s != [] && !IsSpace(s[0]) ==> w != []
  {
    if s != [] && !IsSpace(s[0]) then [s[0]] + TakeWord(s[1..]) else []
  }

  /** Reference definition: the maximal whitespace-free pieces of `s`, in order. */
  function Words(s: string): (ws: seq<string>)
    decreases |s|
  {
    var t := TrimStart(s);
    if t == [] then []
    else
      var w := TakeWord(t);
      [w] + Words(t[|w|..])
  }

  /** Words separated by single spaces. */
  function Join(ws: seq<string>): string {
    if ws == [] then []
    else if |ws| == 1 then ws[0]
    else ws[0] + ([' '] + Join(ws[1..]))
  }

  predicate AllWords(ws: seq<string>) {
    forall i :: 0 <= i < |ws| ==> IsWord(ws[i])
  }

  lemma {:induction false} TakeWordHasNoSpaces(s: string)
    ensures NoSpaces(TakeWord(s))
    decreases |s|
  {
    if s != [] && !IsSpace(s[0]) {
      TakeWordHasNoSpaces(s[1..]);
      var w := TakeWord(s);
      forall i | 0 <= i < |w| ensures !IsSpace(w[i]) {
        if i > 0 {
          assert w[i] == TakeWord(s[1..])[i - 1];
        }
      }
    }
  }

  /** Every piece `Words` returns is a word. */
  lemma {:induction false} WordsAreWords(s: string)
    ensures AllWords(Words(s))
    decreases |s|
  {
    var t := TrimStart(s);
    if t != [] {
      var w := TakeWord(t);
      TakeWordHasNoSpaces(t);
      WordsAreWords(t[|w|..]);
      var ws := Words(s);
      assert ws == [w] + Words(t[|w|..]);
      forall i | 0 <= i < |ws| ensures IsWord(ws[i]) {
        if i > 0 {
          assert ws[i] == Words(t[|w|..])[i - 1];
        }
      }
    }
  }

  // ---------------------------------------------------------------------
  // Helper facts about trimming and words
  // ---------------------------------------------------------------------

  lemma {:induction false} TrimStartOfSpacePrefix(pre: string, s: string)
    requires AllSpaces(pre)
    ensures TrimStart(pre + s) == TrimStart(s)
    decreases |pre|
  {
    if pre == [] {
      assert pre + s == s;
    } else {
      assert (pre + s)[0] == pre[0];
      assert (pre + s)[1..] == pre[1..] + s;
      TrimStartOfSpacePrefix(pre[1..], s);
    }
  }

  lemma {:induction false} TrimStartAppendSpace(s: string, c: char)
    requires IsSpace(c)
    ensures TrimStart(s + [c]) == if TrimStart(s) == [] then [] else TrimStart(s) + [c]
    decreases |s|
  {
    if s == [] {
    } else if IsSpace(s[0]) {
      assert (s + [c])[1..] == s[1..] + [c];
      TrimStartAppendSpace(s[1..], c);
    }
  }

  lemma {:induction false} TakeWordAppendSpace(s: string, c: char)
    requires IsSpace(c)
    ensures TakeWord(s + [c]) == TakeWord(s)
    decreases |s|
  {
    if s != [] && !IsSpace(s[0]) {
      assert (s + [c])[1..] == s[1..] + [c];
      TakeWordAppendSpace(s[1..], c);
    }
  }

  lemma {:induction false} TakeWordOfWordPrefix(w: string, t: string)
    requires NoSpaces(w)
    requires t == [] || IsSpace(t[0])
    ensures TakeWord(w + t) == w
    decreases |w|
  {
    if w != [] {
      assert (w + t)[0] == w[0];
      assert (w + t)[1..] == w[1..] + t;
      TakeWordOfWordPrefix(w[1..], t);
    }
  }

  lemma {:induction false} WordsOfTrimStart(s: string)
    ensures Words(TrimStart(s)) == Words(s)
  {
    var t := TrimStart(s);
    assert TrimStart(t) == t;
  }

  lemma {:induction false} WordsAppendSpace(s: string, c: char)
    requires IsSpace(c)
    ensures Words(s + [c]) == Words(s)
    decreases |s|
  {
    var t := TrimStart(s);
    TrimStartAppendSpace(s, c);
    if t == [] {
      assert TrimStart(s + [c]) == [];
    } else {
      var w := TakeWord(t);
      TakeWordAppendSpace(t, c);
      assert TrimStart(s + [c]) == t + [c];
      assert (t + [c])[|w|..] == t[|w|..] + [c];
      WordsAppendSpace(t[|w|..], c);
      calc {
        Words(s + [c]);
        [w] + Words(t[|w|..] + [c]);
        [w] + Words(t[|w|..]);
        Words(s);
      }
    }
  }

  lemma {:induction false} WordsAppendSpaces(s: string, post: string)
    requires AllSpaces(post)
    ensures Words(s + post) == Words(s)
    decreases |post|
  {
    if post == [] {
      assert s + post == s;
    } else {
      var init, c := post[..|post| - 1], post[|post| - 1];
      assert IsSpace(c);
      assert AllSpaces(init) by {
        forall i | 0 <= i < |init| ensures IsSpace(init[i]) {
          assert init[i] == post[i];
        }
      }
      assert s + post == (s + init) + [c];
      WordsAppendSpace(s + init, c);
      WordsAppendSpaces(s, init);
    }
  }

  lemma {:induction false} WordsOfTrimEnd(s: string)
    ensures Words(TrimEnd(s)) == Words(s)
    decreases |s|
  {
    if s != [] && IsSpace(s[|s| - 1]) {
      var init := s[..|s| - 1];
      assert s == init + [s[|s| - 1]];
      WordsOfTrimEnd(init);
      WordsAppendSpace(init, s[|s| - 1]);
    }
  }

  lemma {:induction false} CollapseRunsOfWordPrefix(w: string, t: string)
    requires NoSpaces(w)
    ensures CollapseRuns(w + t) == w + CollapseRuns(t)
    decreases |w|
  {
    if w == [] {
      assert w + t == t;
    } else {
      var wt := w + t;
      assert !IsSpace(wt[0]) by { assert wt[0] == w[0]; }
      assert NoSpaces(w[1..]) by {
        forall i | 0 <= i < |w[1..]| ensures !IsSpace(w[1..][i]) {
          assert w[1..][i] == w[i + 1];
        }
      }
      assert wt[1..] == w[1..] + t;
      CollapseRunsOfWordPrefix(w[1..], t);
      assert CollapseRuns(wt) == [w[0]] + (w[1..] + CollapseRuns(t));
      assert w == [w[0]] + w[1..];
    }
  }

  /** Trimming the start of a string that ends in a non-whitespace character keeps that character. */
  lemma {:induction false} TrimStartKeepsLast(s: string)
    requires s != [] && !IsSpace(s[|s| - 1])
    ensures TrimStart(s) != [] && TrimStart(s)[|TrimStart(s)| - 1] == s[|s| - 1]
    decreases |s|
  {
    if IsSpace(s[0]) {
      assert s[1..][|s| - 2] == s[|s| - 1];
      TrimStartKeepsLast(s[1..]);
    }
  }

  /** On a string with no whitespace at either end, collapsing runs joins its words. */
  lemma {:induction false} CollapseRunsOfTrimmed(t: string)
    requires t == [] || (!IsSpace(t[0]) && !IsSpace(t[|t| - 1]))
    ensures CollapseRuns(t) == Join(Words(t))
    decreases |t|
  {
    if t != [] {
      assert TrimStart(t) == t;
      var w := TakeWord(t);
      var rest := t[|w|..];
      assert Words(t) == [w] + Words(rest);
      assert t == w + rest;
      TakeWordHasNoSpaces(t);
      CollapseRunsOfWordPrefix(w, rest);
      if rest != [] {
        var u := TrimStart(rest);
        assert rest[|rest| - 1] == t[|t| - 1];
        TrimStartKeepsLast(rest);
        CollapseRunsOfTrimmed(u);
        WordsOfTrimStart(rest);
        assert Words(u) != [];
        assert ([w] + Words(rest))[1..] == Words(rest);
      }
    }
  }

  lemma {:induction false} CollapseRunsOfSingleSpaced(s: string)
    requires SingleSpaced(s)
    ensures CollapseRuns(s) == s
    decreases |s|
  {
    if s != [] {
      assert SingleSpaced(s[1..]) by {
        forall i | 0 <= i < |s[1..]| && IsSpace(s[1..][i])
          ensures s[1..][i] == ' ' && i + 1 < |s[1..]| && !IsSpace(s[1..][i + 1])
        {
          assert s[1..][i] == s[i + 1];
        }
      }
      CollapseRunsOfSingleSpaced(s[1..]);
      if IsSpace(s[0]) {
        assert TrimStart(s[1..]) == s[1..];
      }
      assert s == [s[0]] + s[1..];
    }
  }

  lemma {:induction false} JoinOfWords(ws: seq<string>)
    requires AllWords(ws)
    ensures ws != [] ==> Join(ws) != [] && Join(ws)[0] == ws[0][0] && !IsSpace(Join(ws)[|Join(ws)| - 1])
    ensures IsNormal(Join(ws))
    decreases |ws|
  {
    if |ws| > 1 {
      var w, j := ws[0], Join(ws[1..]);
      JoinOfWords(ws[1..]);
      var s := w + ([' '] + j);
      assert Join(ws) == s;
      forall i | 0 <= i < |s| && IsSpace(s[i])
        ensures s[i] == ' ' && i + 1 < |s| && !IsSpace(s[i + 1])
      {
        if i < |w| {
        } else if i == |w| {
          assert s[i + 1] == j[0];
        } else {
          assert s[i] == j[i - |w| - 1];
          if i + 1 < |s| {
            assert s[i + 1] == j[i - |w|];
          }
        }
      }
      assert s[|s| - 1] == j[|j| - 1];
    }
  }

  /** A word followed by nothing or by whitespace is the first of the words. */
  lemma {:induction false} WordsOfWordThen(w: string, rest: string)
    requires IsWord(w)
    requires rest == [] || IsSpace(rest[0])
    ensures Words(w + rest) == [w] + Words(rest)
  {
    var t := w + rest;
    assert t[0] == w[0];
    assert TrimStart(t) == t;
    TakeWordOfWordPrefix(w, rest);
    assert t[|w|..] == rest;
  }

  /** A leading whitespace character does not change the words. */
  lemma {:induction false} WordsOfSpaceThen(c: char, s: string)
    requires IsSpace(c)
    ensures Words([c] + s) == Words(s)
  {
    var t := [c] + s;
    assert t[1..] == s;
    assert TrimStart(t) == TrimStart(s);
    WordsOfTrimStart(t);
    WordsOfTrimStart(s);
  }

  lemma {:induction false} AllWordsOfTail(ws: seq<string>)
    requires AllWords(ws) && ws != []
    ensures AllWords(ws[1..])
  {
    forall i | 0 <= i < |ws| - 1 ensures IsWord(ws[1..][i]) {
      assert ws[1..][i] == ws[i + 1];
    }
  }

  lemma {:induction false} WordsOfOneWord(w: string)
    requires IsWord(w)
    ensures Words(w) == [w]
  {
    WordsOfWordThen(w, []);
    assert w + [] == w;
    assert Words([]) == [];
  }

  lemma {:induction false} WordsOfJoinStep(ws: seq<string>)
    requires |ws| > 1 && IsWord(ws[0])
    requires Words(Join(ws[1..])) == ws[1..]
    ensures Words(Join(ws)) == ws
  {
    var w, j := ws[0], Join(ws[1..]);
    var rest := [' '] + j;
    assert Join(ws) == w + rest;
    WordsOfWordThen(w, rest);
    WordsOfSpaceThen(' ', j);
    assert ws == [w] + ws[1..];
  }

  lemma {:induction false} WordsOfJoin(ws: seq<string>)
    requires AllWords(ws)
    ensures Words(Join(ws)) == ws
    decreases |ws|
  {
    if |ws| == 1 {
      WordsOfOneWord(ws[0]);
      assert ws == [ws[0]];
    } else if |ws| > 1 {
      AllWordsOfTail(ws);
      WordsOfJoin(ws[1..]);
      WordsOfJoinStep(ws);
    }
  }

  // ---------------------------------------------------------------------
  // Properties of normalisation and content equality
  // ---------------------------------------------------------------------

  /** A normalised string is the words of the input, joined by single spaces. */
  lemma {:induction false} NormalizeJoinsWords(s: string)
    ensures Normalize(s) == Join(Words(s))
  {
    var t := TrimStart(s);
    var r := TrimEnd(t);
    assert r != [] ==> r[0] == t[0];
    CollapseRunsOfTrimmed(r);
    WordsOfTrimEnd(t);
    WordsOfTrimStart(s);
  }

  /** Normalisation leaves no leading or trailing whitespace and no two adjacent whitespace characters. */
  lemma {:induction false} NormalizeIsNormal(s: string)
    ensures IsNormal(Normalize(s))
    ensures Normalize(s) == [] || (!IsSpace(Normalize(s)[0]) && !IsSpace(Normalize(s)[|Normalize(s)| - 1]))
    ensures forall i :: 0 <= i < |Normalize(s)| - 1 ==> !(IsSpace(Normalize(s)[i]) && IsSpace(Normalize(s)[i + 1]))
  {
    NormalizeJoinsWords(s);
    WordsAreWords(s);
    JoinOfWords(Words(s));
  }

  /** A string is left unchanged by normalisation exactly when it is already in normal form. */
  lemma {:induction false} NormalizeFixesExactlyNormal(s: string)
    ensures Normalize(s) == s <==> IsNormal(s)
  {
    NormalizeIsNormal(s);
    if IsNormal(s) {
      if s != [] {
        var last := |s| - 1;
        assert !IsSpace(s[last]);
        assert TrimStart(s) == s;
        assert TrimEnd(s) == s;
      }
      CollapseRunsOfSingleSpaced(s);
    }
  }

  /** Normalising twice is normalising once. */
  lemma {:induction false} NormalizeIdempotent(s: string)
    ensures Normalize(Normalize(s)) == Normalize(s)
  {
    NormalizeIsNormal(s);
    NormalizeFixesExactlyNormal(Normalize(s));
  }

  /** Two contents are equal exactly when they consist of the same words in the same order. */
  lemma {:induction false} ContentsEqualIffSameWords(content1: string, content2: string)
    ensures AreContentsEqual(content1, content2) <==> Words(content1) == Words(content2)
  {
    NormalizeJoinsWords(content1);
    NormalizeJoinsWords(content2);
    WordsAreWords(content1);
    WordsAreWords(content2);
    WordsOfJoin(Words(content1));
    WordsOfJoin(Words(content2));
  }

  /** Content equality is an equivalence: reflexive, symmetric and transitive. */
  lemma {:induction false} ContentsEqualIsEquivalence(a: string, b: string, c: string)
    ensures AreContentsEqual(a, a)
    ensures AreContentsEqual(a, b) ==> AreContentsEqual(b, a)
    ensures AreContentsEqual(a, b) && AreContentsEqual(b, c) ==> AreContentsEqual(a, c)
  {
  }

  /** Whitespace added around a content never makes it different. */
  lemma {:induction false} SurroundingSpaceIsIgnored(pre: string, s: string, post: string)
    requires AllSpaces(pre) && AllSpaces(post)
    ensures AreContentsEqual(pre + s + post, s)
  {
    WordsAppendSpaces(pre + s, post);
    TrimStartOfSpacePrefix(pre, s);
    WordsOfTrimStart(pre + s);
    WordsOfTrimStart(s);
    ContentsEqualIffSameWords(pre + s + post, s);
  }

  /** The whitespace variant used by the update-content deduplication test. */
  lemma {:induction false} TrailingNewlineVariantIsEqual()
    ensures AreContentsEqual("  Existing content in the artifact  \n", "Existing content in the artifact")
  {
    var body, pre, post := "Existing content in the artifact", "  ", "  \n";
    assert AllSpaces(pre) && AllSpaces(post);
    assert "  Existing content in the artifact  \n" == pre + body + post;
    SurroundingSpaceIsIgnored(pre, body, post);
  }
}
