/** The JavaScript regular-expression class `\s` and the tokenizer
    `s.match(/\S+/g)`: the maximal runs of characters outside `\s`. */
module Whitespace {

  /** JavaScript `\s`: the ASCII blanks, no-break space, ogham space mark,
      the general-punctuation spaces U+2000..U+200A, line and paragraph
      separators, narrow no-break space, medium mathematical space,
      ideographic space and the byte-order mark. */
  predicate IsWs(c: char)
  {
    || c == ' ' || c == '\t' || c == '\n' || c == '\U{000B}' || c == '\U{000C}' || c == '\r'
    || c == '\U{00A0}' || c == '\U{1680}' || ('\U{2000}' <= c <= '\U{200A}')
    || c == '\U{2028}' || c == '\U{2029}' || c == '\U{202F}' || c == '\U{205F}'
    || c == '\U{3000}' || c == '\U{FEFF}'
  }

  /** Every character of `s` is whitespace; `""` qualifies. */
  ghost predicate AllWs(s: string)
  {
    forall i :: 0 <= i < |s| ==> IsWs(s[i])
  }

  /** A word: a non-empty string with no whitespace. */
  ghost predicate IsWord(w: string)
  {
    w != [] && forall i :: 0 <= i < |w| ==> !IsWs(w[i])
  }

  /** JavaScript `s.replace(/\s/g, "")`: the non-whitespace characters of
      `s`, in order. */
  function RemoveWs(s: string): (r: string)
    ensures |r| <= |s|
    ensures forall i :: 0 <= i < |r| ==> !IsWs(r[i]) && r[i] in s
    ensures forall i :: 0 <= i < |s| && !IsWs(s[i]) ==> s[i] in r
  {
    if s == [] then []
    else if IsWs(s[0]) then RemoveWs(s[1..])
    else [s[0]] + RemoveWs(s[1..])
  }

  /** Removing whitespace works piecewise: the kept characters of `a`
      come first, in order, then those of `b`. With the one-character
      cases fixed by the contract of `RemoveWs`, this determines it. */
  lemma {:induction false} RemoveWsAppend(a: string, b: string)
    ensures RemoveWs(a + b) == RemoveWs(a) + RemoveWs(b)
    decreases |a|
  {
    if a == [] {
      assert a + b == b;
    } else {
      assert (a + b)[0] == a[0] && (a + b)[1..] == a[1..] + b;
      RemoveWsAppend(a[1..], b);
    }
  }

  /** Removing the whitespace leaves nothing exactly when there was nothing
      but whitespace. */
  lemma RemoveWsEmpty(s: string)
    ensures RemoveWs(s) == [] <==> AllWs(s)
  {
    var r := RemoveWs(s);
    if r != [] {
      assert r[0] in s;
    }
    if !AllWs(s) {
      var i :| 0 <= i < |s| && !IsWs(s[i]);
      assert s[i] in r;
    }
  }

  /** Length of the leading run of non-whitespace characters of `s`. */
  function WordLength(s: string): (n: nat)
    ensures n <= |s|
    ensures forall i :: 0 <= i < n ==> !IsWs(s[i])
    ensures n == |s| || IsWs(s[n])
  {
    if s == [] || IsWs(s[0]) then 0 else 1 + WordLength(s[1..])
  }

  /** JavaScript `s.match(/\S+/g)` on a string with a match, and the empty
      list where JavaScript returns `null`: the maximal non-whitespace runs of
      `s`, left to right. */
  function Tokens(s: string): (r: seq<string>)
    ensures r == [] <==> AllWs(s)
    ensures forall k :: 0 <= k < |r| ==> IsWord(r[k])
    decreases |s|
  {
    if s == [] then []
    else if IsWs(s[0]) then
      assert AllWs(s) <==> AllWs(s[1..]) by {
        if AllWs(s[1..]) {
          forall i | 0 <= i < |s| ensures IsWs(s[i]) {
            if i > 0 { assert s[i] == s[1..][i - 1]; }
          }
        }
      }
      Tokens(s[1..])
    else
      var n := WordLength(s);
      [s[..n]] + Tokens(s[n..])
  }

  /** A string laid out as `gaps[0] + words[0] + gaps[1] + ... + gaps[k]`. */
  function Weave(gaps: seq<string>, words: seq<string>): (r: string)
    requires |gaps| == |words| + 1
    decreases words
  {
    if words == [] then gaps[0] else gaps[0] + words[0] + Weave(gaps[1..], words[1..])
  }

  /** `words` are the maximal non-whitespace runs of `s`, with `gaps` the
      whitespace around them: outer gaps may be empty, inner ones may not. */
  ghost predicate IsTokenization(s: string, words: seq<string>, gaps: seq<string>)
  {
    && |gaps| == |words| + 1
    && (forall k :: 0 <= k < |gaps| ==> AllWs(gaps[k]))
    && (forall k :: 0 < k < |words| ==> gaps[k] != [])
    && (forall k :: 0 <= k < |words| ==> IsWord(words[k]))
    && s == Weave(gaps, words)
  }

  /** Whitespace in front of `s` widens the first gap. */
  lemma TokenizationConsWs(c: char, t: string, words: seq<string>, g: seq<string>)
    requires IsWs(c) && IsTokenization(t, words, g)
    ensures IsTokenization([c] + t, words, [[c] + g[0]] + g[1..])
  {
    var gaps := [[c] + g[0]] + g[1..];
    assert AllWs(gaps[0]) by {
      forall i | 0 <= i < |gaps[0]| ensures IsWs(gaps[0][i]) {
        if i > 0 { assert gaps[0][i] == g[0][i - 1]; }
      }
    }
    assert forall k :: 0 < k < |gaps| ==> gaps[k] == g[k];
    if words != [] {
      assert gaps[1..] == g[1..];
    }
  }

  /** A word followed by whitespace or nothing becomes the first word. */
  lemma TokenizationConsWord(w: string, t: string, words: seq<string>, g: seq<string>)
    requires IsWord(w) && (t == [] || IsWs(t[0])) && IsTokenization(t, words, g)
    ensures IsTokenization(w + t, [w] + words, [[]] + g)
  {
    var gaps := [[]] + g;
    assert gaps[1..] == g;
    assert ([w] + words)[1..] == words;
    assert forall k :: 0 < k < |gaps| ==> gaps[k] == g[k - 1];
  }

  /** The tokenizer's output lays out `s` as words separated by whitespace. */
  lemma {:induction false} TokensTokenize(s: string)
    ensures exists gaps :: IsTokenization(s, Tokens(s), gaps)
    decreases |s|
  {
    if s == [] {
      assert IsTokenization(s, Tokens(s), [[]]);
    } else if IsWs(s[0]) {
      TokensTokenize(s[1..]);
      var g :| IsTokenization(s[1..], Tokens(s[1..]), g);
      TokensWsStep(s, g);
    } else {
      var n := WordLength(s);
      TokensTokenize(s[n..]);
      var g :| IsTokenization(s[n..], Tokens(s[n..]), g);
      TokensWordStep(s, g);
    }
  }

  /** Leading whitespace widens the first gap of the tokenizer's layout. */
  lemma TokensWsStep(s: string, g: seq<string>)
    requires s != [] && IsWs(s[0]) && IsTokenization(s[1..], Tokens(s[1..]), g)
    ensures IsTokenization(s, Tokens(s), [[s[0]] + g[0]] + g[1..])
  {
    TokenizationWsHead(s, Tokens(s[1..]), g);
    TokensSkipWs(s);
  }

  /** `TokenizationConsWs` for a string given whole. */
  lemma TokenizationWsHead(s: string, words: seq<string>, g: seq<string>)
    requires s != [] && IsWs(s[0]) && IsTokenization(s[1..], words, g)
    ensures IsTokenization(s, words, [[s[0]] + g[0]] + g[1..])
  {
    TokenizationConsWs(s[0], s[1..], words, g);
    assert [s[0]] + s[1..] == s;
  }

  /** A leading word becomes the first word of the tokenizer's layout. */
  lemma TokensWordStep(s: string, g: seq<string>)
    requires s != [] && !IsWs(s[0])
    requires IsTokenization(s[WordLength(s)..], Tokens(s[WordLength(s)..]), g)
    ensures IsTokenization(s, Tokens(s), [[]] + g)
  {
    TokenizationWordHead(s, Tokens(s[WordLength(s)..]), g);
    TokensSkipWord(s);
  }

  /** `TokenizationConsWord` for a string given whole. */
  lemma TokenizationWordHead(s: string, words: seq<string>, g: seq<string>)
    requires s != [] && !IsWs(s[0])
    requires IsTokenization(s[WordLength(s)..], words, g)
    ensures IsTokenization(s, [s[..WordLength(s)]] + words, [[]] + g)
  {
    var n := WordLength(s);
    TokenizationConsWord(s[..n], s[n..], words, g);
    assert s[..n] + s[n..] == s;
  }

  /** A word followed by whitespace or nothing is the leading run. */
  lemma WordLengthOfWord(s: string, w: string)
    requires IsWord(w) && w <= s
    requires |w| == |s| || IsWs(s[|w|])
    ensures WordLength(s) == |w|
  {
  }

  /** The layout of `s` as words and whitespace determines the words: they
      are the tokenizer's output. */
  lemma {:induction false} TokenizationUnique(s: string, words: seq<string>, gaps: seq<string>)
    requires IsTokenization(s, words, gaps)
    ensures words == Tokens(s)
    decreases |s|
  {
    if words == [] {
      assert s == gaps[0];
    } else if gaps[0] != [] {
      UniqueWsStep(s, words, gaps);
      TokenizationUnique(s[1..], words, [gaps[0][1..]] + gaps[1..]);
      TokensSkipWs(s);
    } else {
      var w := words[0];
      UniqueWordStep(s, words, gaps);
      TokenizationUnique(s[|w|..], words[1..], gaps[1..]);
      TokensSkipWord(s);
    }
  }

  /** A layout with a non-empty first gap starts with whitespace, and
      dropping it leaves a layout of the rest. */
  lemma UniqueWsStep(s: string, words: seq<string>, gaps: seq<string>)
    requires IsTokenization(s, words, gaps) && words != [] && gaps[0] != []
    ensures s != [] && IsWs(s[0])
    ensures IsTokenization(s[1..], words, [gaps[0][1..]] + gaps[1..])
  {
    var g := [gaps[0][1..]] + gaps[1..];
    assert s == gaps[0] + words[0] + Weave(gaps[1..], words[1..]);
    assert s[0] == gaps[0][0];
    assert s[1..] == gaps[0][1..] + words[0] + Weave(gaps[1..], words[1..]);
    assert g[1..] == gaps[1..];
    assert s[1..] == Weave(g, words);
    assert AllWs(g[0]) by {
      forall i | 0 <= i < |g[0]| ensures IsWs(g[0][i]) {
        assert g[0][i] == gaps[0][i + 1];
      }
    }
    assert forall k :: 0 < k < |g| ==> g[k] == gaps[k];
  }

  /** A layout with an empty first gap starts with its first word, which
      is the leading run, and the rest is laid out by the remaining words. */
  lemma UniqueWordStep(s: string, words: seq<string>, gaps: seq<string>)
    requires IsTokenization(s, words, gaps) && words != [] && gaps[0] == []
    ensures s != [] && !IsWs(s[0]) && WordLength(s) == |words[0]|
    ensures s[..|words[0]|] == words[0]
    ensures IsTokenization(s[|words[0]|..], words[1..], gaps[1..])
  {
    var w := words[0];
    var rest := Weave(gaps[1..], words[1..]);
    assert s == w + rest;
    assert rest == [] || IsWs(rest[0]) by {
      if words[1..] == [] {
        assert rest == gaps[1];
      } else {
        assert gaps[1] != [];
        assert rest == gaps[1] + words[1] + Weave(gaps[2..], words[2..]) by {
          assert gaps[1..][1..] == gaps[2..];
          assert words[1..][1..] == words[2..];
        }
        assert rest[0] == gaps[1][0];
      }
    }
    assert w <= s;
    WordLengthOfWord(s, w);
    assert s[..|w|] == w;
    assert s[|w|..] == rest;
    assert forall k :: 0 <= k < |gaps[1..]| ==> gaps[1..][k] == gaps[k + 1];
  }

  /** Position `i` starts the first word `w` of `s`: only whitespace before
      it, and whitespace or the end right after it. */
  ghost predicate FirstWordAt(s: string, w: string, i: int)
  {
    && IsWord(w)
    && 0 <= i && i + |w| <= |s|
    && AllWs(s[..i])
    && s[i..i + |w|] == w
    && (i + |w| == |s| || IsWs(s[i + |w|]))
  }

  /** Position `i` starts the last word `w` of `s`: whitespace or the start
      right before it, and only whitespace after it. */
  ghost predicate LastWordAt(s: string, w: string, i: int)
  {
    && IsWord(w)
    && 0 <= i && i + |w| <= |s|
    && (i == 0 || IsWs(s[i - 1]))
    && s[i..i + |w|] == w
    && AllWs(s[i + |w|..])
  }

  /** Whitespace in front of whitespace. */
  lemma AllWsCons(c: char, t: string)
    requires IsWs(c) && AllWs(t)
    ensures AllWs([c] + t)
  {
    assert forall i :: 0 < i <= |t| ==> ([c] + t)[i] == t[i - 1];
  }

  /** The word found by position is the first token. */
  lemma {:induction false} FirstWordAtIsFirstToken(s: string, w: string, i: int)
    requires FirstWordAt(s, w, i)
    ensures Tokens(s) != [] && Tokens(s)[0] == w
    decreases i
  {
    if i > 0 {
      assert IsWs(s[0]) by { assert s[0] == s[..i][0]; }
      assert s[1..][..i - 1] == s[1..i];
      assert AllWs(s[1..i]) by {
        forall j | 0 <= j < i - 1 ensures IsWs(s[1..i][j]) {
          assert s[1..i][j] == s[..i][j + 1];
        }
      }
      assert s[1..][i - 1..i - 1 + |w|] == w;
      FirstWordAtIsFirstToken(s[1..], w, i - 1);
    } else {
      assert w <= s;
      WordLengthOfWord(s, w);
      assert s[..|w|] == w;
    }
  }

  /** The first token sits at a position that satisfies `FirstWordAt`. */
  lemma {:induction false} FirstTokenIsFirstWordAt(s: string)
    requires Tokens(s) != []
    ensures exists i :: FirstWordAt(s, Tokens(s)[0], i)
    decreases |s|
  {
    if IsWs(s[0]) {
      TokensSkipWs(s);
      FirstTokenIsFirstWordAt(s[1..]);
      var w := Tokens(s)[0];
      var i :| FirstWordAt(s[1..], w, i);
      FirstWordAtWsStep(s, w, i);
    } else {
      var n := WordLength(s);
      TokensSkipWord(s);
      assert s[0..n] == s[..n];
      assert FirstWordAt(s, Tokens(s)[0], 0);
    }
  }

  /** Leading whitespace moves the first word one place to the right. */
  lemma FirstWordAtWsStep(s: string, w: string, i: int)
    requires s != [] && IsWs(s[0]) && FirstWordAt(s[1..], w, i)
    ensures FirstWordAt(s, w, i + 1)
  {
    assert s[i + 1..i + 1 + |w|] == s[1..][i..i + |w|];
    AllWsCons(s[0], s[1..][..i]);
    assert s[..i + 1] == [s[0]] + s[1..][..i];
  }

  /** A last word stays a last word when a prefix before it is dropped. */
  lemma LastWordAtDrop(s: string, w: string, i: int, m: int)
    requires LastWordAt(s, w, i) && 0 <= m <= i
    ensures LastWordAt(s[m..], w, i - m)
  {
    var t := s[m..];
    assert t[i - m..i - m + |w|] == s[i..i + |w|];
    assert t[i - m + |w|..] == s[i + |w|..];
    if i - m > 0 {
      assert t[i - m - 1] == s[i - 1];
    }
  }

  /** A last word of a suffix is a last word of the whole string when it
      does not continue a word of the dropped prefix. */
  lemma LastWordAtExtend(s: string, w: string, j: int, m: int)
    requires 0 <= m <= |s| && LastWordAt(s[m..], w, j)
    requires j > 0 || m == 0 || IsWs(s[m - 1])
    ensures LastWordAt(s, w, m + j)
  {
    var t := s[m..];
    assert t[j..j + |w|] == s[m + j..m + j + |w|];
    assert t[j + |w|..] == s[m + j + |w|..];
    if j > 0 {
      assert t[j - 1] == s[m + j - 1];
    }
  }

  /** The word found by position is the last token. */
  lemma {:induction false} LastWordAtIsLastToken(s: string, w: string, i: int)
    requires LastWordAt(s, w, i)
    ensures Tokens(s) != [] && LastToken(s) == w
    decreases |s|
  {
    if IsWs(s[0]) {
      assert !IsWs(w[0]);
      LastWordAtDrop(s, w, i, 1);
      LastWordAtIsLastToken(s[1..], w, i - 1);
      LastTokenSkipWs(s);
    } else {
      var n := WordLength(s);
      if i == 0 {
        LastWordAtLeading(s, w);
      } else {
        LastWordAfterLeading(s, w, i);
        LastWordAtDrop(s, w, i, n);
        LastWordAtIsLastToken(s[n..], w, i - n);
        LastTokenSkipWord(s);
      }
    }
  }

  /** A last word at position 0 is the only token. */
  lemma LastWordAtLeading(s: string, w: string)
    requires LastWordAt(s, w, 0)
    ensures Tokens(s) == [w]
  {
    assert w <= s;
    WordLengthOfWord(s, w);
    assert s[..|w|] == w;
    assert AllWs(s[|w|..]);
  }

  /** A last word that does not start the string lies after its leading run. */
  lemma LastWordAfterLeading(s: string, w: string, i: int)
    requires LastWordAt(s, w, i) && i > 0 && s != [] && !IsWs(s[0])
    ensures WordLength(s) < i
  {
    var n := WordLength(s);
    assert IsWs(s[i - 1]);
    assert !IsWs(w[0]) && s[i] == w[0];
  }

  /** The last token sits at a position that satisfies `LastWordAt`. */
  lemma {:induction false} LastTokenIsLastWordAt(s: string)
    requires Tokens(s) != []
    ensures exists i :: LastWordAt(s, LastToken(s), i)
    decreases |s|
  {
    if IsWs(s[0]) {
      LastTokenIsLastWordAt(s[1..]);
      var i :| LastWordAt(s[1..], LastToken(s[1..]), i);
      LastTokenWsStep(s, i);
    } else {
      var n := WordLength(s);
      if Tokens(s[n..]) == [] {
        LastTokenOnlyWord(s);
      } else {
        LastTokenIsLastWordAt(s[n..]);
        var i :| LastWordAt(s[n..], LastToken(s[n..]), i);
        LastTokenWordStep(s, i);
      }
    }
  }

  /** Leading whitespace moves the last word one place to the right. */
  lemma LastTokenWsStep(s: string, i: int)
    requires s != [] && IsWs(s[0]) && Tokens(s[1..]) != []
    requires LastWordAt(s[1..], LastToken(s[1..]), i)
    ensures Tokens(s) != [] && LastWordAt(s, LastToken(s), i + 1)
  {
    LastTokenSkipWs(s);
    LastWordAtExtend(s, LastToken(s[1..]), i, 1);
  }

  /** Leading whitespace does not change the tokens. */
  lemma TokensSkipWs(s: string)
    requires s != [] && IsWs(s[0])
    ensures Tokens(s) == Tokens(s[1..])
  {
  }

  /** Leading whitespace does not change the last token. */
  lemma LastTokenSkipWs(s: string)
    requires s != [] && IsWs(s[0]) && Tokens(s[1..]) != []
    ensures Tokens(s) != [] && LastToken(s) == LastToken(s[1..])
  {
    TokensSkipWs(s);
  }

  /** A word never starts on whitespace. */
  lemma LastWordNotAtWs(s: string, w: string, i: int)
    requires LastWordAt(s, w, i) && s != [] && IsWs(s[0])
    ensures i > 0
  {
    assert s[i] == s[i..i + |w|][0];
  }

  /** A leading run is the first token, followed by the tokens of the rest. */
  lemma TokensSkipWord(s: string)
    requires s != [] && !IsWs(s[0])
    ensures Tokens(s) == [s[..WordLength(s)]] + Tokens(s[WordLength(s)..])
  {
  }

  /** A leading run in front of further tokens is not the last token. */
  lemma LastTokenSkipWord(s: string)
    requires s != [] && !IsWs(s[0]) && Tokens(s[WordLength(s)..]) != []
    ensures Tokens(s) != [] && LastToken(s) == LastToken(s[WordLength(s)..])
  {
    TokensSkipWord(s);
  }

  /** When the leading run is the only token, it is the last word. */
  lemma LastTokenOnlyWord(s: string)
    requires s != [] && !IsWs(s[0]) && Tokens(s[WordLength(s)..]) == []
    ensures Tokens(s) != [] && LastWordAt(s, LastToken(s), 0)
  {
    var n := WordLength(s);
    TokensSkipWord(s);
    assert s[0..n] == s[..n];
  }

  /** A leading run in front of further tokens moves the last word by the
      length of the run. */
  lemma LastTokenWordStep(s: string, i: int)
    requires s != [] && !IsWs(s[0]) && Tokens(s[WordLength(s)..]) != []
    requires LastWordAt(s[WordLength(s)..], LastToken(s[WordLength(s)..]), i)
    ensures Tokens(s) != [] && LastWordAt(s, LastToken(s), WordLength(s) + i)
  {
    LastTokenSkipWord(s);
    assert s[WordLength(s)..] != [] by { assert Tokens([]) == []; }
    assert s[WordLength(s)..][0] == s[WordLength(s)];
    LastWordNotAtWs(s[WordLength(s)..], LastToken(s), i);
    LastWordAtExtend(s, LastToken(s), i, WordLength(s));
  }

  /** The last of the tokens of `s`. */
  function LastToken(s: string): (w: string)
    requires Tokens(s) != []
  {
    Tokens(s)[|Tokens(s)| - 1]
  }

  /** A word is its own only token. */
  lemma TokensOfWord(w: string)
    requires IsWord(w)
    ensures Tokens(w) == [w]
  {
    assert IsTokenization([], [], [[]]);
    TokenizationConsWord(w, [], [], [[]]);
    assert w + [] == w;
    TokenizationUnique(w, [w], [[], []]);
  }

  /** Two words separated by one space are two tokens. */
  lemma TokensOfTwoWords(a: string, b: string)
    requires IsWord(a) && IsWord(b)
    ensures Tokens(a + " " + b) == [a, b]
  {
    assert IsTokenization([], [], [[]]);
    TokenizationConsWord(b, [], [], [[]]);
    assert b + [] == b;
    TokenizationConsWs(' ', b, [b], [[], []]);
    TokenizationConsWord(a, " " + b, [b], [" ", []]);
    assert a + (" " + b) == a + " " + b;
    TokenizationUnique(a + " " + b, [a, b], [[], " ", []]);
  }
}
