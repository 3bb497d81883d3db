/** The string-handling service of the application: eleven total, pure
    operations on strings and lists of strings. Each operation is a function
    (or, where the original is a loop that callers observe only through its
    result, a method with the same loop), and each carries the property its
    documentation and tests promise. */
module StringHandling {
  import opened Strings
  import opened Whitespace

  // ---------------------------------------------------------------------
  // Whitespace and words
  // ---------------------------------------------------------------------

  /** `isWhiteSpaceOnly`: deleting every `\s` character leaves `""`. */
  function IsWhiteSpaceOnly(text: string): (r: bool)
    ensures r <==> AllWs(text)
  {
    RemoveWsEmpty(text);
    RemoveWs(text) == []
  }

  /** `getFirstWord`: the first element of `text.match(/\S+/g)`, guarded so
      that the match is never taken on blank text. */
  function GetFirstWord(text: string): (r: string)
    ensures r == [] <==> AllWs(text)
    ensures r != [] ==> exists i :: FirstWordAt(text, r, i)
  {
    if !IsWhiteSpaceOnly(text) then
      FirstTokenIsFirstWordAt(text);
      Tokens(text)[0]
    else
      []
  }

  /** A word that only whitespace precedes and that whitespace or the end
      follows is what `getFirstWord` returns. */
  lemma FirstWordByPosition(text: string, w: string, i: int)
    requires FirstWordAt(text, w, i)
    ensures GetFirstWord(text) == w
  {
    FirstWordAtIsFirstToken(text, w, i);
  }

  /** The first and the last element of a token list (both the same one when
      there is only one). */
  function Ends(words: seq<string>): (r: seq<string>)
  {
    if |words| <= 1 then words else [words[0], words[|words| - 1]]
  }

  /** `getFirstAndLastWord`: the first word, followed by one space and the
      last word when there are at least two words. */
  function GetFirstAndLastWord(text: string): (r: string)
    ensures r == [] <==> AllWs(text)
    ensures Tokens(r) == Ends(Tokens(text))
    ensures r == Join(Tokens(r), " ")
  {
    if !IsWhiteSpaceOnly(text) then
      var words := Tokens(text);
      var first := words[0];
      if |words| > 1 then
        TokensOfTwoWords(first, words[|words| - 1]);
        first + " " + words[|words| - 1]
      else
        TokensOfWord(first);
        first
    else
      []
  }

  /** With several words, the result is the word found at the start joined
      by one space to the word found at the end; with one word, that word. */
  lemma FirstAndLastWordByPosition(text: string, f: string, i: int, l: string, j: int)
    requires FirstWordAt(text, f, i) && LastWordAt(text, l, j)
    ensures |Tokens(text)| == 1 ==> GetFirstAndLastWord(text) == f
    ensures |Tokens(text)| > 1 ==> GetFirstAndLastWord(text) == f + " " + l
  {
    FirstWordAtIsFirstToken(text, f, i);
    LastWordAtIsLastToken(text, l, j);
  }

  // ---------------------------------------------------------------------
  // List helpers
  // ---------------------------------------------------------------------

  /** `concatListAndSeparateByCommas`: the original loop, which appends the
      first element as is and every later one behind a fixed `", "`. */
  method ConcatListAndSeparateByCommas(listOfStrings: seq<string>) returns (r: string)
    ensures r == Join(listOfStrings, ", ")
  {
    r := [];
    var i := 0;
    while i < |listOfStrings|
      invariant 0 <= i <= |listOfStrings|
      invariant r == Join(listOfStrings[..i], ", ")
    {
      if i == 0 {
        r := r + listOfStrings[i];
      } else {
        JoinSnoc(listOfStrings[..i], listOfStrings[i], ", ");
        r := r + (", " + listOfStrings[i]);
      }
      assert listOfStrings[..i + 1] == listOfStrings[..i] + [listOfStrings[i]];
      i := i + 1;
    }
    assert listOfStrings[..i] == listOfStrings;
  }

  /** The shape of a comma-joined list: empty, the single element, or the
      first element, `", "` and the rest joined the same way; the length
      counts two characters per separator. */
  lemma CommaJoinShape(l: seq<string>)
    ensures l == [] ==> Join(l, ", ") == ""
    ensures |l| == 1 ==> Join(l, ", ") == l[0]
    ensures |l| >= 2 ==> Join(l, ", ") == l[0] + ", " + Join(l[1..], ", ")
    ensures |Join(l, ", ")| == TotalLength(l) + (if l == [] then 0 else 2 * (|l| - 1))
  {
    JoinLength(l, ", ");
  }

  /** The separator stands only between neighbours: the last element
      follows the one `", "` after the others. */
  lemma CommaJoinLast(l: seq<string>)
    requires |l| >= 2
    ensures Join(l, ", ") == Join(l[..|l| - 1], ", ") + ", " + l[|l| - 1]
  {
    var init, last := l[..|l| - 1], l[|l| - 1];
    calc {
      Join(l, ", ");
    == { assert init + [last] == l; }
      Join(init + [last], ", ");
    == { JoinSnoc(init, last, ", "); }
      Join(init, ", ") + ", " + last;
    }
  }

  /** `includes`: a hand-written scan that returns at the first element
      equal to `value`. */
  method Includes(list: seq<string>, value: string) returns (found: bool)
    ensures found <==> exists i :: 0 <= i < |list| && list[i] == value
  {
    var i := 0;
    while i < |list|
      invariant 0 <= i <= |list|
      invariant forall j :: 0 <= j < i ==> list[j] != value
    {
      if list[i] == value {
        return true;
      }
      i := i + 1;
    }
    return false;
  }

  // ---------------------------------------------------------------------
  // Escaping and unescaping
  // ---------------------------------------------------------------------

  /** The characters of the class `[.*+?^${}()|[\]\\]`. */
  predicate IsRegExpSpecial(c: char)
  {
    c in {'.', '*', '+', '?', '^', '$', '{', '}', '(', ')', '|', '[', ']', '\\'}
  }

  /** Number of special characters in `s`. */
  function CountSpecial(s: string): nat
  {
    if s == [] then 0 else (if IsRegExpSpecial(s[0]) then 1 else 0) + CountSpecial(s[1..])
  }

  /** `escapeSpecialCharactersOfRegExpInAString`: the global replacement of
      each special character `c` by `"\\" + c` (`"\\$&"`); every other
      character is copied. */
  function EscapeSpecialCharactersOfRegExp(s: string): (r: string)
    ensures |r| == |s| + CountSpecial(s)
    ensures CountSpecial(s) == 0 ==> r == s
  {
    if s == [] then []
    else if IsRegExpSpecial(s[0]) then ['\\', s[0]] + EscapeSpecialCharactersOfRegExp(s[1..])
    else [s[0]] + EscapeSpecialCharactersOfRegExp(s[1..])
  }

  /** Drops each escaping backslash and keeps the character it escapes. */
  function Unescape(t: string): (r: string)
    ensures |r| <= |t|
    decreases |t|
  {
    if t == [] then []
    else if t[0] == '\\' && |t| >= 2 then [t[1]] + Unescape(t[2..])
    else [t[0]] + Unescape(t[1..])
  }

  /** Escaping loses nothing: removing the escapes gives back the input. */
  lemma {:induction false} UnescapeEscape(s: string)
    ensures Unescape(EscapeSpecialCharactersOfRegExp(s)) == s
  {
    if s != [] {
      UnescapeEscape(s[1..]);
      var t := EscapeSpecialCharactersOfRegExp(s);
      var e := EscapeSpecialCharactersOfRegExp(s[1..]);
      if IsRegExpSpecial(s[0]) {
        assert t[2..] == e;
      } else {
        assert s[0] != '\\';
        assert t[1..] == e;
      }
    }
  }

  /** Escaping works character by character, so it distributes over
      concatenation. */
  lemma {:induction false} EscapeAppend(a: string, b: string)
    ensures EscapeSpecialCharactersOfRegExp(a + b)
            == EscapeSpecialCharactersOfRegExp(a) + EscapeSpecialCharactersOfRegExp(b)
  {
    if a != [] {
      assert (a + b)[0] == a[0] && (a + b)[1..] == a[1..] + b;
      EscapeAppend(a[1..], b);
      if IsRegExpSpecial(a[0]) {
        assert ['\\', a[0]] + (EscapeSpecialCharactersOfRegExp(a[1..]) + EscapeSpecialCharactersOfRegExp(b))
            == (['\\', a[0]] + EscapeSpecialCharactersOfRegExp(a[1..])) + EscapeSpecialCharactersOfRegExp(b);
      } else {
        assert [a[0]] + (EscapeSpecialCharactersOfRegExp(a[1..]) + EscapeSpecialCharactersOfRegExp(b))
            == ([a[0]] + EscapeSpecialCharactersOfRegExp(a[1..])) + EscapeSpecialCharactersOfRegExp(b);
      }
    } else {
      assert a + b == b;
    }
  }

  /** `replaceEscapedXMLCharactersWithNonEscapedCharacters`: five global
      replacements applied one after the other, in this order. */
  function ReplaceEscapedXmlCharacters(text: string): (r: string)
    ensures |r| <= |text|
    ensures '&' !in text ==> r == text
  {
    var t1 := ReplaceAll(text, "&quot;", "\"");
    var t2 := ReplaceAll(t1, "&apos;", "'");
    var t3 := ReplaceAll(t2, "&lt;", "<");
    var t4 := ReplaceAll(t3, "&amp;", "&");
    var t5 := ReplaceAll(t4, "&gt;", ">");
    if '&' !in text then
      NoAmpersandUnchanged(text, "&quot;", "\"");
      NoAmpersandUnchanged(t1, "&apos;", "'");
      NoAmpersandUnchanged(t2, "&lt;", "<");
      NoAmpersandUnchanged(t3, "&amp;", "&");
      NoAmpersandUnchanged(t4, "&gt;", ">");
      t5
    else
      t5
  }

  /** Text without `&` holds no entity, so replacing one leaves it as is. */
  lemma NoAmpersandUnchanged(t: string, pat: string, rep: string)
    requires pat != [] && pat[0] == '&' && '&' !in t
    ensures ReplaceAll(t, pat, rep) == t
  {
    if Contains(t, pat) {
      ContainsHeadChar(t, pat);
    }
  }

  /** The characters that occur in any of the five entities. */
  predicate IsEntityChar(c: char)
  {
    c in {'&', ';', 'a', 'g', 'l', 'm', 'o', 'p', 'q', 's', 't', 'u'}
  }

  /** One replacement pass splits at a cut whose right side does not start
      inside the pattern, and keeps that side's first character. */
  lemma ReplaceAllSplits(a: string, b: string, pat: string, rep: string)
    requires pat != [] && (b == [] || b[0] !in pat)
    ensures ReplaceAll(a + b, pat, rep) == ReplaceAll(a, pat, rep) + ReplaceAll(b, pat, rep)
    ensures b != [] ==> ReplaceAll(b, pat, rep) != [] && ReplaceAll(b, pat, rep)[0] == b[0]
  {
    ReplaceAllAppend(a, b, pat, rep);
    if b != [] {
      ReplaceAllHead(b, pat, rep);
    }
  }

  /** Decoding works piece by piece at any cut whose right side starts with
      a character that belongs to no entity: no entity spans such a cut, at
      any of the five passes. */
  lemma XmlDecodeAppend(a: string, b: string)
    requires b == [] || !IsEntityChar(b[0])
    ensures ReplaceEscapedXmlCharacters(a + b)
            == ReplaceEscapedXmlCharacters(a) + ReplaceEscapedXmlCharacters(b)
  {
    ReplaceAllSplits(a, b, "&quot;", "\"");
    var a1, b1 := ReplaceAll(a, "&quot;", "\""), ReplaceAll(b, "&quot;", "\"");
    ReplaceAllSplits(a1, b1, "&apos;", "'");
    var a2, b2 := ReplaceAll(a1, "&apos;", "'"), ReplaceAll(b1, "&apos;", "'");
    ReplaceAllSplits(a2, b2, "&lt;", "<");
    var a3, b3 := ReplaceAll(a2, "&lt;", "<"), ReplaceAll(b2, "&lt;", "<");
    ReplaceAllSplits(a3, b3, "&amp;", "&");
    var a4, b4 := ReplaceAll(a3, "&amp;", "&"), ReplaceAll(b3, "&amp;", "&");
    ReplaceAllSplits(a4, b4, "&gt;", ">");
  }

  /** The five entities the service decodes, each with its character. */
  predicate IsXmlEntity(e: string, d: char)
  {
    || (e == "&quot;" && d == '"')
    || (e == "&apos;" && d == '\'')
    || (e == "&lt;" && d == '<')
    || (e == "&amp;" && d == '&')
    || (e == "&gt;" && d == '>')
  }

  /** In text whose only `&` starts `t`, a pattern starting with `&` can
      occur only there. */
  lemma AmpersandOnlyAt(x: string, t: string, pat: string, i: int)
    requires OccursAt(x + t, pat, i)
    requires '&' !in x && t != [] && '&' !in t[1..]
    requires pat != [] && pat[0] == '&'
    ensures i == |x| && pat <= t
  {
    assert (x + t)[i] == (x + t)[i..i + |pat|][0] == '&';
    assert (x + t)[i..i + |pat|] == t[..|pat|];
  }

  /** A pass whose pattern does not start `t` leaves `x + t` unchanged. */
  lemma PassKeeps(x: string, t: string, pat: string, rep: string)
    requires '&' !in x && t != [] && '&' !in t[1..]
    requires pat != [] && pat[0] == '&' && !(pat <= t)
    ensures ReplaceAll(x + t, pat, rep) == x + t
  {
    forall i | OccursAt(x + t, pat, i)
      ensures false
    {
      AmpersandOnlyAt(x, t, pat, i);
    }
  }

  /** A pass whose pattern is the only entity replaces exactly it. */
  lemma PassMatches(x: string, pat: string, y: string, rep: string)
    requires '&' !in x && '&' !in y
    requires pat != [] && pat[0] == '&' && '&' !in pat[1..]
    ensures ReplaceAll(x + pat + y, pat, rep) == x + rep + y
  {
    calc {
      ReplaceAll(x + pat + y, pat, rep);
    == { assert x + pat + y == x + (pat + y); }
      ReplaceAll(x + (pat + y), pat, rep);
    == { ReplaceAllSkipPrefix(x, pat + y, pat, rep); }
      x + ReplaceAll(pat + y, pat, rep);
    == { ReplaceAllAtStart(pat, y, rep); }
      x + (rep + ReplaceAll(y, pat, rep));
    == { NoAmpersandUnchanged(y, pat, rep); }
      x + (rep + y);
    }
  }

  /** An entity between two stretches of text without `&` decodes to its
      character and nothing else changes; after `&amp;` the text must not
      go on with `gt;`, which the last pass would decode a second time. */
  lemma DecodeSingleEntity(x: string, e: string, d: char, y: string)
    requires IsXmlEntity(e, d)
    requires '&' !in x && '&' !in y
    requires e == "&amp;" ==> !("gt;" <= y)
    ensures ReplaceEscapedXmlCharacters(x + e + y) == x + [d] + y
  {
    if e == "&quot;" {
      DecodeQuot(x, y);
    } else if e == "&apos;" {
      DecodeApos(x, y);
    } else if e == "&lt;" {
      DecodeLt(x, y);
    } else if e == "&amp;" {
      DecodeAmp(x, y);
    } else {
      DecodeGt(x, y);
    }
  }

  /** `&quot;` is decoded by the first pass; the later ones keep the result. */
  lemma DecodeQuot(x: string, y: string)
    requires '&' !in x && '&' !in y
    ensures ReplaceEscapedXmlCharacters(x + "&quot;" + y) == x + "\"" + y
  {
    PassMatches(x, "&quot;", y, "\"");
    LaterPassesKeep(x + "\"" + y, 1);
  }

  /** `&apos;` passes the first pass and is decoded by the second. */
  lemma DecodeApos(x: string, y: string)
    requires '&' !in x && '&' !in y
    ensures ReplaceEscapedXmlCharacters(x + "&apos;" + y) == x + "'" + y
  {
    var t := "&apos;" + y;
    assert x + "&apos;" + y == x + t;
    assert t[1] == 'a' && t[1..] == "apos;" + y;
    PassKeeps(x, t, "&quot;", "\"");
    PassMatches(x, "&apos;", y, "'");
    LaterPassesKeep(x + "'" + y, 2);
  }

  /** `&lt;` passes the first two passes and is decoded by the third. */
  lemma DecodeLt(x: string, y: string)
    requires '&' !in x && '&' !in y
    ensures ReplaceEscapedXmlCharacters(x + "&lt;" + y) == x + "<" + y
  {
    var t := "&lt;" + y;
    assert x + "&lt;" + y == x + t;
    assert t[1] == 'l' && t[1..] == "lt;" + y;
    PassKeeps(x, t, "&quot;", "\"");
    PassKeeps(x, t, "&apos;", "'");
    PassMatches(x, "&lt;", y, "<");
    LaterPassesKeep(x + "<" + y, 3);
  }

  /** `&amp;` is decoded by the fourth pass; the `&` it leaves is not
      followed by `gt;`, so the fifth pass keeps it. */
  lemma DecodeAmp(x: string, y: string)
    requires '&' !in x && '&' !in y && !("gt;" <= y)
    ensures ReplaceEscapedXmlCharacters(x + "&amp;" + y) == x + "&" + y
  {
    var t := "&amp;" + y;
    assert x + "&amp;" + y == x + t;
    assert t[1] == 'a' && t[2] == 'm' && t[1..] == "amp;" + y;
    PassKeeps(x, t, "&quot;", "\"");
    PassKeeps(x, t, "&apos;", "'");
    PassKeeps(x, t, "&lt;", "<");
    PassMatches(x, "&amp;", y, "&");
    AmpThenNoGt(x, y);
  }

  /** The passes do not commute: `&amp;` is decoded before `&gt;`, so an
      escaped `&gt;` is decoded twice, down to `>`. */
  lemma EscapedGreaterThanDecodesTwice(x: string, y: string)
    requires '&' !in x && '&' !in y
    ensures ReplaceEscapedXmlCharacters(x + "&amp;gt;" + y) == x + ">" + y
  {
    var t := "&amp;gt;" + y;
    var g := "gt;" + y;
    assert t[1] == 'a' && t[2] == 'm' && t[1..] == "amp;gt;" + y;
    assert '&' !in g by { assert g[1..] == "t;" + y && g[2..] == ";" + y; }
    calc {
      ReplaceEscapedXmlCharacters(x + "&amp;gt;" + y);
    == { assert x + "&amp;gt;" + y == x + t; }
      ReplaceEscapedXmlCharacters(x + t);
    == { PassKeeps(x, t, "&quot;", "\""); PassKeeps(x, t, "&apos;", "'");
         PassKeeps(x, t, "&lt;", "<"); }
      ReplaceAll(ReplaceAll(x + t, "&amp;", "&"), "&gt;", ">");
    == { assert x + t == x + "&amp;" + g; PassMatches(x, "&amp;", g, "&"); }
      ReplaceAll(x + "&" + g, "&gt;", ">");
    == { assert x + "&" + g == x + "&gt;" + y; PassMatches(x, "&gt;", y, ">"); }
      x + ">" + y;
    }
  }

  /** `&amp;` is decoded after `&lt;`, so an escaped `&lt;` is decoded
      only once, to `&lt;`. */
  lemma EscapedLessThanDecodesOnce(x: string, y: string)
    requires '&' !in x && '&' !in y
    ensures ReplaceEscapedXmlCharacters(x + "&amp;lt;" + y) == x + "&lt;" + y
  {
    var l := "lt;" + y;
    assert l[0] == 'l' && l[1..] == "t;" + y && l[2..] == ";" + y;
    calc {
      ReplaceEscapedXmlCharacters(x + "&amp;lt;" + y);
    == { assert x + "&amp;lt;" + y == x + "&amp;" + l; }
      ReplaceEscapedXmlCharacters(x + "&amp;" + l);
    == { DecodeAmp(x, l); }
      x + "&" + l;
    == { assert x + "&" + l == x + "&lt;" + y; }
      x + "&lt;" + y;
    }
  }

  /** `&gt;` passes the first four passes and is decoded by the last. */
  lemma DecodeGt(x: string, y: string)
    requires '&' !in x && '&' !in y
    ensures ReplaceEscapedXmlCharacters(x + "&gt;" + y) == x + ">" + y
  {
    var t := "&gt;" + y;
    assert x + "&gt;" + y == x + t;
    assert t[1] == 'g' && t[1..] == "gt;" + y;
    PassKeeps(x, t, "&quot;", "\"");
    PassKeeps(x, t, "&apos;", "'");
    PassKeeps(x, t, "&lt;", "<");
    PassKeeps(x, t, "&amp;", "&");
    PassMatches(x, "&gt;", y, ">");
  }

  /** Decoding a text that starts with an entity, between stretches without
      `&`, and goes on at a cut that no entity spans. */
  lemma DecodeLeadingEntity(x: string, e: string, d: char, w: string, z: string)
    requires IsXmlEntity(e, d)
    requires '&' !in x && '&' !in w
    requires e == "&amp;" ==> !("gt;" <= w)
    requires z == [] || !IsEntityChar(z[0])
    ensures ReplaceEscapedXmlCharacters(x + e + w + z)
            == x + [d] + w + ReplaceEscapedXmlCharacters(z)
  {
    XmlDecodeAppend(x + e + w, z);
    DecodeSingleEntity(x, e, d, w);
  }

  /** The passes from number `k` on leave text without `&` unchanged. */
  lemma LaterPassesKeep(s: string, k: nat)
    requires '&' !in s
    ensures k <= 1 ==> ReplaceAll(s, "&apos;", "'") == s
    ensures k <= 2 ==> ReplaceAll(s, "&lt;", "<") == s
    ensures k <= 3 ==> ReplaceAll(s, "&amp;", "&") == s
    ensures ReplaceAll(s, "&gt;", ">") == s
  {
    NoAmpersandUnchanged(s, "&apos;", "'");
    NoAmpersandUnchanged(s, "&lt;", "<");
    NoAmpersandUnchanged(s, "&amp;", "&");
    NoAmpersandUnchanged(s, "&gt;", ">");
  }

  /** The `&` that `&amp;` leaves behind is not decoded again unless `gt;`
      follows it. */
  lemma AmpThenNoGt(x: string, y: string)
    requires '&' !in x && '&' !in y && !("gt;" <= y)
    ensures ReplaceAll(x + "&" + y, "&gt;", ">") == x + "&" + y
  {
    var t := "&" + y;
    assert x + "&" + y == x + t && t[1..] == y;
    if |t| >= 4 {
      assert t[..4] == "&" + y[..3];
    }
    PassKeeps(x, t, "&gt;", ">");
  }

  // ---------------------------------------------------------------------
  // File names, prefixes and URLs
  // ---------------------------------------------------------------------

  /** The pieces of `s.split(c)`: one piece exactly when `c` does not occur,
      and otherwise everything but the last piece, joined back, then `c`,
      then the last piece. */
  lemma SplitLastPiece(s: string, c: char)
    ensures var p := SplitOn(s, [c]);
            && (|p| == 1 <==> c !in s)
            && c !in p[|p| - 1]
            && (|p| >= 2 ==> s == Join(p[..|p| - 1], [c]) + [c] + p[|p| - 1])
  {
    var p := SplitOn(s, [c]);
    var last := p[|p| - 1];
    JoinSplitOn(s, [c]);
    SplitOnPiecesFree(s, [c]);
    assert !Contains(last, [c]);
    ContainsChar(last, c);
    if |p| == 1 {
      assert Join(p, [c]) == last;
    } else {
      var init := Join(p[..|p| - 1], [c]);
      JoinSnoc(p[..|p| - 1], last, [c]);
      assert p[..|p| - 1] + [last] == p;
      assert s == init + [c] + last;
      assert s[|init|] == c;
    }
  }

  /** `removeFileNameExtension`: `""` for blank names, the name itself when
      it has no `.`, and otherwise the name up to its last `.`. */
  function RemoveFileNameExtension(filename: string): (r: string)
    ensures AllWs(filename) ==> r == []
    ensures !AllWs(filename) && '.' !in filename ==> r == filename
    ensures !AllWs(filename) && '.' in filename ==>
              && |r| < |filename|
              && r == filename[..|r|]
              && filename[|r|] == '.'
              && '.' !in filename[|r| + 1..]
  {
    if !IsWhiteSpaceOnly(filename) then
      var parts := SplitOn(filename, ".");
      SplitLastPiece(filename, '.');
      JoinSplitOn(filename, ".");
      if |parts| == 1 then
        parts[0]
      else
        var r := Join(parts[..|parts| - 1], ".");
        assert filename == r + "." + parts[|parts| - 1];
        assert filename[|r| + 1..] == parts[|parts| - 1];
        r
    else
      []
  }

  /** A name, a dot and an extension without dots lose exactly the dot and
      the extension. */
  lemma RemoveExtensionOfNameDotExt(name: string, ext: string)
    requires '.' !in ext
    ensures RemoveFileNameExtension(name + "." + ext) == name
  {
    var f := name + "." + ext;
    assert f[|name|] == '.' && !IsWs('.');
    var r := RemoveFileNameExtension(f);
    assert r == f[..|name|] == name;
  }

  /** `isPrefix`: the source tests `text.includes(possiblePrefix)` as well as
      the leading slice; the first result states the slice test alone
      decides, so the `includes` test is redundant. */
  function IsPrefix(text: string, possiblePrefix: string): (r: bool)
    ensures r <==> |possiblePrefix| <= |text| && text[..|possiblePrefix|] == possiblePrefix
    ensures r <==> possiblePrefix <= text
  {
    if |text| < |possiblePrefix| then
      false
    else
      if text[..|possiblePrefix|] == possiblePrefix then
        PrefixIsContained(text, possiblePrefix);
        Contains(text, possiblePrefix) && text[..|possiblePrefix|] == possiblePrefix
      else
        Contains(text, possiblePrefix) && text[..|possiblePrefix|] == possiblePrefix
  }

  /** How many `/`-separated entries precede the path: 3 (scheme, the empty
      entry between the two slashes, host) when `//` occurs anywhere in the
      URL, else 1 (host). */
  function EntriesBeforePath(url: string): (k: nat)
    ensures k == 3 <==> Contains(url, "//")
    ensures k == 1 <==> !Contains(url, "//")
  {
    if IndexOf(url, "//") > -1 then 3 else 1
  }

  /** `extractPathFromURL`: split on `/`, splice off the leading entries,
      join the rest with `/`, keep what precedes the first `?`, and prefix a
      `/` unless nothing is left. */
  function ExtractPathFromURL(url: string): (r: string)
    ensures AllWs(url) ==> r == []
    ensures r == [] || (|r| >= 2 && r[0] == '/' && '?' !in r)
    ensures !AllWs(url) ==>
              var p := BeforeFirst(AfterNth(url, '/', EntriesBeforePath(url)), '?');
              r == if p == [] then [] else "/" + p
    ensures Count(url, '/') < EntriesBeforePath(url) ==> r == []
  {
    if !IsWhiteSpaceOnly(url) then
      var tokens := SplitOn(url, "/");
      var kept := SpliceFront(tokens, EntriesBeforePath(url));
      var joined := Join(kept, "/");
      JoinDropSplit(url, '/', EntriesBeforePath(url));
      var path := SplitOn(joined, "?")[0];
      SplitOnHead(joined, '?');
      if path == [] then path else "/" + path
    else
      []
  }

  /** A URL with a scheme: the path is what follows the slash after the
      host, up to the query. */
  lemma ExtractPathOfAbsoluteUrl(scheme: string, host: string, path: string, query: string)
    requires '/' !in scheme && '/' !in host
    requires '?' !in path && (query == [] || query[0] == '?')
    ensures ExtractPathFromURL(scheme + "//" + host + "/" + path + query)
            == if path == [] then [] else "/" + path
  {
    var a := scheme + "//" + host + "/";
    var url := a + (path + query);
    assert scheme + "//" + host + "/" + path + query == url;
    assert url[|scheme|] == '/' && !IsWs('/');
    assert url[|scheme|..|scheme| + 2] == "//";
    assert OccursAt(url, "//", |scheme|);
    CountZero(scheme, '/');
    CountZero(host, '/');
    CountAppend(scheme, "//", '/');
    CountAppend(scheme + "//", host, '/');
    CountAppend(scheme + "//" + host, "/", '/');
    assert Count(a, '/') == 3;
    AfterNthAppend(a, path + query, '/', 3);
    AfterLastOfEndingWith(a, '/');
    assert AfterNth(url, '/', 3) == path + query;
    BeforeFirstAppend(path, query, '?');
    assert path + [] == path;
    assert BeforeFirst(path + query, '?') == path;
    assert !AllWs(url);
    assert EntriesBeforePath(url) == 3;
  }

  /** A URL without a scheme: the path is what follows the first slash, up
      to the query. */
  lemma ExtractPathOfRelativeUrl(host: string, path: string, query: string)
    requires '/' !in host
    requires '?' !in path && (query == [] || query[0] == '?')
    requires !Contains(host + "/" + path + query, "//")
    ensures ExtractPathFromURL(host + "/" + path + query)
            == if path == [] then [] else "/" + path
  {
    var a := host + "/";
    var url := a + (path + query);
    assert host + "/" + path + query == url;
    assert url[|host|] == '/' && !IsWs('/');
    CountZero(host, '/');
    CountAppend(host, "/", '/');
    assert Count(a, '/') == 1;
    AfterNthAppend(a, path + query, '/', 1);
    AfterLastOfEndingWith(a, '/');
    assert AfterNth(url, '/', 1) == path + query;
    BeforeFirstAppend(path, query, '?');
    assert path + [] == path;
    assert BeforeFirst(path + query, '?') == path;
    assert !AllWs(url);
    assert EntriesBeforePath(url) == 1;
  }

  /** `getHttpsVersionOfURL`: `""` for blank input; unchanged when there is
      no `http` or the URL already starts with `https`; otherwise the
      leftmost `http` becomes `https`. */
  function GetHttpsVersionOfURL(url: string): (r: string)
    ensures AllWs(url) ==> r == []
    ensures !AllWs(url) && (!Contains(url, "http") || "https" <= url) ==> r == url
    ensures !AllWs(url) && Contains(url, "http") && !("https" <= url) ==>
              exists i :: FirstOccurrence(url, "http", i) && r == url[..i] + "https" + url[i + 4..]
  {
    if !IsWhiteSpaceOnly(url) then
      if !Contains(url, "http") then
        url
      else
        if IsPrefix(url, "https") then url else ReplaceFirst(url, "http", "https")
    else
      []
  }

  /** A URL that starts with `http` but not `https` gets the `s` right
      after the scheme name. */
  lemma HttpBecomesHttps(rest: string)
    requires !("s" <= rest)
    ensures GetHttpsVersionOfURL("http" + rest) == "https" + rest
  {
    var url := "http" + rest;
    assert url[..4] == "http" && url[4..] == rest;
    PrefixIsContained(url, "http");
    assert !IsWs(url[0]);
    HttpsPrefix(rest);
    ReplaceFirstAtStart(url, "http", "https");
  }

  /** A URL that starts with `http` starts with `https` exactly when the
      rest starts with `s`. */
  lemma HttpsPrefix(rest: string)
    ensures "https" <= "http" + rest <==> "s" <= rest
  {
    var url := "http" + rest;
    assert url[4..] == rest;
    if "https" <= url {
      assert rest[..1] == url[4..5];
    }
    if "s" <= rest {
      assert url[..5] == "http" + rest[..1];
    }
  }

  /** An `http` after any first character, whitespace and `h` included,
      is still rewritten, though it is not the protocol. */
  lemma HttpAfterOtherChar(c: char, rest: string)
    ensures GetHttpsVersionOfURL([c] + "http" + rest) == [c] + "https" + rest
  {
    var u := [c] + "http" + rest;
    assert u[0] == c && u[1..5] == "http";
    assert !IsWs(u[1]) && u[1] != "https"[1];
    assert OccursAt(u, "http", 1);
    assert !OccursAt(u, "http", 0);
    assert FirstOccurrence(u, "http", 1) by {
      forall j | 0 <= j < 1
        ensures !OccursAt(u, "http", j)
      {
      }
    }
    ReplaceFirstAt(u, "http", "https", 1);
    assert u[..1] == [c] && u[5..] == rest;
  }

  /** Rewriting twice is rewriting once for URLs that start with `http` or
      hold no `http` at all. */
  lemma HttpsIdempotent(url: string)
    requires "http" <= url || !Contains(url, "http")
    ensures GetHttpsVersionOfURL(GetHttpsVersionOfURL(url)) == GetHttpsVersionOfURL(url)
  {
    var r := GetHttpsVersionOfURL(url);
    if "http" <= url && !AllWs(url) {
      if !("https" <= url) {
        assert url == "http" + url[4..];
        assert !("s" <= url[4..]);
        HttpBecomesHttps(url[4..]);
        var r' := "https" + url[4..];
        assert "https" <= r';
        assert !IsWs(r'[0]);
        PrefixIsContained(r', "http");
      } else {
        PrefixIsContained(url, "http");
      }
    }
  }
}
