/** The concrete cases of the service's unit tests, stated over the model,
    one lemma per case, together with the inputs that show where the
    operations are order- or position-sensitive. Long literals are written
    as concatenations of the pieces the proofs cut them into. */
module StringHandlingExamples {
  import opened Strings
  import opened Whitespace
  import opened StringHandling

  lemma TextIsNotWhiteSpaceOnly()
    ensures !IsWhiteSpaceOnly("hello everybody!")
  {
    assert !IsWs("hello everybody!"[0]);
  }

  lemma SpacesAreWhiteSpaceOnly()
    ensures IsWhiteSpaceOnly("       ")
    ensures IsWhiteSpaceOnly("")
  {
  }

  lemma FirstWordOfName()
    ensures GetFirstWord("   " + "Ahmed" + "    Saleh Algamdi") == "Ahmed"
  {
    var a, w, c := "   ", "Ahmed", "    Saleh Algamdi";
    var s := a + w + c;
    assert s[..3] == a && s[3..8] == w && s[8] == c[0];
    assert FirstWordAt(s, w, 3);
    FirstWordByPosition(s, w, 3);
  }

  lemma FirstWordOfBlank()
    ensures GetFirstWord("   ") == ""
  {
  }

  lemma FirstAndLastWordOfName()
    ensures GetFirstAndLastWord("   " + "Ahmed" + "    Saleh Aymen Raed " + "Algamdi")
            == "Ahmed" + " " + "Algamdi"
  {
    var a, f, m, l := "   ", "Ahmed", "    Saleh Aymen Raed ", "Algamdi";
    var s := a + f + m + l;
    assert |m| == 21;
    assert s[..3] == a && s[3..8] == f && s[8] == m[0];
    assert FirstWordAt(s, f, 3);
    assert s[28] == m[20] && s[29..36] == l && s[36..] == [];
    assert LastWordAt(s, l, 29);
    FirstWordAtIsFirstToken(s, f, 3);
    LastWordAtIsLastToken(s, l, 29);
    FirstAndLastWordByPosition(s, f, 3, l, 29);
  }

  lemma FirstAndLastWordOfBlank()
    ensures GetFirstAndLastWord("   ") == ""
  {
  }

  /** Three cars joined with commas, and the empty list. */
  method CommaCases() returns (cars: string, none: string)
    ensures cars == "Toyota, GMC, BMW"
    ensures none == ""
  {
    cars := ConcatListAndSeparateByCommas(["Toyota", "GMC", "BMW"]);
    assert ["Toyota", "GMC", "BMW"][1..] == ["GMC", "BMW"];
    assert ["GMC", "BMW"][1..] == ["BMW"];
    none := ConcatListAndSeparateByCommas([]);
  }

  lemma EscapeEverySpecialCharacter()
    ensures EscapeSpecialCharactersOfRegExp(".*+" + "?^$" + "{}(" + ")\\ " + "\\\\ '")
            == "\\.\\*\\+" + "\\?\\^\\$" + "\\{\\}\\(" + "\\)\\\\ " + "\\\\\\\\ '"
  {
    var a, b, c, d, e := ".*+", "?^$", "{}(", ")\\ ", "\\\\ '";
    EscapeDotStarPlus();
    EscapeQuestionCaretDollar();
    EscapeBracesParen();
    EscapeParenBackslash();
    EscapeBackslashesQuote();
    EscapeAppend(a + b + c + d, e);
    EscapeAppend(a + b + c, d);
    EscapeAppend(a + b, c);
    EscapeAppend(a, b);
  }

  /** The pieces of the escaping example, each escaped on its own. */
  lemma EscapeDotStarPlus()
    ensures EscapeSpecialCharactersOfRegExp(".*+") == "\\.\\*\\+"
  {
  }

  lemma EscapeQuestionCaretDollar()
    ensures EscapeSpecialCharactersOfRegExp("?^$") == "\\?\\^\\$"
  {
  }

  lemma EscapeBracesParen()
    ensures EscapeSpecialCharactersOfRegExp("{}(") == "\\{\\}\\("
  {
  }

  lemma EscapeParenBackslash()
    ensures EscapeSpecialCharactersOfRegExp(")\\ ") == "\\)\\\\ "
  {
  }

  lemma EscapeBackslashesQuote()
    ensures EscapeSpecialCharactersOfRegExp("\\\\ '") == "\\\\\\\\ '"
  {
  }

  /** A listed animal, an unlisted one, and the empty list. */
  method IncludesCases() returns (cat: bool, bird: bool, empty: bool)
    ensures cat && !bird && !empty
  {
    cat := Includes(["cat", "dog"], "cat");
    assert ["cat", "dog"][0] == "cat";
    bird := Includes(["cat", "dog"], "bird");
    assert "cat" != "bird" && "dog" != "bird";
    empty := Includes([], "cat");
  }

  /** The test sentence, cut after its entities, followed by any text
      that holds no `&` and does not start with a character of an
      entity. */
  lemma DecodeSentence(rest: string)
    requires '&' !in rest && (rest == [] || !IsEntityChar(rest[0]))
    ensures ReplaceEscapedXmlCharacters(
              "&quot;" + " The ocean&apos;s" + " blue &lt;" + " &amp;" + " &gt;" + " &quot;" + rest)
            == "\"" + " The ocean's" + " blue <" + " &" + " >" + " \"" + rest
  {
    var p1, p2, p3 := "&quot;", " The ocean&apos;s", " blue &lt;";
    var p4, p5, p6 := " &amp;", " &gt;", " &quot;";
    SentencePieces();
    SentenceGaps();
    var t6 := p6 + rest;
    DecodeLeadingEntity(" ", "&quot;", '"', "", rest);
    assert ReplaceEscapedXmlCharacters(rest) == rest;
    var t5 := p5 + t6;
    DecodeLeadingEntity(" ", "&gt;", '>', "", t6);
    var t4 := p4 + t5;
    DecodeLeadingEntity(" ", "&amp;", '&', "", t5);
    var t3 := p3 + t4;
    DecodeLeadingEntity(" blue ", "&lt;", '<', "", t4);
    var t2 := p2 + t3;
    DecodeLeadingEntity(" The ocean", "&apos;", '\'', "s", t3);
    DecodeLeadingEntity("", "&quot;", '"', "", t2);
    Regroup7(p1, p2, p3, p4, p5, p6, rest);
    Regroup7("\"", " The ocean's", " blue <", " &", " >", " \"", rest);
  }

  /** The pieces of the test sentence, before and after decoding.
      Only splits a literal, in a proof of its own, which keeps the lemmas that use it small. */
  lemma SentencePieces()
    ensures "" + "&quot;" + "" == "&quot;" && "" + ['"'] + "" == "\""
    ensures " The ocean" + "&apos;" + "s" == " The ocean&apos;s"
    ensures " The ocean" + ['\''] + "s" == " The ocean's"
    ensures " blue " + "&lt;" + "" == " blue &lt;" && " blue " + ['<'] + "" == " blue <"
    ensures " " + "&amp;" + "" == " &amp;" && " " + ['&'] + "" == " &"
    ensures " " + "&gt;" + "" == " &gt;" && " " + ['>'] + "" == " >"
    ensures " " + "&quot;" + "" == " &quot;" && " " + ['"'] + "" == " \""
  {
  }

  /** The stretches between the entities of the test sentence.
      Only checks literals, in a proof of its own, which keeps the lemma
      that uses it small. */
  lemma SentenceGaps()
    ensures '&' !in " The ocean" && '&' !in " blue " && '&' !in "s"
    ensures !IsEntityChar(' ')
  {
  }

  /** Seven texts concatenated, grouped to the left or to the right.
      Only regroups, in a proof of its own, which keeps DecodeSentence small. */
  lemma Regroup7(a: string, b: string, c: string, d: string, e: string, f: string, g: string)
    ensures a + b + c + d + e + f + g == a + (b + (c + (d + (e + (f + g)))))
  {
  }

  lemma DecodeBlank()
    ensures ReplaceEscapedXmlCharacters("      ") == "      "
  {
  }

  /** Decoding is not idempotent: a second call decodes the `&lt;` that
      the first one produced from `&amp;lt;`. */
  lemma XmlDecodeNotIdempotent(x: string, y: string)
    requires '&' !in x && '&' !in y
    ensures var once := ReplaceEscapedXmlCharacters(x + "&amp;lt;" + y);
            ReplaceEscapedXmlCharacters(once) != once
  {
    EscapedLessThanDecodesOnce(x, y);
    DecodeLt(x, y);
    assert |x + "<" + y| < |x + "&lt;" + y|;
  }

  lemma FileNameWithDots()
    ensures RemoveFileNameExtension("file.name-file.name.png") == "file.name-file.name"
  {
    assert "file.name-file.name.png" == "file.name-file.name" + "." + "png";
    RemoveExtensionOfNameDotExt("file.name-file.name", "png");
  }

  lemma FileNameWithoutDot()
    ensures RemoveFileNameExtension("filename-filename") == "filename-filename"
  {
    var f := "filename-filename";
    assert !IsWs(f[0]);
    assert f == "filename" + "-" + "filename";
    assert '.' !in f;
  }

  lemma FileNameBlank()
    ensures RemoveFileNameExtension("    ") == ""
  {
  }

  lemma PrefixCases()
    ensures IsPrefix("image/png", "image/")
    ensures !IsPrefix("document/image/png", "image/")
    ensures IsPrefix("https\\x\\x", "https")
    ensures !IsPrefix("  http\\x\\x", "https")
  {
    assert "document/image/png"[0] != "image/"[0];
    assert "  http\\x\\x"[0] != "https"[0];
  }

  /** The URLs of the tests with a scheme and a path, with any query or
      none. */
  lemma PathOfUrlWithHost(query: string)
    requires query == [] || query[0] == '?'
    ensures ExtractPathFromURL("https://hostname.com/pathname/p1/p2/p3" + query)
            == "/pathname/p1/p2/p3"
  {
    UrlWithHostPieces();
    PathPiece();
    UrlGaps();
    ExtractPathOfAbsoluteUrl("https:", "hostname.com", "pathname/p1/p2/p3", query);
  }

  lemma PathOfUrlWithPort(query: string)
    requires query == [] || query[0] == '?'
    ensures ExtractPathFromURL("https://hostname.com:portname/pathname/p1/p2/p3" + query)
            == "/pathname/p1/p2/p3"
  {
    UrlWithPortPieces();
    PathPiece();
    UrlGaps();
    ExtractPathOfAbsoluteUrl("https:", "hostname.com:portname", "pathname/p1/p2/p3", query);
  }

  /** The URL of the tests with a host, cut where the path lemmas cut it.
      Only splits a literal, in a proof of its own, which keeps the lemmas that use it small. */
  lemma UrlWithHostPieces()
    ensures "https:" + "//" + "hostname.com" + "/" + "pathname/p1/p2/p3"
            == "https://hostname.com/pathname/p1/p2/p3"
  {
    assert "https:" + "//" + "hostname.com" + "/" == "https://hostname.com/";
  }

  /** The URL of the tests with a port, cut where the path lemmas cut it.
      Only splits a literal, in a proof of its own, which keeps the lemmas that use it small. */
  lemma UrlWithPortPieces()
    ensures "https:" + "//" + "hostname.com:portname" + "/" + "pathname/p1/p2/p3"
            == "https://hostname.com:portname/pathname/p1/p2/p3"
  {
    assert "https:" + "//" + "hostname.com:portname" + "/" == "https://hostname.com:portname/";
  }

  /** The URL of the tests without a scheme, cut at its first slash.
      Only splits a literal, in a proof of its own, which keeps the lemmas that use it small. */
  lemma UrlWithoutSchemePieces()
    ensures "hostname.com:portname" + "/" + "pathname/p1/p2/p3"
            == "hostname.com:portname/pathname/p1/p2/p3"
  {
  }

  /** The path of the test URLs with its leading slash.
      Only splits a literal, in a proof of its own, which keeps the lemmas that use it small. */
  lemma PathPiece()
    ensures "/" + "pathname/p1/p2/p3" == "/pathname/p1/p2/p3"
  {
  }

  /** The pieces of the test URLs hold no separator where none may be.
      Only checks literals, in a proof of its own, which keeps the lemmas
      that use it small. */
  lemma UrlGaps()
    ensures '/' !in "https:" && '/' !in "hostname.com" && '/' !in "hostname.com:portname"
    ensures '?' !in "pathname/p1/p2/p3"
  {
  }

  /** A URL whose path is empty, for any host without a slash. */
  lemma PathOfUrlEndingInSlash(host: string)
    requires '/' !in host
    ensures ExtractPathFromURL("https://" + host + "/") == ""
  {
    assert "https://" + host + "/" == "https:" + "//" + host + "/" + "" + "";
    ExtractPathOfAbsoluteUrl("https:", host, "", "");
  }

  /** The URL of the test without a scheme, with any query or none. */
  lemma PathOfUrlWithoutScheme(query: string)
    requires query == [] || query[0] == '?'
    requires !Contains(query, "//")
    ensures ExtractPathFromURL("hostname.com:portname/pathname/p1/p2/p3" + query)
            == "/pathname/p1/p2/p3"
  {
    var host, path := "hostname.com:portname", "pathname/p1/p2/p3";
    var a := host + "/" + path;
    UrlWithoutSchemePieces();
    PathPiece();
    UrlGaps();
    NotContainsPair(a, '/', '/');
    if query != [] {
      assert query[0] !in "//";
    }
    NotContainsAppend(a, query, "//");
    ExtractPathOfRelativeUrl(host, path, query);
  }

  /** A host and a slash, for any host without a slash. */
  lemma PathOfHostEndingInSlash(host: string)
    requires '/' !in host
    ensures ExtractPathFromURL(host + "/") == ""
  {
    assert host + "/" == host + "/" + "" + "";
    forall i | OccursAt(host + "/", "//", i)
      ensures false
    {
      PairAt(host + "/", '/', '/', i);
    }
    ExtractPathOfRelativeUrl(host, "", "");
  }

  /** Too few slashes: nothing is left once the leading entries are
      dropped, for any host without a slash. */
  lemma PathOfUrlWithoutSlashAfterHost(host: string)
    requires '/' !in host
    ensures ExtractPathFromURL("https://" + host) == ""
  {
    var u := "https://" + host;
    assert u[6..8] == "//";
    assert OccursAt(u, "//", 6);
    assert Count("https://", '/') == 2;
    CountZero(host, '/');
    CountAppend("https://", host, '/');
  }

  lemma PathOfBareHost(host: string)
    requires '/' !in host
    ensures ExtractPathFromURL(host) == ""
  {
    CountZero(host, '/');
  }

  lemma PathOfBlank()
    ensures ExtractPathFromURL("    ") == ""
  {
  }

  lemma HttpUrlBecomesHttps()
    ensures GetHttpsVersionOfURL("http" + "://github.com/") == "https" + "://github.com/"
  {
    var rest := "://github.com/";
    assert rest[0] == ':';
    HttpBecomesHttps(rest);
  }

  lemma HttpsUrlUnchanged()
    ensures GetHttpsVersionOfURL("https" + "://github.com/") == "https" + "://github.com/"
  {
    var v := "https" + "://github.com/";
    assert "https" <= v;
    assert !IsWs(v[0]);
  }

  lemma UrlWithoutProtocolUnchanged()
    ensures GetHttpsVersionOfURL("github" + ".com/") == "github" + ".com/"
  {
    var u := "github" + ".com/";
    assert !IsWs(u[0]);
    forall i | 0 <= i && i + 4 <= |u|
      ensures !OccursAt(u, "http", i)
    {
      assert u[i..i + 4][0] == u[i] && u[i..i + 4][1] == u[i + 1];
    }
  }

  lemma BlankUrlToHttps()
    ensures GetHttpsVersionOfURL("     ") == ""
  {
  }

  /** Rewriting is not idempotent in general: an `http` that does not start
      the string is rewritten again on every call, so a second call changes
      the result of the first, whatever the first character and the rest. */
  lemma HttpsNotIdempotent(c: char, rest: string)
    ensures var once := GetHttpsVersionOfURL([c] + "http" + rest);
            GetHttpsVersionOfURL(once) != once
  {
    var once := [c] + "https" + rest;
    calc {
      |GetHttpsVersionOfURL(GetHttpsVersionOfURL([c] + "http" + rest))|;
    == { HttpAfterOtherChar(c, rest); }
      |GetHttpsVersionOfURL(once)|;
    == { assert once == [c] + "http" + ("s" + rest); }
      |GetHttpsVersionOfURL([c] + "http" + ("s" + rest))|;
    == { HttpAfterOtherChar(c, "s" + rest); }
      |[c] + "https" + ("s" + rest)|;
    == |once| + 1;
    }
    HttpAfterOtherChar(c, rest);
  }
}
