/** Two places where the service does not do what its documentation says,
    each shown on an input, next to a corrected definition with the
    intended property proved about it. */
module Findings {
  import opened Strings
  import opened Whitespace
  import opened StringHandling

  // ---------------------------------------------------------------------
  // XML entities: one pass instead of five
  // ---------------------------------------------------------------------

  /** The characters that have one of the five entities. */
  predicate IsEscaped(c: char)
  {
    c in {'"', '\'', '<', '&', '>'}
  }

  /** The entity of an escaped character, or the character itself. */
  function EntityOf(c: char): (e: string)
    ensures IsEscaped(c) ==> IsXmlEntity(e, c)
    ensures !IsEscaped(c) ==> e == [c]
  {
    match c
    case '"' => "&quot;"
    case '\'' => "&apos;"
    case '<' => "&lt;"
    case '&' => "&amp;"
    case '>' => "&gt;"
    case _ => [c]
  }

  /** Every entity is the entity of its character. */
  lemma EntityOfXmlEntity(e: string, d: char)
    requires IsXmlEntity(e, d)
    ensures IsEscaped(d) && EntityOf(d) == e
  {
  }

  /** Escapes the five characters, so that a decoder can tell an entity
      written in the text from one that stands for a character. */
  function EncodeEntities(s: string): (r: string)
    ensures |r| >= |s|
    ensures (forall i :: 0 <= i < |s| ==> !IsEscaped(s[i])) ==> r == s
  {
    if s == [] then [] else EntityOf(s[0]) + EncodeEntities(s[1..])
  }

  /** Encoding works character by character, so it distributes over
      concatenation. */
  lemma {:induction false} EncodeAppend(a: string, b: string)
    ensures EncodeEntities(a + b) == EncodeEntities(a) + EncodeEntities(b)
  {
    if a == [] {
      assert a + b == b;
    } else {
      assert (a + b)[0] == a[0] && (a + b)[1..] == a[1..] + b;
      EncodeAppend(a[1..], b);
      assert EntityOf(a[0]) + (EncodeEntities(a[1..]) + EncodeEntities(b))
          == (EntityOf(a[0]) + EncodeEntities(a[1..])) + EncodeEntities(b);
    }
  }

  /** The entity that starts `t`, as its length and character; length 0
      when `t` starts with none. */
  function LeadingEntity(t: string): (r: (nat, char))
    ensures r.0 <= |t|
  {
    if "&quot;" <= t then (6, '"')
    else if "&apos;" <= t then (6, '\'')
    else if "&lt;" <= t then (4, '<')
    else if "&amp;" <= t then (5, '&')
    else if "&gt;" <= t then (4, '>')
    else (0, ' ')
  }

  /** What `LeadingEntity` finds is an entity that starts `t`, and an
      entity that starts `t` is what it finds: no entity is a prefix of
      another. */
  lemma LeadingEntityFinds(t: string, e: string, d: char)
    ensures LeadingEntity(t).0 > 0 ==> IsXmlEntity(t[..LeadingEntity(t).0], LeadingEntity(t).1)
    ensures IsXmlEntity(e, d) && e <= t ==> LeadingEntity(t) == (|e|, d)
  {
    if IsXmlEntity(e, d) && e <= t {
      assert t[0] == e[0] && t[1] == e[1] && t[2] == e[2];
    }
  }

  /** Decodes the five entities in one left-to-right pass: a character
      that an entity produced is never read again. */
  function DecodeEntities(t: string): (r: string)
    ensures |r| <= |t|
    decreases |t|
  {
    if t == [] then []
    else if t[0] != '&' then [t[0]] + DecodeEntities(t[1..])
    else
      var (n, c) := LeadingEntity(t);
      if n > 0 then [c] + DecodeEntities(t[n..]) else [t[0]] + DecodeEntities(t[1..])
  }

  /** A character other than `&` starts no entity and is copied. */
  lemma DecodeCopies(c: char, rest: string)
    requires c != '&'
    ensures DecodeEntities([c] + rest) == [c] + DecodeEntities(rest)
  {
    assert ([c] + rest)[0] == c && ([c] + rest)[1..] == rest;
  }

  /** An encoded character decodes to itself, whatever follows it. */
  lemma DecodeEntityOf(c: char, rest: string)
    ensures DecodeEntities(EntityOf(c) + rest) == [c] + DecodeEntities(rest)
  {
    var e := EntityOf(c);
    if IsEscaped(c) {
      var t := e + rest;
      assert t[..|e|] == e && t[0] == '&';
      LeadingEntityFinds(t, e, c);
      assert t[|e|..] == rest;
    } else {
      DecodeCopies(c, rest);
    }
  }

  /** Decoding recovers what encoding escaped: the round trip the five
      chained replacements miss. */
  lemma {:induction false} DecodeEncode(s: string)
    ensures DecodeEntities(EncodeEntities(s)) == s
  {
    if s != [] {
      DecodeEntityOf(s[0], EncodeEntities(s[1..]));
      DecodeEncode(s[1..]);
    }
  }

  /** Text without `&` decodes to itself, and so does a prefix of it. */
  lemma {:induction false} DecodeSkipPrefix(x: string, t: string)
    requires '&' !in x
    ensures DecodeEntities(x + t) == x + DecodeEntities(t)
    decreases |x|
  {
    if x == [] {
      assert x + t == t;
    } else {
      calc {
        DecodeEntities(x + t);
      == { assert x + t == [x[0]] + (x[1..] + t); }
        DecodeEntities([x[0]] + (x[1..] + t));
      == { DecodeCopies(x[0], x[1..] + t); }
        [x[0]] + DecodeEntities(x[1..] + t);
      == { DecodeSkipPrefix(x[1..], t); }
        [x[0]] + (x[1..] + DecodeEntities(t));
      == { assert [x[0]] + (x[1..] + DecodeEntities(t)) == ([x[0]] + x[1..]) + DecodeEntities(t);
         assert [x[0]] + x[1..] == x; }
        x + DecodeEntities(t);
      }
    }
  }

  /** Text without `&` is its own decoding. */
  lemma DecodeWithoutAmpersand(y: string)
    requires '&' !in y
    ensures DecodeEntities(y) == y
  {
    DecodeSkipPrefix(y, []);
    assert y + [] == y;
  }

  /** One entity between stretches without `&` decodes to its character
      and nothing else changes, whatever follows it. */
  lemma DecodeOneEntity(x: string, e: string, d: char, y: string)
    requires IsXmlEntity(e, d)
    requires '&' !in x && '&' !in y
    ensures DecodeEntities(x + e + y) == x + [d] + y
  {
    calc {
      DecodeEntities(x + e + y);
    == { assert x + e + y == x + (e + y); DecodeSkipPrefix(x, e + y); }
      x + DecodeEntities(e + y);
    == { EntityOfXmlEntity(e, d); DecodeEntityOf(d, y); }
      x + ([d] + DecodeEntities(y));
    == { DecodeWithoutAmpersand(y); }
      x + ([d] + y);
    == { assert x + ([d] + y) == x + [d] + y; }
      x + [d] + y;
    }
  }

  /** On one entity between stretches without `&`, the one-pass decoder
      agrees with the service, except after `&amp;` followed by `gt;`. */
  lemma DecodeAgreesOnSingleEntity(x: string, e: string, d: char, y: string)
    requires IsXmlEntity(e, d)
    requires '&' !in x && '&' !in y
    requires e == "&amp;" ==> !("gt;" <= y)
    ensures DecodeEntities(x + e + y) == ReplaceEscapedXmlCharacters(x + e + y)
  {
    DecodeOneEntity(x, e, d, y);
    DecodeSingleEntity(x, e, d, y);
  }

  /** The encoding of `&gt;` after text with nothing to escape. */
  lemma EncodeGreaterThanEntity(x: string)
    requires forall i :: 0 <= i < |x| ==> !IsEscaped(x[i])
    ensures EncodeEntities(x + "&gt;") == x + "&amp;gt;"
  {
    EncodeAppend(x, "&gt;");
    EncodeGreaterThan();
  }

  /** `&gt;` encodes to `&amp;gt;`: only its `&` is escaped. */
  lemma EncodeGreaterThan()
    ensures EncodeEntities("&gt;") == "&amp;gt;"
  {
    var rest := "gt;";
    assert "&gt;" == ['&'] + rest;
    EncodeCons('&', rest);
    assert !IsEscaped(rest[0]) && !IsEscaped(rest[1]) && !IsEscaped(rest[2]);
  }

  /** Encoding one character and then the rest. */
  lemma EncodeCons(c: char, s: string)
    ensures EncodeEntities([c] + s) == EntityOf(c) + EncodeEntities(s)
  {
    assert ([c] + s)[0] == c && ([c] + s)[1..] == s;
  }

  /** The text `&gt;`, once encoded, comes back from the service as `>`:
      it is decoded twice. */
  lemma XmlRoundTripFails(x: string)
    requires forall i :: 0 <= i < |x| ==> !IsEscaped(x[i])
    ensures ReplaceEscapedXmlCharacters(EncodeEntities(x + "&gt;")) == x + ">"
    ensures ReplaceEscapedXmlCharacters(EncodeEntities(x + "&gt;")) != x + "&gt;"
  {
    EncodeGreaterThanEntity(x);
    assert '&' !in x;
    EscapedGreaterThanDecodesTwice(x, "");
    assert x + "&amp;gt;" + "" == x + "&amp;gt;" && x + ">" + "" == x + ">";
    assert (x + ">")[|x|..] == ">";
  }

  /** The one-pass decoder gives the same text back. */
  lemma XmlRoundTripFixed(x: string)
    ensures DecodeEntities(EncodeEntities(x + "&gt;")) == x + "&gt;"
  {
    DecodeEncode(x + "&gt;");
  }

  // ---------------------------------------------------------------------
  // HTTPS: only the protocol is rewritten
  // ---------------------------------------------------------------------

  /** The service rewrites an `http` that is not the protocol: a URL with
      another protocol comes back changed. */
  lemma ForeignProtocolRewritten()
    ensures GetHttpsVersionOfURL("ftp://a/" + "http") == "ftp://a/" + "https"
  {
    var u := "ftp://a/" + "http";
    assert !IsWs(u[0]);
    assert OccursAt(u, "http", 8);
    forall j | 0 <= j < 8
      ensures !OccursAt(u, "http", j)
    {
      assert u[j..j + 4][0] == u[j];
    }
    assert !("https" <= u) by {
      assert u[0] == 'f';
    }
    assert u[..8] + "https" + u[12..] == "ftp://a/" + "https";
  }

  /** The HTTPS version of a URL as documented: blank input gives `""`, the
      `http:` protocol becomes `https:`, and every other URL (another
      protocol, no protocol, or `https:` already) is returned as is. */
  function HttpsVersionOfURL(url: string): (r: string)
    ensures AllWs(url) ==> r == []
    ensures !AllWs(url) && !("http:" <= url) ==> r == url
    ensures "http:" <= url ==> "https:" <= r && r[6..] == url[5..]
  {
    if IsWhiteSpaceOnly(url) then []
    else if "http:" <= url then "https:" + url[5..]
    else url
  }

  /** Rewriting twice is rewriting once, for every input. */
  lemma HttpsVersionIdempotent(url: string)
    ensures HttpsVersionOfURL(HttpsVersionOfURL(url)) == HttpsVersionOfURL(url)
  {
    var r := HttpsVersionOfURL(url);
    if "http:" <= url {
      assert r[0] == 'h' && !IsWs(r[0]);
      assert r[4] == 's';
    }
  }

  /** The correction changes nothing the service gets right: URLs with
      the `http:` protocol, URLs starting with `https` and URLs without
      `http` come out the same from both. */
  lemma HttpsVersionAgrees(url: string)
    requires "http:" <= url || "https" <= url || !Contains(url, "http")
    ensures HttpsVersionOfURL(url) == GetHttpsVersionOfURL(url)
  {
    if "http:" <= url {
      HttpProtocolAgrees(url);
    } else if "https" <= url {
      assert url[4] == 's';
      assert !IsWs(url[0]);
    }
  }

  /** Both rewrite the `http:` protocol to `https:`. */
  lemma HttpProtocolAgrees(url: string)
    requires "http:" <= url
    ensures HttpsVersionOfURL(url) == GetHttpsVersionOfURL(url)
  {
    var rest := url[4..];
    calc {
      GetHttpsVersionOfURL(url);
    == { assert url == "http" + rest; }
      GetHttpsVersionOfURL("http" + rest);
    == { assert rest[0] == ':'; HttpBecomesHttps(rest); }
      "https" + rest;
    == { assert rest == [':'] + url[5..]; }
      "https:" + url[5..];
    == { assert !IsWs(url[0]); }
      HttpsVersionOfURL(url);
    }
  }

  /** The URL of the finding keeps its protocol under the correction. */
  lemma ForeignProtocolKept()
    ensures HttpsVersionOfURL("ftp://a/" + "http") == "ftp://a/" + "http"
  {
    var u := "ftp://a/" + "http";
    assert u[0] == 'f';
  }
}
