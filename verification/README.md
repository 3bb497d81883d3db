# String-handling service, modelled in Dafny

The application's `StringHandlingService` holds eleven small, pure
operations on strings and lists of strings:

- blank detection and first/last word extraction;
- joining a list with `", "` and testing list membership;
- escaping regular-expression metacharacters and decoding the five
  predefined XML entities;
- stripping a file-name extension and testing prefixes;
- extracting the path of a URL and rewriting `http` to `https`.

This project models each of them over `string` (`seq<char>`). It also
models the JavaScript primitives they are built on, so that each model
follows the source branch for branch:

- `\s`;
- `match(/\S+/g)`;
- `indexOf` and `includes`;
- `split` and `join`;
- `splice`;
- global and first-only `replace`.

It then proves what the documentation and the tests promise.

Files and modules:

- `strings.dfy` (`Strings`): the JavaScript string primitives.
  - It covers occurrence, `IndexOf`, `Contains`, `ReplaceFirst`,
    `ReplaceAll`, `SplitOn`, `Join`, `SpliceFront`, `BeforeFirst`,
    `AfterNth` and `Count`.
  - The main ones come with a reference definition and a lemma tying the two
    together. For example, `Join(SplitOn(s, sep), sep) == s`, and a
    global replacement is a split followed by a join.
- `whitespace.dfy` (`Whitespace`): the `\s` class and the tokenizer.
  - The tokenizer has an independent description as a layout of words
    between whitespace gaps (`IsTokenization`).
  - It also has positional descriptions of the first and the last word
    (`FirstWordAt`, `LastWordAt`).
  - Both directions are proved for each.
- `string_handling.dfy` (`StringHandling`): the eleven operations and
  their properties.
- `string_handling_examples.dfy` (`StringHandlingExamples`): the concrete
  cases of `src/app/string-handling.service.spec.ts`: lemmas for the
  functions, and two methods for the cases that call a method. Where a
  case carries a query string or a host, it is stated for every query or
  host of that shape.
- `findings.dfy` (`Findings`): two places where the code does not do what
  its documentation says. Each comes with a corrected definition.

Where the code and its description disagree, the model follows the code:

- The list join always uses the fixed separator `", "`. It takes no
  separator parameter.
- The five XML replacements run in the order `&quot;`, `&apos;`, `&lt;`,
  `&amp;`, `&gt;`, and the order matters:
  - `&amp;gt;` decodes to `>`;
  - `&amp;lt;` decodes to `&lt;`;
  - decoding is not idempotent.
- HTTPS rewriting is idempotent only for URLs that start with `http` or
  hold no `http`. `"ahttp"` gives `"ahttps"`, and then `"ahttpss"`; the same
  happens after any first character.
- No Arabic-script detection exists in the code, so none is modelled.

## Model

| member | source | states |
|---|---|---|
| Whitespace.RemoveWs | src/app/string-handling.service.ts:16 | the result is no longer than the text; every kept character is non-whitespace and comes from the text, and every non-whitespace character is kept; so one character is kept exactly when it is not whitespace |
| Whitespace.RemoveWsAppend | src/app/string-handling.service.ts:16 | deleting whitespace works piecewise over concatenation, so the kept characters stay in their order; with the one-character case this determines the result |
| Whitespace.RemoveWsEmpty | src/app/string-handling.service.ts:16-23 | nothing is left after deleting whitespace exactly when every character was whitespace |
| StringHandling.IsWhiteSpaceOnly | src/app/string-handling.service.ts:14-24 | true exactly when every character is whitespace, so `""` is blank |
| Whitespace.Tokens | src/app/string-handling.service.ts:35 | `match(/\S+/g)`: empty exactly for blank text, and every token is a non-empty run without whitespace |
| Whitespace.TokensTokenize | src/app/string-handling.service.ts:35 | the tokens lay the text out as words separated by non-empty whitespace gaps |
| Whitespace.TokenizationUnique | src/app/string-handling.service.ts:35 | any such layout of the text has exactly the tokens as its words, so the layout determines the tokenizer's output |
| Whitespace.FirstWordAtIsFirstToken | src/app/string-handling.service.ts:35-39 | a word preceded only by whitespace and followed by whitespace or the end is the first token |
| Whitespace.FirstTokenIsFirstWordAt | src/app/string-handling.service.ts:35-39 | the first token sits at such a position |
| Whitespace.LastWordAtIsLastToken | src/app/string-handling.service.ts:128-135 | a word after whitespace or the start, followed only by whitespace, is the last token |
| Whitespace.LastTokenIsLastWordAt | src/app/string-handling.service.ts:128-135 | the last token sits at such a position |
| Whitespace.TokensOfTwoWords | src/app/string-handling.service.ts:135 | two words joined by one space tokenize back into those two words |
| StringHandling.GetFirstWord | src/app/string-handling.service.ts:31-43 | `""` exactly for blank text; otherwise a word found at a position with only whitespace before it |
| StringHandling.FirstWordByPosition | src/app/string-handling.service.ts:31-43 | the word preceded only by whitespace is what `getFirstWord` returns |
| StringHandling.GetFirstAndLastWord | src/app/string-handling.service.ts:125-143 | `""` exactly for blank text; the result tokenizes into the first and last token (one token when there is one), joined by a single space |
| StringHandling.FirstAndLastWordByPosition | src/app/string-handling.service.ts:125-143 | with one word the result is that word; with several it is the first word, a space and the last word |
| Strings.JoinLength | src/app/string-handling.service.ts:50-65 | a joined list is as long as its parts plus one separator per gap |
| Strings.JoinSnoc | src/app/string-handling.service.ts:59-61 | appending one more part appends the separator and that part |
| StringHandling.ConcatListAndSeparateByCommas | src/app/string-handling.service.ts:50-65 | the loop's result is the list joined with `", "` |
| StringHandling.CommaJoinShape | src/app/string-handling.service.ts:50-65 | `""` for no elements, the element itself for one, and otherwise the first element, `", "` and the rest; two characters per separator |
| StringHandling.CommaJoinLast | src/app/string-handling.service.ts:57-61 | no separator follows the last element: it comes right after one `", "` |
| StringHandling.Includes | src/app/string-handling.service.ts:105-117 | the scan answers true exactly when some element equals the value, so false on an empty list |
| StringHandling.EscapeSpecialCharactersOfRegExp | src/app/string-handling.service.ts:75-81 | the output is one character longer per metacharacter, and text without metacharacters is unchanged |
| StringHandling.UnescapeEscape | src/app/string-handling.service.ts:80 | removing each escaping backslash gives the input back, so every character is kept in order |
| StringHandling.EscapeAppend | src/app/string-handling.service.ts:80 | escaping works character by character and distributes over concatenation |
| Strings.ReplaceAll | src/app/string-handling.service.ts:91-95 | a global replacement with no occurrence changes nothing, and a replacement no longer than the pattern does not lengthen the text |
| Strings.ReplaceAllIsSplitJoin | src/app/string-handling.service.ts:91-95 | a global replacement equals splitting on the pattern and joining with the replacement |
| Strings.ReplaceAllAppend | src/app/string-handling.service.ts:91-95 | a global replacement works piecewise at a cut that no occurrence can straddle |
| StringHandling.ReplaceEscapedXmlCharacters | src/app/string-handling.service.ts:89-98 | decoding never lengthens the text, and text without `&` is returned unchanged |
| StringHandling.XmlDecodeAppend | src/app/string-handling.service.ts:90-95 | all five passes work piecewise at a cut before a character that belongs to no entity |
| StringHandling.DecodeSingleEntity | src/app/string-handling.service.ts:90-95 | one entity between `&`-free text decodes to its character, with nothing else changed; after `&amp;` this holds unless `gt;` follows |
| StringHandling.DecodeAmp | src/app/string-handling.service.ts:94-95 | `&amp;` becomes `&` at the fourth pass, and the fifth keeps it unless `gt;` follows |
| StringHandling.SplitLastPiece | src/app/string-handling.service.ts:155-162 | splitting on a character gives one piece exactly when the character is absent; the last piece holds no such character; otherwise the text is the other pieces joined, the character, then the last piece |
| Strings.JoinSplitOn | src/app/string-handling.service.ts:155-162 | joining the pieces of a split with the same separator gives the text back |
| Strings.SplitOnJoin | src/app/string-handling.service.ts:155-162 | the other direction: splitting the join of one or more separator-free parts gives the parts back |
| StringHandling.RemoveFileNameExtension | src/app/string-handling.service.ts:152-168 | `""` for blank names; the name itself without a `.`; otherwise the prefix of the name that ends right before its last `.` |
| StringHandling.RemoveExtensionOfNameDotExt | src/app/string-handling.service.ts:155-164 | a name, a dot and an extension without dots give back exactly the name |
| StringHandling.IsPrefix | src/app/string-handling.service.ts:176-182 | true exactly when the possible prefix is a prefix of the text, so the additional `includes` test never changes the answer |
| Strings.IndexOf | src/app/string-handling.service.ts:200 | `indexOf`: -1 exactly when there is no occurrence, otherwise the leftmost occurrence |
| Strings.Contains | src/app/string-handling.service.ts:237 | `includes`: true exactly when the pattern occurs somewhere |
| StringHandling.EntriesBeforePath | src/app/string-handling.service.ts:199-203 | 3 entries are skipped exactly when `//` occurs anywhere, otherwise 1 |
| Strings.SpliceFront | src/app/string-handling.service.ts:206 | `splice(0, k)` leaves the last `max(|p| - k, 0)` entries |
| Strings.JoinDropSplit | src/app/string-handling.service.ts:198-210 | dropping the first `k` pieces of a split on `/` and joining the rest gives the text after the `k`-th `/`, and `""` when there are fewer |
| Strings.AfterNth | src/app/string-handling.service.ts:198-210 | the text after the `k`-th `/` is `""` when there are fewer than `k`; otherwise it holds the remaining occurrences and, for `k > 0`, is preceded in the text by a `/`, which with AfterNthIsSuffix pins it down |
| Strings.AfterNthIsSuffix | src/app/string-handling.service.ts:198-210 | the text after the `k`-th occurrence is a suffix of the URL |
| Strings.SplitOnHead | src/app/string-handling.service.ts:214 | the first piece of a split on `?` is the text before the first `?` |
| Strings.BeforeFirst | src/app/string-handling.service.ts:214 | the text before the first `?` is a prefix without `?`, ending at a `?` or at the end |
| StringHandling.ExtractPathFromURL | src/app/string-handling.service.ts:190-226 | `""` for blank URLs or URLs with too few slashes; otherwise the text after the 3rd (`//` present) or 1st `/`, cut at the first `?`, with `/` in front unless empty; never `"/"` alone and never a `?` |
| StringHandling.ExtractPathOfAbsoluteUrl | src/app/string-handling.service.ts:190-226 | for `scheme//host/path?query` the result is `/path`, or `""` when the path is empty |
| StringHandling.ExtractPathOfRelativeUrl | src/app/string-handling.service.ts:190-226 | for `host/path?query` without `//` the result is `/path`, or `""` when the path is empty |
| Strings.ReplaceFirst | src/app/string-handling.service.ts:241 | a string-pattern `replace` changes nothing without an occurrence, and otherwise rewrites the leftmost occurrence only |
| StringHandling.GetHttpsVersionOfURL | src/app/string-handling.service.ts:234-245 | `""` for blank URLs; unchanged without `http` or with a leading `https`; otherwise only the leftmost `http` becomes `https` |
| StringHandling.HttpBecomesHttps | src/app/string-handling.service.ts:241 | `http` + rest becomes `https` + rest when the rest does not start with `s` |
| StringHandling.HttpAfterOtherChar | src/app/string-handling.service.ts:237-241 | an `http` after any first character, whitespace or `h` included, is rewritten too, though it is not the protocol |
| StringHandling.HttpsIdempotent | src/app/string-handling.service.ts:234-245 | a second call changes nothing for URLs that start with `http` or hold no `http` |
| StringHandlingExamples.TextIsNotWhiteSpaceOnly | src/app/string-handling.service.spec.ts:23-25 | `"hello everybody!"` is not blank |
| StringHandlingExamples.SpacesAreWhiteSpaceOnly | src/app/string-handling.service.spec.ts:27-29 | seven spaces are blank, and so is `""` |
| StringHandlingExamples.FirstWordOfName | src/app/string-handling.service.spec.ts:33-35 | the first word of `"   Ahmed    Saleh Algamdi"` is `"Ahmed"` |
| StringHandlingExamples.FirstWordOfBlank | src/app/string-handling.service.spec.ts:37-39 | the first word of blank text is `""` |
| StringHandlingExamples.CommaCases | src/app/string-handling.service.spec.ts:42-45 | `['Toyota', 'GMC', 'BMW']` gives `"Toyota, GMC, BMW"`, and, beyond the test, the empty list gives `""` |
| StringHandlingExamples.IncludesCases | src/app/string-handling.service.spec.ts:55-67 | `'cat'` is in `['cat', 'dog']`, `'bird'` is not, and, beyond the tests, nothing is in the empty list |
| StringHandlingExamples.EscapeEverySpecialCharacter | src/app/string-handling.service.spec.ts:49-51 | the test's string of metacharacters, backslashes, spaces and a quote escapes as the test expects |
| StringHandlingExamples.FirstAndLastWordOfName | src/app/string-handling.service.spec.ts:70-72 | the five-word name gives `"Ahmed Algamdi"` |
| StringHandlingExamples.FirstAndLastWordOfBlank | src/app/string-handling.service.spec.ts:74-76 | blank text gives `""` |
| StringHandlingExamples.DecodeSentence | src/app/string-handling.service.spec.ts:80-82 | the mixed-entity sentence decodes to `"\" The ocean's blue < & > \""`, followed by any `&`-free text that does not start with an entity character |
| StringHandlingExamples.DecodeBlank | src/app/string-handling.service.spec.ts:84-86 | whitespace is returned unchanged |
| StringHandling.EscapedGreaterThanDecodesTwice | src/app/string-handling.service.ts:94-95 | `&amp;gt;` between two `&`-free texts decodes to `>`, with nothing else changed |
| StringHandling.EscapedLessThanDecodesOnce | src/app/string-handling.service.ts:93-94 | `&amp;lt;` between two `&`-free texts decodes to `&lt;`, with nothing else changed |
| StringHandlingExamples.XmlDecodeNotIdempotent | src/app/string-handling.service.ts:89-98 | decoding the result of decoding `&amp;lt;` between two `&`-free texts changes it again |
| StringHandlingExamples.FileNameWithDots | src/app/string-handling.service.spec.ts:90-92 | `"file.name-file.name.png"` gives `"file.name-file.name"` |
| StringHandlingExamples.FileNameWithoutDot | src/app/string-handling.service.spec.ts:94-96 | a name without a dot is returned as is |
| StringHandlingExamples.FileNameBlank | src/app/string-handling.service.spec.ts:98-100 | a blank name gives `""` |
| StringHandlingExamples.PrefixCases | src/app/string-handling.service.spec.ts:104-118 | the four prefix tests, including that leading spaces are not trimmed |
| StringHandlingExamples.PathOfUrlWithHost | src/app/string-handling.service.spec.ts:122-124 | `https://hostname.com/pathname/p1/p2/p3` with any query gives `/pathname/p1/p2/p3` |
| StringHandlingExamples.PathOfUrlWithPort | src/app/string-handling.service.spec.ts:126-140 | the same URL with a port, with a query, with an empty query or with none |
| StringHandlingExamples.PathOfUrlWithoutScheme | src/app/string-handling.service.spec.ts:130-132 | the URL without scheme and with a query without `//` gives the same path |
| StringHandlingExamples.PathOfUrlEndingInSlash | src/app/string-handling.service.spec.ts:142-144 | `https://host/` gives `""` for every host without `/` |
| StringHandlingExamples.PathOfUrlWithoutSlashAfterHost | src/app/string-handling.service.spec.ts:145-147 | `https://host` gives `""` |
| StringHandlingExamples.PathOfHostEndingInSlash | src/app/string-handling.service.spec.ts:148-150 | `host/` gives `""` |
| StringHandlingExamples.PathOfBareHost | src/app/string-handling.service.spec.ts:151-153 | a host alone gives `""` |
| StringHandlingExamples.PathOfBlank | src/app/string-handling.service.spec.ts:155-157 | blank URLs give `""` |
| StringHandlingExamples.HttpUrlBecomesHttps | src/app/string-handling.service.spec.ts:160-162 | `http://github.com/` becomes `https://github.com/` |
| StringHandlingExamples.HttpsUrlUnchanged | src/app/string-handling.service.spec.ts:164-166 | `https://github.com/` is unchanged |
| StringHandlingExamples.UrlWithoutProtocolUnchanged | src/app/string-handling.service.spec.ts:168-170 | `github.com/` is unchanged |
| StringHandlingExamples.BlankUrlToHttps | src/app/string-handling.service.spec.ts:172-174 | blank URLs give `""` |
| StringHandlingExamples.HttpsNotIdempotent | src/app/string-handling.service.ts:237-241 | for any first character and any rest, a second call changes the result of rewriting an `http` after that character |
| Findings.XmlRoundTripFails | src/app/string-handling.service.ts:83-98 | after text with none of the five escapable characters, an encoded text ending in the literal `&gt;` comes back as `>`, not as `&gt;` |
| Findings.DecodeEntities | src/app/string-handling.service.ts:83-98 | a one-pass decoder never lengthens the text |
| Findings.DecodeEncode | src/app/string-handling.service.ts:83-98 | the one-pass decoder undoes entity encoding for every text |
| Findings.XmlRoundTripFixed | src/app/string-handling.service.ts:83-98 | the text of the failing round trip comes back unchanged from the one-pass decoder |
| Findings.DecodeAgreesOnSingleEntity | src/app/string-handling.service.ts:90-95 | on one entity between `&`-free text the one-pass decoder and the service agree |
| Findings.ForeignProtocolRewritten | src/app/string-handling.service.ts:228-241 | `ftp://a/http` comes back as `ftp://a/https`, although its protocol is neither HTTP nor HTTPS |
| Findings.HttpsVersionOfURL | src/app/string-handling.service.ts:228-245 | `""` for blank URLs; `http:` becomes `https:` with the rest kept; every other URL is unchanged |
| Findings.HttpsVersionIdempotent | src/app/string-handling.service.ts:228-245 | the corrected rewrite is idempotent for every input |
| Findings.HttpsVersionAgrees | src/app/string-handling.service.ts:234-245 | the correction agrees with the service on URLs with the `http:` protocol, URLs starting with `https`, and URLs without `http` |
| Findings.ForeignProtocolKept | src/app/string-handling.service.ts:231-232 | the corrected rewrite returns `ftp://a/http` as is |

## Left out

- Angular plumbing: the `@Injectable` decorator, `providedIn` and the
  empty constructor have no behaviour.
- The Angular test setup: `TestBed` and `expect` are not modelled. The concrete
  cases are lemmas in `StringHandlingExamples` instead.
- The regular-expression engine: `\s`, `/\S+/g`, `/[...]/g` and literal
  global patterns are written out as functions over characters. That an
  escaped string matches literally inside a real engine is not modelled.
- UTF-16: JavaScript strings are sequences of UTF-16 code units. Here a
  `char` is one unit, so surrogate pairs are not modelled. Every pattern
  in the service is ASCII apart from the whitespace class.
- `match` returning `null`: on blank text `Whitespace.Tokens` returns the
  empty list. The service never indexes the match of blank text, because
  of the blank guard.
- `includes` with a non-string argument, and JavaScript's coercions in
  general: every argument is a string or a list of strings.
- A join with a caller-chosen separator, and Arabic-script detection:
  neither exists in the code.
- StringHandlingExamples.PathOfUrlWithoutScheme: the query is limited to
  one without `//`. With `//` in the query, the code skips three entries,
  as `StringHandling.EntriesBeforePath` states.
- StringHandlingExamples.DecodeSentence: it is proved for the sentence
  followed by any text that holds no `&` and does not start with an entity
  character. The
  test's sentence is the case of empty text.
- StringHandling.HttpsIdempotent: it holds only for URLs that start with
  `http` or hold no `http`. It is false in general, as
  `StringHandlingExamples.HttpsNotIdempotent` shows.

## Findings

| source | as written | input that shows it | evidently intended | confidence | as-written member | corrected member |
|---|---|---|---|---|---|---|
| src/app/string-handling.service.ts:90-95 | five global replacements in a row; the `&amp;` pass runs before the `&gt;` pass, so the `&` it produces is read again | `"&amp;gt;"`, the encoding of the text `&gt;`, decodes to `">"` instead of `"&gt;"` | each entity decoded once, so that decoding undoes encoding (`Findings.DecodeEncode`) | not executed; high (follows from the replacement order) | Findings.XmlRoundTripFails | Findings.DecodeEntities |
| src/app/string-handling.service.ts:237-241 | any URL that contains `http` and does not start with `https` has its first `http` replaced | `"ftp://a/http"` becomes `"ftp://a/https"` | a URL with another protocol is returned as is, as lines 231-232 promise | not executed; high | Findings.ForeignProtocolRewritten | Findings.HttpsVersionOfURL |
