/** Character-sequence primitives that behave like the JavaScript string
    operations the service relies on: `indexOf`/`includes`, `split` and
    `join`, `replace` with a string pattern (leftmost match only) and
    `replace` with a global literal pattern (`/pat/g`, every match).
    Strings are `seq<char>`; one `char` stands for one JavaScript code unit.
 */
module Strings {

  /** `pat` occurs in `s` starting at index `i`. */
  ghost predicate OccursAt(s: string, pat: string, i: int)
  {
    0 <= i && i + |pat| <= |s| && s[i..i + |pat|] == pat
  }

  /** `i` is the leftmost occurrence of `pat` in `s`. */
  ghost predicate FirstOccurrence(s: string, pat: string, i: int)
  {
    OccursAt(s, pat, i) && forall j :: 0 <= j < i ==> !OccursAt(s, pat, j)
  }

  /** Occurrences of `pat` in a non-empty `s` that does not start with `pat`
      are exactly the occurrences in `s[1..]`, shifted by one. */
  lemma ShiftOccurrence(s: string, pat: string)
    requires s != [] && !(pat <= s)
    ensures !OccursAt(s, pat, 0)
    ensures forall i :: OccursAt(s, pat, i) ==> OccursAt(s[1..], pat, i - 1)
    ensures forall j :: OccursAt(s[1..], pat, j) ==> OccursAt(s, pat, j + 1)
  {
    forall i | OccursAt(s, pat, i)
      ensures OccursAt(s[1..], pat, i - 1)
    {
      assert s[1..][i - 1..i - 1 + |pat|] == s[i..i + |pat|];
    }
    forall j | OccursAt(s[1..], pat, j)
      ensures OccursAt(s, pat, j + 1)
    {
      assert s[1..][j..j + |pat|] == s[j + 1..j + 1 + |pat|];
    }
  }

  /** JavaScript `s.indexOf(pat)`: the index of the leftmost occurrence,
      or -1 when there is none. */
  function IndexOf(s: string, pat: string): (r: int)
    ensures r == -1 || FirstOccurrence(s, pat, r)
    ensures r == -1 <==> forall i :: !OccursAt(s, pat, i)
  {
    if pat <= s then
      assert s[0..|pat|] == pat;
      0
    else if s == [] then
      -1
    else
      ShiftOccurrence(s, pat);
      var k := IndexOf(s[1..], pat);
      if k == -1 then -1 else k + 1
  }

  /** JavaScript `s.includes(pat)`. */
  function Contains(s: string, pat: string): (r: bool)
    ensures r <==> exists i :: OccursAt(s, pat, i)
  {
    IndexOf(s, pat) != -1
  }

  /** A prefix occurrence is an occurrence. */
  lemma PrefixIsContained(s: string, pat: string)
    requires pat <= s
    ensures Contains(s, pat)
  {
    assert OccursAt(s, pat, 0);
  }

  /** For a one-character pattern, `includes` is plain membership. */
  lemma ContainsChar(s: string, c: char)
    ensures Contains(s, [c]) <==> c in s
  {
    if c in s {
      var i :| 0 <= i < |s| && s[i] == c;
      assert OccursAt(s, [c], i);
    }
    if Contains(s, [c]) {
      var i :| OccursAt(s, [c], i);
      assert s[i] == s[i..i + 1][0];
    }
  }

  /** An occurrence of a pattern that starts with `c` puts `c` in `s`. */
  lemma ContainsHeadChar(s: string, pat: string)
    requires pat != [] && Contains(s, pat)
    ensures pat[0] in s
  {
    var i :| OccursAt(s, pat, i);
    assert s[i] == s[i..i + |pat|][0];
  }

  /** JavaScript `s.replace(pat, rep)` with a string `pat`: only the
      leftmost occurrence is replaced; without one, `s` is returned. */
  function ReplaceFirst(s: string, pat: string, rep: string): (r: string)
    ensures !Contains(s, pat) ==> r == s
    ensures Contains(s, pat) ==>
              exists i :: FirstOccurrence(s, pat, i) && r == s[..i] + rep + s[i + |pat|..]
  {
    var i := IndexOf(s, pat);
    if i == -1 then s else s[..i] + rep + s[i + |pat|..]
  }

  /** A pattern that starts the text is the one replaced. */
  lemma ReplaceFirstAtStart(s: string, pat: string, rep: string)
    requires pat <= s
    ensures ReplaceFirst(s, pat, rep) == rep + s[|pat|..]
  {
    assert OccursAt(s, pat, 0) by {
      assert s[0..|pat|] == s[..|pat|];
    }
    ReplaceFirstAt(s, pat, rep, 0);
    assert s[..0] == [];
  }

  /** The leftmost occurrence is the one replaced. */
  lemma ReplaceFirstAt(s: string, pat: string, rep: string, i: int)
    requires FirstOccurrence(s, pat, i)
    ensures ReplaceFirst(s, pat, rep) == s[..i] + rep + s[i + |pat|..]
  {
    var k := IndexOf(s, pat);
    assert k != -1;
    assert !(k < i) && !(i < k);
  }

  /** JavaScript `s.split(sep)` with a non-empty string separator: the
      pieces between non-overlapping occurrences of `sep`, scanning left to
      right. There is always at least one piece; `""` splits into `[""]`. */
  function SplitOn(s: string, sep: string): (r: seq<string>)
    requires sep != []
    ensures |r| >= 1
    ensures r[0] <= s
  {
    if sep <= s then
      [[]] + SplitOn(s[|sep|..], sep)
    else if s == [] then
      [[]]
    else
      var p := SplitOn(s[1..], sep);
      var head := [s[0]] + p[0];
      assert head <= s;
      [head] + p[1..]
  }

  /** No piece of `s.split(sep)` holds `sep`. */
  lemma {:induction false} SplitOnPiecesFree(s: string, sep: string)
    requires sep != []
    ensures forall k :: 0 <= k < |SplitOn(s, sep)| ==> !Contains(SplitOn(s, sep)[k], sep)
    decreases |s|
  {
    var r := SplitOn(s, sep);
    if sep <= s {
      SplitOnPiecesFree(s[|sep|..], sep);
      var q := SplitOn(s[|sep|..], sep);
      assert r == [[]] + q;
      assert !Contains([], sep);
      forall k | 0 <= k < |r|
        ensures !Contains(r[k], sep)
      {
        if k > 0 {
          assert r[k] == q[k - 1];
        }
      }
    } else if s == [] {
      assert !Contains([], sep);
    } else {
      SplitOnPiecesFree(s[1..], sep);
      var p := SplitOn(s[1..], sep);
      var head := [s[0]] + p[0];
      assert r == [head] + p[1..];
      forall i | OccursAt(head, sep, i)
        ensures false
      {
        OccursInHead(s, sep, p[0], i);
      }
      forall k | 0 <= k < |r|
        ensures !Contains(r[k], sep)
      {
        if k > 0 {
          assert r[k] == p[k];
        }
      }
    }
  }

  /** Where an occurrence in `[s[0]] + p0` lies, for `p0` a prefix of
      `s[1..]`: at the start of `s`, or inside `p0`. */
  lemma OccursInHead(s: string, sep: string, p0: string, i: int)
    requires s != [] && p0 <= s[1..]
    requires OccursAt([s[0]] + p0, sep, i)
    ensures i == 0 ==> sep <= s
    ensures i > 0 ==> OccursAt(p0, sep, i - 1)
  {
    var head := [s[0]] + p0;
    if i == 0 {
      assert head <= s;
      assert s[..|sep|] == head[..|sep|];
    } else {
      assert head[i..i + |sep|] == p0[i - 1..i - 1 + |sep|];
    }
  }

  /** JavaScript `parts.join(sep)`: `sep` between consecutive parts, never
      before the first or after the last; `[]` joins to `""`. */
  function Join(parts: seq<string>, sep: string): (r: string)
  {
    if |parts| == 0 then []
    else if |parts| == 1 then parts[0]
    else parts[0] + sep + Join(parts[1..], sep)
  }

  /** Sum of the lengths of `parts`. */
  function TotalLength(parts: seq<string>): nat
  {
    if parts == [] then 0 else |parts[0]| + TotalLength(parts[1..])
  }

  /** The joined string holds every part and one `sep` per gap. */
  lemma {:induction false} JoinLength(parts: seq<string>, sep: string)
    ensures |Join(parts, sep)| == if parts == [] then 0 else TotalLength(parts) + (|parts| - 1) * |sep|
  {
    if |parts| > 1 {
      JoinLength(parts[1..], sep);
    }
  }

  /** Joining onto a piece that starts with one extra character. */
  lemma JoinConsChar(c: char, p: seq<string>, sep: string)
    requires |p| >= 1
    ensures Join([[c] + p[0]] + p[1..], sep) == [c] + Join(p, sep)
  {
    var q := [[c] + p[0]] + p[1..];
    assert q[1..] == p[1..];
  }

  /** An empty first part leaves just the separator in front. */
  lemma JoinConsEmpty(p: seq<string>, sep: string)
    requires |p| >= 1
    ensures Join([[]] + p, sep) == sep + Join(p, sep)
  {
    assert ([[]] + p)[1..] == p;
  }

  /** Appending one part at the end of a non-empty list appends `sep` and
      that part to the joined string. */
  lemma {:induction false} JoinSnoc(parts: seq<string>, x: string, sep: string)
    requires |parts| >= 1
    ensures Join(parts + [x], sep) == Join(parts, sep) + sep + x
  {
    if |parts| == 1 {
      assert (parts + [x])[1..] == [x];
    } else {
      assert (parts + [x])[1..] == parts[1..] + [x];
      JoinSnoc(parts[1..], x, sep);
    }
  }

  /** Splitting on `sep` and joining with `sep` gives back the string. */
  lemma {:induction false} JoinSplitOn(s: string, sep: string)
    requires sep != []
    ensures Join(SplitOn(s, sep), sep) == s
    decreases |s|
  {
    if sep <= s {
      var p := SplitOn(s[|sep|..], sep);
      calc {
        Join(SplitOn(s, sep), sep);
        Join([[]] + p, sep);
      == { JoinConsEmpty(p, sep); }
        sep + Join(p, sep);
      == { JoinSplitOn(s[|sep|..], sep); }
        sep + s[|sep|..];
      == { assert s == sep + s[|sep|..]; }
        s;
      }
    } else if s == [] {
    } else {
      var p := SplitOn(s[1..], sep);
      calc {
        Join(SplitOn(s, sep), sep);
        Join([[s[0]] + p[0]] + p[1..], sep);
      == { JoinConsChar(s[0], p, sep); }
        [s[0]] + Join(p, sep);
      == { JoinSplitOn(s[1..], sep); }
        [s[0]] + s[1..];
      == { assert s == [s[0]] + s[1..]; }
        s;
      }
    }
  }

  /** Splitting a string that starts with a separator-free piece and a
      separator. */
  lemma {:induction false} SplitOnPieceThenSep(x: string, c: char, rest: string)
    requires c !in x
    ensures SplitOn(x + [c] + rest, [c]) == [x] + SplitOn(rest, [c])
    decreases |x|
  {
    if x == [] {
      assert ([] + [c] + rest)[1..] == rest;
    } else {
      var s := x + [c] + rest;
      assert s[0] == x[0] && s[0] != c;
      assert s[1..] == x[1..] + [c] + rest;
      SplitOnPieceThenSep(x[1..], c, rest);
      assert [x[0]] + x[1..] == x;
    }
  }

  /** A separator-free string is one piece. */
  lemma {:induction false} SplitOnNoSep(x: string, c: char)
    requires c !in x
    ensures SplitOn(x, [c]) == [x]
    decreases |x|
  {
    if x != [] {
      SplitOnNoSep(x[1..], c);
      assert [x[0]] + x[1..] == x;
    }
  }

  /** Joining separator-free parts with a one-character separator and
      splitting again gives back the parts. */
  lemma {:induction false} SplitOnJoin(parts: seq<string>, c: char)
    requires |parts| >= 1
    requires forall k :: 0 <= k < |parts| ==> c !in parts[k]
    ensures SplitOn(Join(parts, [c]), [c]) == parts
  {
    if |parts| == 1 {
      SplitOnNoSep(parts[0], c);
    } else {
      SplitOnJoin(parts[1..], c);
      SplitOnPieceThenSep(parts[0], c, Join(parts[1..], [c]));
    }
  }

  /** JavaScript `s.replace(/pat/g, rep)` for a literal, non-empty `pat`
      and a `rep` without `$` patterns: every non-overlapping occurrence,
      left to right, is replaced, and the replacement is not scanned again. */
  function ReplaceAll(s: string, pat: string, rep: string): (r: string)
    requires pat != []
    ensures !Contains(s, pat) ==> r == s
    ensures |rep| <= |pat| ==> |r| <= |s|
    decreases |s|
  {
    if pat <= s then
      rep + ReplaceAll(s[|pat|..], pat, rep)
    else if s == [] then
      []
    else
      ShiftOccurrence(s, pat);
      [s[0]] + ReplaceAll(s[1..], pat, rep)
  }

  /** Global replacement is splitting on the pattern and joining with the
      replacement, the usual JavaScript `split(pat).join(rep)` idiom. */
  lemma {:induction false} ReplaceAllIsSplitJoin(s: string, pat: string, rep: string)
    requires pat != []
    ensures ReplaceAll(s, pat, rep) == Join(SplitOn(s, pat), rep)
    decreases |s|
  {
    if pat <= s {
      var p := SplitOn(s[|pat|..], pat);
      calc {
        ReplaceAll(s, pat, rep);
        rep + ReplaceAll(s[|pat|..], pat, rep);
      == { ReplaceAllIsSplitJoin(s[|pat|..], pat, rep); }
        rep + Join(p, rep);
      == { assert ([[]] + p)[1..] == p && [] + rep == rep; }
        Join([[]] + p, rep);
      }
    } else if s == [] {
    } else {
      var p := SplitOn(s[1..], pat);
      calc {
        ReplaceAll(s, pat, rep);
        [s[0]] + ReplaceAll(s[1..], pat, rep);
      == { ReplaceAllIsSplitJoin(s[1..], pat, rep); }
        [s[0]] + Join(p, rep);
      == { JoinConsChar(s[0], p, rep); }
        Join([[s[0]] + p[0]] + p[1..], rep);
      }
    }
  }

  /** The text before the first `c` (all of `s` when there is none): the
      first piece of `s.split(c)`. */
  function BeforeFirst(s: string, c: char): (r: string)
    ensures r <= s
    ensures c !in r
    ensures |r| == |s| || s[|r|] == c
  {
    if s == [] || s[0] == c then [] else [s[0]] + BeforeFirst(s[1..], c)
  }

  /** The first piece of a split is the text before the first separator. */
  lemma {:induction false} SplitOnHead(s: string, c: char)
    ensures SplitOn(s, [c])[0] == BeforeFirst(s, c)
    decreases |s|
  {
    if s != [] && s[0] != c {
      SplitOnHead(s[1..], c);
    }
  }

  /** Number of occurrences of `c` in `s`. */
  function Count(s: string, c: char): nat
  {
    if s == [] then 0 else (if s[0] == c then 1 else 0) + Count(s[1..], c)
  }

  /** Occurrences add up over a concatenation. */
  lemma {:induction false} CountAppend(a: string, b: string, c: char)
    ensures Count(a + b, c) == Count(a, c) + Count(b, c)
    decreases |a|
  {
    if a == [] {
      assert a + b == b;
    } else {
      assert (a + b)[0] == a[0] && (a + b)[1..] == a[1..] + b;
      CountAppend(a[1..], b, c);
    }
  }

  /** `c` occurs no time exactly when it is not in `s`. */
  lemma {:induction false} CountZero(s: string, c: char)
    ensures Count(s, c) == 0 <==> c !in s
    decreases |s|
  {
    if s != [] {
      CountZero(s[1..], c);
      assert s == [s[0]] + s[1..];
    }
  }

  /** Two characters that never stand next to each other in `s` never form
      a two-character occurrence. */
  lemma NotContainsPair(s: string, c1: char, c2: char)
    requires forall i :: 0 <= i < |s| - 1 ==> s[i] != c1 || s[i + 1] != c2
    ensures !Contains(s, [c1, c2])
  {
    forall i | OccursAt(s, [c1, c2], i)
      ensures false
    {
      PairAt(s, c1, c2, i);
    }
  }

  /** The text after the `k`-th occurrence of `c`, or `""` when `s` holds
      fewer than `k` of them. */
  function AfterNth(s: string, c: char, k: nat): (r: string)
    ensures Count(s, c) < k ==> r == []
    ensures k <= Count(s, c) ==> Count(r, c) == Count(s, c) - k
    ensures 0 < k <= Count(s, c) ==> |r| < |s| && s[|s| - |r| - 1] == c
  {
    if k == 0 then s
    else if s == [] then []
    else AfterNth(s[1..], c, if s[0] == c then k - 1 else k)
  }

  /** What follows the `k`-th `c` is a suffix of the text. */
  lemma {:induction false} AfterNthIsSuffix(s: string, c: char, k: nat)
    ensures var r := AfterNth(s, c, k); |r| <= |s| && r == s[|s| - |r|..]
    decreases |s|
  {
    if k != 0 && s != [] {
      var k' := if s[0] == c then k - 1 else k;
      AfterNthIsSuffix(s[1..], c, k');
      var r := AfterNth(s[1..], c, k');
      assert s[1..][|s| - 1 - |r|..] == s[|s| - |r|..];
    }
  }

  /** An occurrence of a two-character pattern puts its characters side by
      side. */
  lemma PairAt(s: string, c1: char, c2: char, i: int)
    requires OccursAt(s, [c1, c2], i)
    ensures 0 <= i < |s| - 1 && s[i] == c1 && s[i + 1] == c2
  {
    assert s[i..i + 2][0] == s[i] && s[i..i + 2][1] == s[i + 1];
  }

  /** Nothing follows the last `c` of a text that ends with `c`. */
  lemma AfterLastOfEndingWith(a: string, c: char)
    requires a != [] && a[|a| - 1] == c
    ensures AfterNth(a, c, Count(a, c)) == []
  {
    var r := AfterNth(a, c, Count(a, c));
    CountZero(r, c);
  }

  /** JavaScript `p.splice(0, k)` seen from what is left in `p`: the first
      `k` elements are removed, or all of them when `p` is shorter. */
  function SpliceFront<T>(p: seq<T>, k: nat): (r: seq<T>)
    ensures |r| == if k < |p| then |p| - k else 0
    ensures r == p[|p| - |r|..]
  {
    if k < |p| then p[k..] else []
  }

  /** Splitting on `c`, dropping the first `k` pieces (all of them when there
      are fewer) and joining the rest with `c` gives the text after the
      `k`-th `c`. */
  lemma {:induction false} JoinDropSplit(s: string, c: char, k: nat)
    ensures Join(SpliceFront(SplitOn(s, [c]), k), [c]) == AfterNth(s, c, k)
    decreases |s|
  {
    var p := SplitOn(s, [c]);
    if k == 0 {
      assert SpliceFront(p, 0) == p;
      JoinSplitOn(s, [c]);
    } else if s == [] {
    } else {
      var k' := if s[0] == c then k - 1 else k;
      SpliceFrontSplitTail(s, c, k);
      JoinDropSplit(s[1..], c, k');
    }
  }

  /** One step of `JoinDropSplit`: dropping pieces of `s.split(c)` against
      dropping pieces of `s[1..].split(c)`. */
  lemma SpliceFrontSplitTail(s: string, c: char, k: nat)
    requires s != [] && k > 0
    ensures SpliceFront(SplitOn(s, [c]), k)
            == SpliceFront(SplitOn(s[1..], [c]), if s[0] == c then k - 1 else k)
  {
    var q := SplitOn(s[1..], [c]);
    SplitOnStep(s, c);
    if s[0] == c {
      SpliceFrontCons([], q, k);
    } else {
      SpliceFrontNewHead([s[0]] + q[0], q, k);
    }
  }

  /** The first step of splitting on one character: a leading `c` closes
      an empty piece, any other character opens the first piece. */
  lemma SplitOnStep(s: string, c: char)
    requires s != []
    ensures var q := SplitOn(s[1..], [c]);
            SplitOn(s, [c]) == if s[0] == c then [[]] + q else [[s[0]] + q[0]] + q[1..]
  {
    if s[0] == c {
      assert [c] <= s && s[|[c]|..] == s[1..];
    } else {
      assert !([c] <= s);
    }
  }

  /** Dropping `k > 0` elements of `[x] + q` drops `k - 1` of `q`. */
  lemma SpliceFrontCons<T>(x: T, q: seq<T>, k: nat)
    requires k > 0
    ensures SpliceFront([x] + q, k) == SpliceFront(q, k - 1)
  {
    if k < |[x] + q| {
      assert ([x] + q)[k..] == q[k - 1..];
    }
  }

  /** Dropping `k > 0` elements does not see what the head was. */
  lemma SpliceFrontNewHead<T>(x: T, q: seq<T>, k: nat)
    requires k > 0 && q != []
    ensures SpliceFront([x] + q[1..], k) == SpliceFront(q, k)
  {
    if k < |q| {
      assert ([x] + q[1..])[k..] == q[k..];
    }
  }

  /** Global replacement works piecewise when no occurrence can straddle
      the cut, which holds when `b` starts with a character outside `pat`. */
  lemma {:induction false} ReplaceAllAppend(a: string, b: string, pat: string, rep: string)
    requires pat != []
    requires b == [] || b[0] !in pat
    ensures ReplaceAll(a + b, pat, rep) == ReplaceAll(a, pat, rep) + ReplaceAll(b, pat, rep)
    decreases |a|
  {
    if a == [] {
      assert a + b == b;
    } else if pat <= a + b {
      OccursAtAppend(a, b, pat, 0);
      var a' := a[|pat|..];
      calc {
        ReplaceAll(a + b, pat, rep);
      == { ReplaceAllAppendMatch(a, b, pat, rep); }
        rep + ReplaceAll(a' + b, pat, rep);
      == { ReplaceAllAppend(a', b, pat, rep); }
        rep + (ReplaceAll(a', pat, rep) + ReplaceAll(b, pat, rep));
      == { Assoc(rep, ReplaceAll(a', pat, rep), ReplaceAll(b, pat, rep)); }
        (rep + ReplaceAll(a', pat, rep)) + ReplaceAll(b, pat, rep);
      == { ReplaceAllAppendMatch(a, b, pat, rep); }
        ReplaceAll(a, pat, rep) + ReplaceAll(b, pat, rep);
      }
    } else {
      var a' := a[1..];
      calc {
        ReplaceAll(a + b, pat, rep);
      == { ReplaceAllAppendSkip(a, b, pat, rep); }
        [a[0]] + ReplaceAll(a' + b, pat, rep);
      == { ReplaceAllAppend(a', b, pat, rep); }
        [a[0]] + (ReplaceAll(a', pat, rep) + ReplaceAll(b, pat, rep));
      == { Assoc([a[0]], ReplaceAll(a', pat, rep), ReplaceAll(b, pat, rep)); }
        ([a[0]] + ReplaceAll(a', pat, rep)) + ReplaceAll(b, pat, rep);
      == { ReplaceAllAppendSkip(a, b, pat, rep); }
        ReplaceAll(a, pat, rep) + ReplaceAll(b, pat, rep);
      }
    }
  }

  /** Concatenation is associative. */
  lemma Assoc<T>(x: seq<T>, y: seq<T>, z: seq<T>)
    ensures x + (y + z) == (x + y) + z
  {
  }

  /** One step of `ReplaceAllAppend` where `a + b` starts with `pat`. */
  lemma ReplaceAllAppendMatch(a: string, b: string, pat: string, rep: string)
    requires pat != [] && |pat| <= |a| && pat <= a + b
    ensures ReplaceAll(a + b, pat, rep) == rep + ReplaceAll(a[|pat|..] + b, pat, rep)
    ensures ReplaceAll(a, pat, rep) == rep + ReplaceAll(a[|pat|..], pat, rep)
  {
    assert a[..|pat|] == (a + b)[..|pat|];
    assert pat <= a;
    assert (a + b)[|pat|..] == a[|pat|..] + b;
  }

  /** One step of `ReplaceAllAppend` where `a + b` does not start with
      `pat`. */
  lemma ReplaceAllAppendSkip(a: string, b: string, pat: string, rep: string)
    requires pat != [] && a != [] && !(pat <= a + b)
    ensures ReplaceAll(a + b, pat, rep) == [a[0]] + ReplaceAll(a[1..] + b, pat, rep)
    ensures ReplaceAll(a, pat, rep) == [a[0]] + ReplaceAll(a[1..], pat, rep)
  {
    assert !(pat <= a);
    assert (a + b)[0] == a[0] && (a + b)[1..] == a[1..] + b;
  }

  /** A string that starts with a character outside `pat` keeps that first
      character under global replacement. */
  lemma ReplaceAllHead(b: string, pat: string, rep: string)
    requires pat != [] && b != [] && b[0] !in pat
    ensures ReplaceAll(b, pat, rep) != [] && ReplaceAll(b, pat, rep)[0] == b[0]
  {
    assert !(pat <= b);
  }

  /** A prefix that does not hold the first character of `pat` is copied
      unchanged by the replacement. */
  lemma {:induction false} ReplaceAllSkipPrefix(x: string, rest: string, pat: string, rep: string)
    requires pat != [] && pat[0] !in x
    ensures ReplaceAll(x + rest, pat, rep) == x + ReplaceAll(rest, pat, rep)
    decreases |x|
  {
    if x == [] {
      assert x + rest == rest;
    } else {
      var tail := ReplaceAll(rest, pat, rep);
      calc {
        ReplaceAll(x + rest, pat, rep);
      == { assert (x + rest)[0] == x[0] != pat[0];
           ReplaceAllAppendSkip(x, rest, pat, rep); }
        [x[0]] + ReplaceAll(x[1..] + rest, pat, rep);
      == { ReplaceAllSkipPrefix(x[1..], rest, pat, rep); }
        [x[0]] + (x[1..] + tail);
      == { assert x == [x[0]] + x[1..]; }
        x + tail;
      }
    }
  }

  /** An occurrence at the start is replaced and scanning goes on after it. */
  lemma ReplaceAllAtStart(pat: string, y: string, rep: string)
    requires pat != []
    ensures ReplaceAll(pat + y, pat, rep) == rep + ReplaceAll(y, pat, rep)
  {
    assert pat <= pat + y && (pat + y)[|pat|..] == y;
  }

  /** No occurrence in either part and none across the cut means none in
      the whole; `b` starting outside `pat` rules out the cut. */
  lemma NotContainsAppend(a: string, b: string, pat: string)
    requires !Contains(a, pat) && !Contains(b, pat)
    requires b == [] || b[0] !in pat
    ensures !Contains(a + b, pat)
  {
    forall i | OccursAt(a + b, pat, i)
      ensures false
    {
      OccursAtAppend(a, b, pat, i);
    }
  }

  /** Where an occurrence in `a + b` lies: inside `a`, inside `b`, or across
      the cut, in which case it holds the first character of `b`. */
  lemma OccursAtAppend(a: string, b: string, pat: string, i: int)
    requires OccursAt(a + b, pat, i)
    ensures i + |pat| <= |a| ==> OccursAt(a, pat, i)
    ensures i >= |a| ==> OccursAt(b, pat, i - |a|)
    ensures i < |a| < i + |pat| ==> b != [] && b[0] == pat[|a| - i]
  {
    if i + |pat| <= |a| {
      assert (a + b)[i..i + |pat|] == a[i..i + |pat|];
    }
    if i >= |a| {
      assert (a + b)[i..i + |pat|] == b[i - |a|..i - |a| + |pat|];
    }
    if i < |a| < i + |pat| {
      assert (a + b)[|a|] == (a + b)[i..i + |pat|][|a| - i];
    }
  }

  /** The text after the `k`-th `c` of `a + b` is found in `a` when `a` holds
      at least `k` of them, and otherwise in `b`. */
  lemma {:induction false} AfterNthAppend(a: string, b: string, c: char, k: nat)
    ensures AfterNth(a + b, c, k)
            == if k <= Count(a, c) then AfterNth(a, c, k) + b else AfterNth(b, c, k - Count(a, c))
    decreases |a|
  {
    if a == [] {
      assert a + b == b;
    } else if k == 0 {
    } else {
      var k' := if a[0] == c then k - 1 else k;
      calc {
        AfterNth(a + b, c, k);
      == { assert (a + b)[0] == a[0] && (a + b)[1..] == a[1..] + b;
           AfterNthCons(a + b, c, k); }
        AfterNth(a[1..] + b, c, k');
      == { AfterNthAppend(a[1..], b, c, k'); }
        if k' <= Count(a[1..], c) then AfterNth(a[1..], c, k') + b
        else AfterNth(b, c, k' - Count(a[1..], c));
      == { AfterNthCons(a, c, k);
           var n, n' := Count(a, c), Count(a[1..], c);
           assert (k' <= n') == (k <= n) && k' - n' == k - n; }
        if k <= Count(a, c) then AfterNth(a, c, k) + b else AfterNth(b, c, k - Count(a, c));
      }
    }
  }

  /** One step of `AfterNth` and of `Count` on a non-empty text. */
  lemma AfterNthCons(a: string, c: char, k: nat)
    requires a != [] && k > 0
    ensures AfterNth(a, c, k) == AfterNth(a[1..], c, if a[0] == c then k - 1 else k)
    ensures Count(a, c) == Count(a[1..], c) + (if a[0] == c then 1 else 0)
  {
  }

  /** The text before the first `c` of `a + b`, when `a` holds no `c`. */
  lemma {:induction false} BeforeFirstAppend(a: string, b: string, c: char)
    requires c !in a
    ensures BeforeFirst(a + b, c) == a + BeforeFirst(b, c)
    decreases |a|
  {
    if a == [] {
      assert a + b == b;
    } else {
      assert (a + b)[0] == a[0] && (a + b)[1..] == a[1..] + b;
      BeforeFirstAppend(a[1..], b, c);
    }
  }
}
