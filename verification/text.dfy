/**
 * The Rust `str` operations the compiler relies on, stated over `seq<char>`.
 * Characters are Unicode scalar values; byte-index slicing is modelled as
 * character slicing (ASCII input).
 */
module Text {
  import opened Wrappers

  /** `char::is_whitespace`: the Unicode White_Space property. */
  predicate IsWhitespace(c: char) {
    || c == ' '
    || ('\t' <= c <= '\r')
    || c == '\U{85}' || c == '\U{A0}' || c == '\U{1680}'
    || ('\U{2000}' <= c <= '\U{200A}')
    || c == '\U{2028}' || c == '\U{2029}' || c == '\U{202F}' || c == '\U{205F}' || c == '\U{3000}'
  }

  predicate AllWhitespace(s: string) {
    forall i :: 0 <= i < |s| ==> IsWhitespace(s[i])
  }

  predicate NoWhitespace(s: string) {
    forall i :: 0 <= i < |s| ==> !IsWhitespace(s[i])
  }

  /** Neither the first nor the last character is white space. */
  predicate Trimmed(s: string) {
    s == [] || (!IsWhitespace(s[0]) && !IsWhitespace(s[|s| - 1]))
  }

  predicate StartsWith(s: string, prefix: string) {
    |prefix| <= |s| && s[..|prefix|] == prefix
  }

  predicate EndsWith(s: string, suffix: string) {
    |suffix| <= |s| && s[|s| - |suffix|..] == suffix
  }

  /** `pat` occurs somewhere in `s`. */
  ghost predicate Contains(s: string, pat: string) {
    exists i :: OccursAt(s, pat, i)
  }

  /** `pat` occurs in `s` starting at index `i`. */
  predicate OccursAt(s: string, pat: string, i: int) {
    0 <= i && i + |pat| <= |s| && s[i..i + |pat|] == pat
  }

  /** `str::trim_start`. */
  function TrimStart(s: string): (r: string)
    ensures |r| <= |s| && r == s[|s| - |r|..]
    ensures r == [] || !IsWhitespace(r[0])
    ensures AllWhitespace(s[..|s| - |r|])
    decreases |s|
  {
    if s == [] || !IsWhitespace(s[0]) then s
    else
      var r := TrimStart(s[1..]);
      WhitespaceFront(s, r);
      r
  }

  /** A white-space character in front of a white-space prefix extends it. */
  lemma WhitespaceFront(s: string, r: string)
    requires s != [] && IsWhitespace(s[0])
    requires |r| <= |s| - 1 && r == s[1..][|s| - 1 - |r|..] && AllWhitespace(s[1..][..|s| - 1 - |r|])
    ensures r == s[|s| - |r|..] && AllWhitespace(s[..|s| - |r|])
  {
    var k := |s| - |r|;
    forall i | 0 <= i < k ensures IsWhitespace(s[..k][i]) {
      if i > 0 { assert s[..k][i] == s[1..][..k - 1][i - 1]; }
    }
  }

  /** `str::trim_end`. */
  function TrimEnd(s: string): (r: string)
    ensures |r| <= |s| && r == s[..|r|]
    ensures r == [] || !IsWhitespace(r[|r| - 1])
    ensures AllWhitespace(s[|r|..])
    decreases |s|
  {
    if s == [] || !IsWhitespace(s[|s| - 1]) then s
    else
      var r := TrimEnd(s[..|s| - 1]);
      assert s[|r|..] == s[..|s| - 1][|r|..] + [s[|s| - 1]];
      r
  }

  /** `str::trim`: white space removed from both ends. */
  function Trim(s: string): (r: string)
    ensures Trimmed(r) && |r| <= |s|
    decreases |s|
  {
    if s != [] && IsWhitespace(s[0]) then Trim(s[1..]) else TrimEnd(s)
  }

  /** Trimming is trimming the front, then the back. */
  lemma {:induction false} TrimSplits(s: string)
    ensures Trim(s) == TrimEnd(TrimStart(s))
    decreases |s|
  {
    if s != [] && IsWhitespace(s[0]) {
      TrimSplits(s[1..]);
    }
  }

  /** `Trim(s)` is the infix of `s` left after removing white space at both ends. */
  lemma TrimIsInfix(s: string)
    ensures exists k :: TrimmedAt(s, Trim(s), k)
  {
    TrimSplits(s);
    TrimWitness(s, TrimStart(s), Trim(s));
  }

  /** `r` sits at index `k` of `s` with only white space around it. */
  ghost predicate TrimmedAt(s: string, r: string, k: int) {
    0 <= k && k + |r| <= |s| && r == s[k..k + |r|]
    && AllWhitespace(s[..k]) && AllWhitespace(s[k + |r|..])
  }

  lemma TrimWitness(s: string, t: string, r: string)
    requires t == TrimStart(s) && r == TrimEnd(t)
    ensures TrimmedAt(s, r, |s| - |t|)
  {
    TrimmedAtSlices(s, |s| - |t|, t, r);
  }

  /** White space stripped from the front of `s`, then from the back of the rest. */
  lemma TrimmedAtSlices(s: string, k: nat, t: string, r: string)
    requires k <= |s| && t == s[k..] && AllWhitespace(s[..k])
    requires |r| <= |t| && r == t[..|r|] && AllWhitespace(t[|r|..])
    ensures TrimmedAt(s, r, k)
  {
    assert s[k + |r|..] == t[|r|..];
  }

  lemma TrimOfTrimmed(s: string)
    requires Trimmed(s)
    ensures Trim(s) == s
  {
  }

  lemma TrimIdempotent(s: string)
    ensures Trim(Trim(s)) == Trim(s)
  {
    TrimOfTrimmed(Trim(s));
  }

  /** `str::trim_start_matches(c)`: every leading `c` removed. */
  function TrimStartMatches(s: string, c: char): (r: string)
    ensures |r| <= |s| && r == s[|s| - |r|..]
    ensures r == [] || r[0] != c
    ensures forall i :: 0 <= i < |s| - |r| ==> s[i] == c
    decreases |s|
  {
    if s != [] && s[0] == c then
      var r := TrimStartMatches(s[1..], c);
      assert forall i :: 1 <= i < |s| - |r| ==> s[i] == s[1..][i - 1];
      r
    else s
  }

  /** `str::trim_end_matches(|ch| ch in cs)`. */
  function TrimEndChars(s: string, cs: set<char>): (r: string)
    ensures |r| <= |s| && r == s[..|r|]
    ensures r == [] || r[|r| - 1] !in cs
    ensures forall i :: |r| <= i < |s| ==> s[i] in cs
    decreases |s|
  {
    if s != [] && s[|s| - 1] in cs then
      var r := TrimEndChars(s[..|s| - 1], cs);
      assert forall i :: |r| <= i < |s| - 1 ==> s[i] == s[..|s| - 1][i];
      r
    else s
  }

  /** `str::trim_end_matches(pat)` for a string pattern: repeated suffixes removed. */
  function TrimEndMatches(s: string, pat: string): (r: string)
    ensures |r| <= |s| && r == s[..|r|]
    ensures |pat| > 0 ==> !EndsWith(r, pat)
    decreases |s|
  {
    if |pat| > 0 && EndsWith(s, pat) then TrimEndMatches(s[..|s| - |pat|], pat) else s
  }

  /** `str::split_once(c)`: the text around the first `c`. */
  function SplitOnce(s: string, c: char): (r: Option<(string, string)>)
    ensures r.None? <==> c !in s
    ensures r.Some? ==> s == r.value.0 + [c] + r.value.1 && c !in r.value.0
  {
    if c !in s then None
    else if s[0] == c then Some(([], s[1..]))
    else
      var rest := SplitOnce(s[1..], c);
      assert s == [s[0]] + s[1..];
      Some(([s[0]] + rest.value.0, rest.value.1))
  }

  /** The longest prefix of `s` without white space. */
  function Word(s: string): (r: string)
    ensures |r| <= |s| && r == s[..|r|] && NoWhitespace(r)
    ensures |r| == |s| || IsWhitespace(s[|r|])
  {
    if s == [] || IsWhitespace(s[0]) then []
    else
      var w := Word(s[1..]);
      assert s[..1 + |w|] == [s[0]] + s[1..][..|w|];
      [s[0]] + w
  }

  /** `str::split_whitespace`: the maximal runs of non-white-space characters. */
  function SplitWhitespace(s: string): (r: seq<string>)
    ensures forall i :: 0 <= i < |r| ==> |r[i]| > 0 && NoWhitespace(r[i])
    ensures forall i, c :: 0 <= i < |r| && c in r[i] ==> c in s
    decreases |s|
  {
    if s == [] then []
    else if IsWhitespace(s[0]) then
      var r := SplitWhitespace(s[1..]);
      assert forall c :: c in s[1..] ==> c in s;
      r
    else
      var w := Word(s);
      assert |w| > 0;
      var rest := SplitWhitespace(s[|w|..]);
      assert forall c :: c in s[|w|..] ==> c in s;
      assert forall c :: c in w ==> c in s;
      [w] + rest
  }

  /** `[String]::join(sep)`. */
  function Join(parts: seq<string>, sep: string): string {
    if |parts| == 0 then []
    else if |parts| == 1 then parts[0]
    else parts[0] + sep + Join(parts[1..], sep)
  }

  /** The concatenation of all parts. */
  function Concat(parts: seq<string>): string {
    if parts == [] then [] else parts[0] + Concat(parts[1..])
  }

  lemma {:induction false} ConcatAppend(a: seq<string>, b: seq<string>)
    ensures Concat(a + b) == Concat(a) + Concat(b)
  {
    if a != [] {
      assert (a + b)[1..] == a[1..] + b;
      ConcatAppend(a[1..], b);
    } else {
      assert a + b == b;
    }
  }

  /** Every line with `p` in front of it. */
  function Prefixed(p: string, ls: seq<string>): (r: seq<string>)
    ensures |r| == |ls| && forall i {:trigger r[i]} :: 0 <= i < |ls| ==> r[i] == p + ls[i]
  {
    if ls == [] then [] else [p + ls[0]] + Prefixed(p, ls[1..])
  }

  /** `str::split(sep)` for a non-empty separator: left to right, non-overlapping. */
  function SplitOn(s: string, sep: string): (r: seq<string>)
    requires |sep| > 0
    ensures |r| >= 1
    decreases |s|
  {
    if |s| < |sep| then [s]
    else if s[..|sep|] == sep then [[]] + SplitOn(s[|sep|..], sep)
    else
      var rest := SplitOn(s[1..], sep);
      [[s[0]] + rest[0]] + rest[1..]
  }

  /** Extending the first part extends the joined text at the front. */
  lemma JoinExtendFirst(c: string, parts: seq<string>, sep: string)
    requires |parts| >= 1
    ensures Join([c + parts[0]] + parts[1..], sep) == c + Join(parts, sep)
  {
    var ps := [c + parts[0]] + parts[1..];
    assert ps[1..] == parts[1..];
    if |parts| > 1 {
      assert Join(ps, sep) == (c + parts[0]) + sep + Join(parts[1..], sep);
    }
  }

  /** Splitting on a separator and joining with it again gives the input back. */
  lemma {:induction false} JoinSplitOn(s: string, sep: string)
    requires |sep| > 0
    ensures Join(SplitOn(s, sep), sep) == s
    decreases |s|
  {
    if |s| < |sep| {
    } else if s[..|sep|] == sep {
      var rest := SplitOn(s[|sep|..], sep);
      JoinSplitOn(s[|sep|..], sep);
      assert SplitOn(s, sep) == [[]] + rest;
      assert ([[]] + rest)[1..] == rest;
      assert s == sep + s[|sep|..];
    } else {
      var rest := SplitOn(s[1..], sep);
      JoinSplitOn(s[1..], sep);
      assert SplitOn(s, sep) == [[s[0]] + rest[0]] + rest[1..];
      JoinExtendFirst([s[0]], rest, sep);
      assert s == [s[0]] + s[1..];
    }
  }

  /** Prepending text free of `sep[0]` only extends the first piece of a split. */
  lemma {:induction false} SplitOnPrefix(a: string, t: string, sep: string)
    requires |sep| > 0 && sep[0] !in a
    ensures SplitOn(a + t, sep) == [a + SplitOn(t, sep)[0]] + SplitOn(t, sep)[1..]
    decreases |a|
  {
    if a == [] {
      var S := SplitOn(t, sep);
      assert a + t == t && a + S[0] == S[0];
      assert S == [S[0]] + S[1..];
    } else {
      var u := a + t;
      var S := SplitOn(t, sep);
      SplitOnPrefix(a[1..], t, sep);
      assert u[0] == a[0] && u[1..] == a[1..] + t;
      SplitOnFront(u, sep);
      assert [a[0]] + (a[1..] + S[0]) == a + S[0];
    }
  }

  /** A first character other than `sep[0]` joins the first piece of the rest. */
  lemma SplitOnFront(u: string, sep: string)
    requires |sep| > 0 && u != [] && u[0] != sep[0]
    ensures SplitOn(u, sep) == [[u[0]] + SplitOn(u[1..], sep)[0]] + SplitOn(u[1..], sep)[1..]
  {
    if |u| < |sep| {
      assert [u[0]] + u[1..] == u;
    } else {
      assert u[..|sep|][0] == u[0];
    }
  }

  /** Joining pieces free of `sep[0]` and splitting again gives the pieces back. */
  lemma {:induction false} SplitOnJoin(parts: seq<string>, sep: string)
    requires |sep| > 0 && |parts| >= 1
    requires forall i :: 0 <= i < |parts| ==> sep[0] !in parts[i]
    ensures SplitOn(Join(parts, sep), sep) == parts
    decreases |parts|
  {
    if |parts| == 1 {
      SplitOnPrefix(parts[0], [], sep);
      assert parts[0] + [] == parts[0];
      assert SplitOn([], sep) == [[]];
    } else {
      var rest := Join(parts[1..], sep);
      SplitOnJoin(parts[1..], sep);
      var u := sep + rest;
      assert u[..|sep|] == sep;
      assert u[|sep|..] == rest;
      assert SplitOn(u, sep) == [[]] + parts[1..];
      SplitOnPrefix(parts[0], u, sep);
      assert Join(parts, sep) == parts[0] + sep + rest;
      assert parts[0] + sep + rest == parts[0] + u;
      var e: string := [];
      var S := [e] + parts[1..];
      assert S[0] == e && S[1..] == parts[1..];
      assert parts[0] + e == parts[0];
      assert parts == [parts[0]] + parts[1..];
    }
  }

  /**
   * `str::replace(pat, rep)`: every non-overlapping occurrence of `pat`,
   * scanning left to right, becomes `rep`; an empty pattern matches before
   * every character and at the end.
   */
  function ReplaceAll(s: string, pat: string, rep: string): string
    decreases |s|
  {
    if |pat| == 0 then (if s == [] then rep else rep + [s[0]] + ReplaceAll(s[1..], pat, rep))
    else if |s| < |pat| then s
    else if s[..|pat|] == pat then rep + ReplaceAll(s[|pat|..], pat, rep)
    else [s[0]] + ReplaceAll(s[1..], pat, rep)
  }

  /** Text without any occurrence of the pattern is left unchanged. */
  lemma {:induction false} ReplaceAbsent(s: string, pat: string, rep: string)
    requires |pat| > 0
    ensures !Contains(s, pat) ==> ReplaceAll(s, pat, rep) == s
    decreases |s|
  {
    if |s| < |pat| {
    } else if s[..|pat|] == pat {
      assert OccursAt(s, pat, 0);
    } else {
      ReplaceAbsent(s[1..], pat, rep);
      forall i | OccursAt(s[1..], pat, i) ensures OccursAt(s, pat, i + 1) {
        assert s[i + 1..i + 1 + |pat|] == s[1..][i..i + |pat|];
      }
    }
  }

  /** Replacing a pattern by itself is the identity. */
  lemma {:induction false} ReplaceBySelf(s: string, pat: string)
    requires |pat| > 0
    ensures ReplaceAll(s, pat, pat) == s
    decreases |s|
  {
    if |s| < |pat| {
    } else if s[..|pat|] == pat {
      ReplaceBySelf(s[|pat|..], pat);
      assert s == s[..|pat|] + s[|pat|..];
    } else {
      ReplaceBySelf(s[1..], pat);
      assert s == [s[0]] + s[1..];
    }
  }

  /** An occurrence at the very start is replaced even when more text follows it. */
  lemma ReplaceAtStart(pat: string, t: string, rep: string)
    requires |pat| > 0
    ensures ReplaceAll(pat + t, pat, rep) == rep + ReplaceAll(t, pat, rep)
  {
    assert (pat + t)[..|pat|] == pat;
    assert (pat + t)[|pat|..] == t;
  }

  /** Text free of the pattern's first character is copied up to the first occurrence. */
  lemma {:induction false} ReplaceAfterPrefix(a: string, pat: string, t: string, rep: string)
    requires |pat| > 0 && pat[0] !in a
    ensures ReplaceAll(a + pat + t, pat, rep) == a + rep + ReplaceAll(t, pat, rep)
    decreases |a|
  {
    if a == [] {
      assert a + pat + t == pat + t;
      ReplaceAtStart(pat, t, rep);
    } else {
      var s := a + pat + t;
      var s' := a[1..] + pat + t;
      assert a[0] in a;
      assert s[..|pat|][0] == a[0] != pat[0];
      assert s[1..] == s' && s[0] == a[0];
      ReplaceStep(s, pat, rep);
      ReplaceAfterPrefix(a[1..], pat, t, rep);
      ConsThree(a, rep, ReplaceAll(t, pat, rep));
    }
  }

  /** Putting back the first character of `a` in front of `a[1..] + y + z`. */
  lemma ConsThree(a: string, y: string, z: string)
    requires a != []
    ensures [a[0]] + (a[1..] + y + z) == a + y + z
  {
    assert a == [a[0]] + a[1..];
  }

  /** Where the pattern does not start, one character is copied through. */
  lemma ReplaceStep(s: string, pat: string, rep: string)
    requires |pat| > 0 && |s| >= |pat| && s[..|pat|] != pat
    ensures ReplaceAll(s, pat, rep) == [s[0]] + ReplaceAll(s[1..], pat, rep)
  {
  }

  /** One line of `str::lines`: a `\r` right before the `\n` is dropped. */
  function StripCR(line: string): string {
    if line != [] && line[|line| - 1] == '\r' then line[..|line| - 1] else line
  }

  /**
   * `str::lines`: split at `\n` (and `\r\n`); a final line ending does not
   * start an empty line, and the empty string has no lines.
   */
  function Lines(s: string): (r: seq<string>)
    ensures forall i :: 0 <= i < |r| ==> '\n' !in r[i]
    decreases |s|
  {
    if s == [] then []
    else match SplitOnce(s, '\n')
      case None => [s]
      case Some((line, rest)) => [StripCR(line)] + Lines(rest)
  }

  /** The first `c` of `x + [c] + y` is the one after `x` when `x` has none. */
  lemma SplitOnceAt(x: string, c: char, y: string)
    requires c !in x
    ensures SplitOnce(x + [c] + y, c) == Some((x, y))
  {
    var s := x + [c] + y;
    assert s[|x|] == c;
    var r := SplitOnce(s, c);
    var a, b := r.value.0, r.value.1;
    assert s == a + [c] + b;
    assert forall k :: 0 <= k < |a| ==> a[k] == s[k];
    assert forall k :: 0 <= k < |x| ==> x[k] == s[k];
    assert s[|a|] == c;
    assert |a| == |x|;
    assert a == s[..|x|] == x;
    assert b == s[|x| + 1..] == y;
  }

  /** Each line followed by `\n`, all run together. */
  function Unlines(ls: seq<string>): string {
    if ls == [] then [] else ls[0] + "\n" + Unlines(ls[1..])
  }

  lemma {:induction false} UnlinesAppend(a: seq<string>, b: seq<string>)
    ensures Unlines(a + b) == Unlines(a) + Unlines(b)
  {
    if a == [] {
      assert a + b == b;
    } else {
      assert (a + b)[1..] == a[1..] + b;
      UnlinesAppend(a[1..], b);
    }
  }

  /** A line that `Lines` gives back unchanged: no `\n`, and no `\r` at its end. */
  predicate PlainLine(l: string) {
    '\n' !in l && (l == [] || l[|l| - 1] != '\r')
  }

  /** Lines each terminated by `\n` are recovered by `Lines`. */
  lemma {:induction false} LinesOfUnlines(ls: seq<string>)
    requires forall i :: 0 <= i < |ls| ==> PlainLine(ls[i])
    ensures Lines(Unlines(ls)) == ls
    decreases |ls|
  {
    if ls != [] {
      LinesOfUnlines(ls[1..]);
      SplitOnceAt(ls[0], '\n', Unlines(ls[1..]));
      assert ls[0] + "\n" + Unlines(ls[1..]) == ls[0] + ['\n'] + Unlines(ls[1..]);
    }
  }

  /** A plain line followed by `\n` is the first line of what follows. */
  lemma LinesAfterLine(l: string, rest: string)
    requires PlainLine(l)
    ensures Lines(l + "\n" + rest) == [l] + Lines(rest)
  {
    var s := l + ['\n'] + rest;
    assert l + "\n" + rest == s;
    SplitOnceAt(l, '\n', rest);
    assert Lines(s) == [StripCR(l)] + Lines(rest);
  }

  /** Lines each terminated by `\n`, then any text, are recovered by `Lines` followed by that text's lines. */
  lemma {:induction false} LinesOfUnlinesThen(ls: seq<string>, tail: string)
    requires forall i :: 0 <= i < |ls| ==> PlainLine(ls[i])
    ensures Lines(Unlines(ls) + tail) == ls + Lines(tail)
    decreases |ls|
  {
    if ls == [] {
      assert Unlines(ls) + tail == tail;
    } else {
      LinesOfUnlinesThen(ls[1..], tail);
      assert ls == [ls[0]] + ls[1..];
      LinesOfConsThen(ls[0], ls[1..], tail);
    }
  }

  lemma LinesOfConsThen(l: string, ls: seq<string>, tail: string)
    requires PlainLine(l)
    requires Lines(Unlines(ls) + tail) == ls + Lines(tail)
    ensures Lines(Unlines([l] + ls) + tail) == [l] + ls + Lines(tail)
  {
    var u := Unlines(ls);
    var s := Unlines([l] + ls) + tail;
    UnlinesCons(l, ls);
    UnlinesConsThen(l, u, tail);
    assert s == l + "\n" + (u + tail);
    LinesAfterLine(l, u + tail);
    ConsAppend(l, ls, Lines(tail));
  }

  lemma ConsAppend(l: string, ls: seq<string>, t: seq<string>)
    ensures [l] + (ls + t) == [l] + ls + t
  {
  }

  lemma UnlinesConsThen(l: string, u: string, tail: string)
    ensures (l + "\n" + u) + tail == l + "\n" + (u + tail)
  {
  }

  lemma UnlinesCons(l: string, ls: seq<string>)
    ensures Unlines([l] + ls) == l + "\n" + Unlines(ls)
  {
    assert ([l] + ls)[1..] == ls;
  }
}
