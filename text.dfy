/** String helpers shared by the tokenizer, the index builder and the prompt
    assembly: whitespace, stripping, line splitting, `str.split("##")` and
    `str.join`.  Strings are sequences of Unicode code points. */
module Text {

  datatype Result<T, E> = Success(value: T) | Failure(error: E)

  datatype Option<T> = None | Some(value: T)

  /** The characters Python's `str.isspace` (and the regex class `\s`) accept. */
  predicate IsSpace(c: char) {
    || ('\t' <= c <= '\r')
    || ('\U{1C}' <= c <= ' ')
    || c == '\U{85}' || c == '\U{A0}' || c == '\U{1680}'
    || ('\U{2000}' <= c <= '\U{200A}')
    || c == '\U{2028}' || c == '\U{2029}' || c == '\U{202F}' || c == '\U{205F}' || c == '\U{3000}'
  }

  /** The line boundaries `str.splitlines` splits on; every one of them is whitespace. */
  predicate IsLineBreak(c: char) {
    || ('\n' <= c <= '\r')
    || ('\U{1C}' <= c <= '\U{1E}')
    || c == '\U{85}' || c == '\U{2028}' || c == '\U{2029}'
  }

  predicate AllSpace(s: string) {
    forall k :: 0 <= k < |s| ==> IsSpace(s[k])
  }

  predicate NoLineBreak(s: string) {
    forall k :: 0 <= k < |s| ==> !IsLineBreak(s[k])
  }

  predicate All(s: string, p: char -> bool) {
    forall k :: 0 <= k < |s| ==> p(s[k])
  }

  /** Length of the longest prefix of `s` whose characters all satisfy `p`. */
  function Run(s: string, p: char -> bool): (n: nat)
    ensures n <= |s|
    decreases |s|
  {
    if s != [] && p(s[0]) then 1 + Run(s[1..], p) else 0
  }

  /** A run is made of `p` characters and stops at the first other one. */
  lemma {:induction false} RunMaximal(s: string, p: char -> bool)
    ensures var n := Run(s, p); All(s[..n], p) && (n == |s| || !p(s[n]))
    decreases |s|
  {
    if s != [] && p(s[0]) {
      RunMaximal(s[1..], p);
      var n := Run(s, p);
      assert forall k :: 1 <= k < n ==> s[..n][k] == s[1..][..n - 1][k - 1];
    }
  }

  /** A string made only of `p` characters is one whole run. */
  lemma {:induction false} RunAll(s: string, p: char -> bool)
    requires All(s, p)
    ensures Run(s, p) == |s|
    decreases |s|
  {
    if s != [] {
      assert All(s[1..], p) by {
        forall k | 0 <= k < |s[1..]| ensures p(s[1..][k]) { assert s[1..][k] == s[k + 1]; }
      }
      RunAll(s[1..], p);
    }
  }

  /** A run stops where the first character outside `p` follows it, so the
      run of `x + y` and what follows it are those of `x`. */
  lemma {:induction false} RunAppend(x: string, y: string, p: char -> bool)
    requires y == [] || !p(y[0])
    ensures var n := Run(x, p);
      Run(x + y, p) == n && (x + y)[..n] == x[..n] && (x + y)[n..] == x[n..] + y
    decreases |x|
  {
    var n := Run(x, p);
    assert (x + y)[..n] == x[..n];
    assert (x + y)[n..] == x[n..] + y;
    if x == [] {
    } else {
      assert (x + y)[0] == x[0];
      assert (x + y)[1..] == x[1..] + y;
      if p(x[0]) {
        RunAppend(x[1..], y, p);
      }
    }
  }

  /** `s.lstrip()`: what remains does not begin with whitespace. */
  function TrimStart(s: string): (r: string)
    ensures |r| <= |s|
    ensures r == [] || !IsSpace(r[0])
    decreases |s|
  {
    if s != [] && IsSpace(s[0]) then TrimStart(s[1..]) else s
  }

  /** What `lstrip` keeps is a suffix of `s`, and the part cut off is whitespace. */
  lemma {:induction false} TrimStartSuffix(s: string)
    ensures var r := TrimStart(s);
      r == s[|s| - |r|..] && AllSpace(s[..|s| - |r|])
    decreases |s|
  {
    if s != [] && IsSpace(s[0]) {
      TrimStartSuffix(s[1..]);
      var r := TrimStart(s);
      assert s[|s| - |r|..] == s[1..][|s| - 1 - |r|..];
      assert forall k :: 1 <= k < |s| - |r| ==> s[k] == s[1..][k - 1];
    }
  }

  /** `s.rstrip()`: what remains is a prefix of `s` and does not end with whitespace. */
  function TrimEnd(s: string): (r: string)
    ensures |r| <= |s| && r == s[..|r|]
    ensures r == [] || !IsSpace(r[|r| - 1])
    decreases |s|
  {
    if s != [] && IsSpace(s[|s| - 1]) then TrimEnd(s[..|s| - 1]) else s
  }

  /** The part `rstrip` cuts off is whitespace. */
  lemma {:induction false} TrimEndSuffix(s: string)
    ensures AllSpace(s[|TrimEnd(s)|..])
    decreases |s|
  {
    if s != [] && IsSpace(s[|s| - 1]) {
      var init := s[..|s| - 1];
      TrimEndSuffix(init);
      var n := |TrimEnd(s)|;
      assert s[n..] == init[n..] + [s[|s| - 1]];
    }
  }

  /** `s.strip()`: empty exactly when `s` is all whitespace, otherwise
      neither end is whitespace. */
  function Strip(s: string): (r: string)
    ensures |r| <= |s|
    ensures r == [] <==> AllSpace(s)
    ensures r != [] ==> !IsSpace(r[0]) && !IsSpace(r[|r| - 1])
  {
    var t := TrimStart(s);
    var r := TrimEnd(t);
    TrimStartSuffix(s);
    TrimEndSuffix(t);
    assert r == [] ==> AllSpace(s) by {
      if r == [] {
        assert s == s[..|s| - |t|] + t;
        assert t == t[|r|..];
      }
    }
    assert r != [] ==> !IsSpace(r[0]) by {
      if r != [] { assert r[0] == t[0]; }
    }
    assert r != [] ==> !IsSpace(s[|s| - |t|]) by {
      if r != [] { assert r[0] == t[0] == s[|s| - |t|]; }
    }
    r
  }

  /** `Strip(s)` is the infix `s[i..j]`, and only whitespace surrounds it. */
  lemma StripInfix(s: string) returns (i: nat, j: nat)
    ensures i <= j <= |s|
    ensures Strip(s) == s[i..j]
    ensures AllSpace(s[..i]) && AllSpace(s[j..])
  {
    var t := TrimStart(s);
    var r := TrimEnd(t);
    TrimStartSuffix(s);
    TrimEndSuffix(t);
    i := |s| - |t|;
    j := i + |r|;
    assert t == s[i..];
    assert AllSpace(s[..i]);
    assert r == t[..|r|] == s[i..j];
    assert s[j..] == t[|r|..];
    assert AllSpace(s[j..]);
  }

  /** Whitespace added after non-blank text disappears under `strip`. */
  lemma {:induction false} StripAppendSpace(s: string, c: char)
    requires IsSpace(c)
    ensures Strip(s + [c]) == Strip(s)
    decreases |s|
  {
    if s == [] {
      assert AllSpace(s + [c]);
    } else if IsSpace(s[0]) {
      assert (s + [c])[1..] == s[1..] + [c];
      StripAppendSpace(s[1..], c);
    } else {
      assert TrimStart(s + [c]) == s + [c];
      assert TrimStart(s) == s;
      assert (s + [c])[..|s + [c]| - 1] == s;
    }
  }

  lemma AppendAssoc<T>(x: seq<T>, y: seq<T>, z: seq<T>)
    ensures x + (y + z) == (x + y) + z
  {
  }

  /** `sep.join(parts)`: it starts with the first part. */
  function Join(parts: seq<string>, sep: string): (r: string)
    ensures parts != [] ==> parts[0] <= r
    decreases |parts|
  {
    if parts == [] then []
    else if |parts| == 1 then parts[0]
    else parts[0] + sep + Join(parts[1..], sep)
  }

  /** Joining a list whose first part is non-empty gives a non-empty string. */
  lemma JoinNonEmpty(parts: seq<string>, sep: string)
    requires parts != [] && parts[0] != []
    ensures Join(parts, sep) != []
  {
  }

  /** One more part is joined after exactly one more separator. */
  lemma {:induction false} JoinSnoc(parts: seq<string>, x: string, sep: string)
    requires parts != []
    ensures Join(parts + [x], sep) == Join(parts, sep) + sep + x
    decreases |parts|
  {
    var all := parts + [x];
    if |parts| == 1 {
      assert all == [parts[0], x];
      assert Join(all[1..], sep) == x;
    } else {
      assert all[1..] == parts[1..] + [x];
      JoinSnoc(parts[1..], x, sep);
      assert Join(all, sep) == parts[0] + sep + (Join(parts[1..], sep) + sep + x);
    }
  }

  /** Line splitting as `str.splitlines` does it, before blank lines are dropped:
      every line boundary character ends a piece.  A `"\r\n"` pair and a final
      boundary leave an extra empty piece here that `splitlines` does not
      produce; the callers drop blank pieces, so the difference never shows. */
  function SplitLines(s: string): (r: seq<string>)
    ensures |r| >= 1
    ensures forall k :: 0 <= k < |r| ==> NoLineBreak(r[k])
    ensures |r[0]| <= |s| && r[0] == s[..|r[0]|]
    decreases |s|
  {
    if s == [] then [[]]
    else if IsLineBreak(s[0]) then [[]] + SplitLines(s[1..])
    else
      var rest := SplitLines(s[1..]);
      [[s[0]] + rest[0]] + rest[1..]
  }

  /** If every piece of `s` is whitespace, so is `s`: no visible character is lost. */
  lemma {:induction false} SplitLinesAllSpace(s: string)
    requires forall k :: 0 <= k < |SplitLines(s)| ==> AllSpace(SplitLines(s)[k])
    ensures AllSpace(s)
    decreases |s|
  {
    if s == [] {
    } else if IsLineBreak(s[0]) {
      var rest := SplitLines(s[1..]);
      assert SplitLines(s) == [[]] + rest;
      assert forall k :: 0 <= k < |rest| ==> rest[k] == SplitLines(s)[k + 1];
      SplitLinesAllSpace(s[1..]);
      assert s == [s[0]] + s[1..];
    } else {
      var rest := SplitLines(s[1..]);
      var first := [s[0]] + rest[0];
      assert SplitLines(s)[0] == first;
      assert IsSpace(first[0]);
      assert forall k :: 0 <= k < |rest[0]| ==> rest[0][k] == first[k + 1];
      assert forall k :: 1 <= k < |rest| ==> rest[k] == SplitLines(s)[k];
      SplitLinesAllSpace(s[1..]);
      assert s == [s[0]] + s[1..];
    }
  }

  /** A line without a boundary is a single piece. */
  lemma {:induction false} SplitLinesWhole(s: string)
    requires NoLineBreak(s)
    ensures SplitLines(s) == [s]
    decreases |s|
  {
    if s != [] {
      assert !IsLineBreak(s[0]);
      assert NoLineBreak(s[1..]) by {
        assert forall k :: 0 <= k < |s| - 1 ==> s[1..][k] == s[k + 1];
      }
      SplitLinesWhole(s[1..]);
      assert s == [s[0]] + s[1..];
    }
  }

  /** The first boundary ends the first piece; the rest is split on its own. */
  lemma {:induction false} SplitLinesBreak(a: string, c: char, b: string)
    requires NoLineBreak(a) && IsLineBreak(c)
    ensures SplitLines(a + [c] + b) == [a] + SplitLines(b)
    decreases |a|
  {
    var s := a + [c] + b;
    if a == [] {
      assert s[1..] == b;
    } else {
      assert s[0] == a[0] && !IsLineBreak(a[0]);
      assert s[1..] == a[1..] + [c] + b;
      assert NoLineBreak(a[1..]) by {
        assert forall k :: 0 <= k < |a| - 1 ==> a[1..][k] == a[k + 1];
      }
      SplitLinesBreak(a[1..], c, b);
      assert [a[0]] + a[1..] == a;
    }
  }

  /** True when `s` has the two-character delimiter `"##"` somewhere in it. */
  predicate HasDelimiter(s: string) {
    exists k :: 0 <= k < |s| - 1 && s[k] == '#' && s[k + 1] == '#'
  }

  /** `s.split("##")`: the pieces between non-overlapping occurrences of `"##"`,
      found left to right.  There is always at least one piece and no piece
      holds the delimiter. */
  function SplitOnDelimiter(s: string): (r: seq<string>)
    ensures |r| >= 1
    ensures |r[0]| <= |s| && r[0] == s[..|r[0]|]
    ensures forall k :: 0 <= k < |r| ==> !HasDelimiter(r[k])
    decreases |s|
  {
    if |s| >= 2 && s[0] == '#' && s[1] == '#' then
      [[]] + SplitOnDelimiter(s[2..])
    else if s == [] then
      [[]]
    else
      var rest := SplitOnDelimiter(s[1..]);
      var first := [s[0]] + rest[0];
      assert !HasDelimiter(first) by {
        forall k | 0 <= k < |first| - 1
          ensures !(first[k] == '#' && first[k + 1] == '#')
        {
          if k == 0 {
            assert first[1] == rest[0][0] == s[1];
          } else {
            assert first[k] == rest[0][k - 1] && first[k + 1] == rest[0][k];
          }
        }
      }
      [first] + rest[1..]
  }

  /** Joining the pieces of `s.split("##")` with `"##"` gives `s` back. */
  lemma {:induction false} SplitOnDelimiterJoin(s: string)
    ensures Join(SplitOnDelimiter(s), "##") == s
    decreases |s|
  {
    if |s| >= 2 && s[0] == '#' && s[1] == '#' {
      SplitOnDelimiterJoin(s[2..]);
      assert s == "##" + s[2..];
    } else if s != [] {
      var c, t := s[0], s[1..];
      assert s == [c] + t;
      SplitOnDelimiterCons(c, t);
      SplitOnDelimiterJoin(t);
      JoinFirst(c, SplitOnDelimiter(t), "##");
    }
  }

  /** Growing the first part grows the joined text at the front. */
  lemma JoinFirst(c: char, parts: seq<string>, sep: string)
    requires parts != []
    ensures Join([[c] + parts[0]] + parts[1..], sep) == [c] + Join(parts, sep)
  {
    var grown := [[c] + parts[0]] + parts[1..];
    assert grown[1..] == parts[1..];
  }

  /** A leading delimiter gives an empty first piece. */
  lemma SplitOnDelimiterAfter(s: string)
    ensures SplitOnDelimiter("##" + s) == [""] + SplitOnDelimiter(s)
  {
    assert ("##" + s)[2..] == s;
  }

  /** A leading character that does not open a delimiter joins the first piece. */
  lemma SplitOnDelimiterCons(c: char, s: string)
    requires c != '#' || s == [] || s[0] != '#'
    ensures var rest := SplitOnDelimiter(s);
      SplitOnDelimiter([c] + s) == [[c] + rest[0]] + rest[1..]
  {
    assert ([c] + s)[1..] == s;
  }

  /** Text without the delimiter is a single piece. */
  lemma {:induction false} SplitOnDelimiterWhole(s: string)
    requires !HasDelimiter(s)
    ensures SplitOnDelimiter(s) == [s]
    decreases |s|
  {
    if s != [] {
      assert !(|s| >= 2 && s[0] == '#' && s[1] == '#');
      assert !HasDelimiter(s[1..]) by {
        forall k | 0 <= k < |s[1..]| - 1
          ensures !(s[1..][k] == '#' && s[1..][k + 1] == '#')
        {
          assert s[1..][k] == s[k + 1] && s[1..][k + 1] == s[k + 2];
        }
      }
      SplitOnDelimiterWhole(s[1..]);
      assert s == [s[0]] + s[1..];
    }
  }

  predicate NoHash(s: string) {
    forall k :: 0 <= k < |s| ==> s[k] != '#'
  }

  /** A piece without `#` followed by the delimiter is split off whole. */
  lemma {:induction false} SplitOnDelimiterPrefix(a: string, rest: string)
    requires NoHash(a)
    ensures SplitOnDelimiter(a + "##" + rest) == [a] + SplitOnDelimiter(rest)
    decreases |a|
  {
    if a == [] {
      assert a + "##" + rest == "##" + rest;
      SplitOnDelimiterAfter(rest);
    } else {
      assert NoHash(a[1..]) by {
        assert forall k :: 0 <= k < |a| - 1 ==> a[1..][k] == a[k + 1];
      }
      SplitOnDelimiterPrefix(a[1..], rest);
      var tail := a[1..] + "##" + rest;
      assert a + "##" + rest == [a[0]] + tail by {
        assert a == [a[0]] + a[1..];
      }
      SplitOnDelimiterCons(a[0], tail);
      var pieces := SplitOnDelimiter(tail);
      assert pieces[0] == a[1..] && pieces[1..] == SplitOnDelimiter(rest);
      assert [a[0]] + pieces[0] == a;
    }
  }

  /** Splitting undoes joining with `"##"` when no part holds a `#`. */
  lemma {:induction false} SplitOnDelimiterOfJoin(parts: seq<string>)
    requires parts != []
    requires forall k :: 0 <= k < |parts| ==> NoHash(parts[k])
    ensures SplitOnDelimiter(Join(parts, "##")) == parts
    decreases |parts|
  {
    if |parts| == 1 {
      SplitOnDelimiterWhole(parts[0]);
    } else {
      var tail := parts[1..];
      assert forall k :: 0 <= k < |tail| ==> NoHash(tail[k]) by {
        assert forall k :: 0 <= k < |tail| ==> tail[k] == parts[k + 1];
      }
      SplitOnDelimiterOfJoin(tail);
      assert Join(parts, "##") == parts[0] + "##" + Join(tail, "##");
      SplitOnDelimiterPrefix(parts[0], Join(tail, "##"));
      assert [parts[0]] + tail == parts;
    }
  }

  /** The split is the leftmost one: no piece but the last ends with `#`, so
      each delimiter is taken at the first `"##"` the scan meets (`"###"`
      splits as `["", "#"]`, never as `["#", ""]`). */
  lemma {:induction false} SplitOnDelimiterLeftmost(s: string)
    ensures Leftmost(SplitOnDelimiter(s))
    decreases |s|
  {
    if |s| >= 2 && s[0] == '#' && s[1] == '#' {
      SplitOnDelimiterLeftmost(s[2..]);
      LeftmostCons([], SplitOnDelimiter(s[2..]));
    } else if s != [] {
      var t := s[1..];
      SplitOnDelimiterLeftmost(t);
      var rest := SplitOnDelimiter(t);
      var first := [s[0]] + rest[0];
      if |rest| >= 2 {
        if rest[0] == [] {
          DelimiterAfterFirst(t);
          assert first == [s[0]] && s[0] != '#';
        } else {
          assert first[|first| - 1] == rest[0][|rest[0]| - 1];
        }
      }
      LeftmostTail(rest);
      LeftmostCons(first, rest[1..]);
    }
  }

  /** No piece but the last ends with `#`. */
  predicate Leftmost(pieces: seq<string>) {
    forall k :: 0 <= k < |pieces| - 1 ==> pieces[k] == [] || pieces[k][|pieces[k]| - 1] != '#'
  }

  lemma LeftmostTail(pieces: seq<string>)
    requires pieces != [] && Leftmost(pieces)
    ensures Leftmost(pieces[1..])
  {
    assert forall k :: 0 <= k < |pieces| - 1 ==> pieces[1..][k] == pieces[k + 1];
  }

  lemma LeftmostCons(p: string, rest: seq<string>)
    requires Leftmost(rest)
    requires rest == [] || p == [] || p[|p| - 1] != '#'
    ensures Leftmost([p] + rest)
  {
    var all := [p] + rest;
    assert forall k :: 1 <= k < |all| ==> all[k] == rest[k - 1];
  }

  /** A first piece that is not the only one is followed by the delimiter. */
  lemma DelimiterAfterFirst(t: string)
    requires |SplitOnDelimiter(t)| >= 2
    ensures var first := SplitOnDelimiter(t)[0];
      |first| + 2 <= |t| && t[|first|] == '#' && t[|first| + 1] == '#'
  {
    var pieces := SplitOnDelimiter(t);
    SplitOnDelimiterJoin(t);
    assert t == pieces[0] + "##" + Join(pieces[1..], "##");
  }

  /** Splitting undoes joining with a line break when no part holds one. */
  lemma {:induction false} SplitLinesOfJoin(parts: seq<string>)
    requires parts != []
    requires forall k :: 0 <= k < |parts| ==> NoLineBreak(parts[k])
    ensures SplitLines(Join(parts, "\n")) == parts
    decreases |parts|
  {
    if |parts| == 1 {
      SplitLinesWhole(parts[0]);
    } else {
      var tail := parts[1..];
      assert forall k :: 0 <= k < |tail| ==> NoLineBreak(tail[k]) by {
        assert forall k :: 0 <= k < |tail| ==> tail[k] == parts[k + 1];
      }
      SplitLinesOfJoin(tail);
      assert Join(parts, "\n") == parts[0] + ['\n'] + Join(tail, "\n");
      SplitLinesBreak(parts[0], '\n', Join(tail, "\n"));
      assert [parts[0]] + tail == parts;
    }
  }
}
