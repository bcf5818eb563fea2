/** The text vectorizer of `app/kb.py`: tokenization, term-frequency vectors,
    norms and the cosine score.  Vectors are kept as the insertion-ordered
    association lists a Python dict is; norms and scores are kept squared, so
    every quantity is an exact natural or rational number. */
module Vectors {
  import opened Text

  /** The regex class `[а-яА-Яa-zA-Z0-9_]` (Cyrillic `а-я` is U+0430..U+044F, so `ё` is outside). */
  predicate IsWordChar(c: char) {
    || ('а' <= c <= 'я') || ('А' <= c <= 'Я')
    || ('a' <= c <= 'z') || ('A' <= c <= 'Z')
    || ('0' <= c <= '9') || c == '_'
  }

  /** The characters a token can hold once the text is lower-cased: `[а-яa-z0-9_]`. */
  predicate IsTokenChar(c: char) {
    ('а' <= c <= 'я') || ('a' <= c <= 'z') || ('0' <= c <= '9') || c == '_'
  }

  /** `str.lower` on one character, for the Latin and Cyrillic capitals the tokenizer can see. */
  function LowerChar(c: char): (r: char)
    ensures IsWordChar(r) <==> IsWordChar(c)
    ensures IsWordChar(c) ==> IsTokenChar(r)
    ensures IsTokenChar(c) ==> r == c
  {
    if 'A' <= c <= 'Z' || 'А' <= c <= 'Я' then (c as int + 32) as char else c
  }

  /** `str.lower`, character by character: it keeps the length and changes
      no character from word to separator or back, so it moves no token
      boundary. */
  function Lower(s: string): (r: string)
    ensures |r| == |s|
    ensures forall k :: 0 <= k < |s| ==> (IsWordChar(r[k]) <==> IsWordChar(s[k]))
  {
    seq(|s|, k requires 0 <= k < |s| => LowerChar(s[k]))
  }

  /** `re.findall` with the word class: the maximal runs of word characters, left to right. */
  function Words(s: string): (r: seq<string>)
    ensures forall k :: 0 <= k < |r| ==> r[k] != [] && All(r[k], IsWordChar)
    decreases |s|
  {
    if s == [] then []
    else if !IsWordChar(s[0]) then Words(s[1..])
    else
      var n := Run(s, IsWordChar);
      RunMaximal(s, IsWordChar);
      [s[..n]] + Words(s[n..])
  }

  /** `_tokenize`: the word runs of the lower-cased text.  Every token is
      non-empty and holds only `[а-яa-z0-9_]`. */
  function Tokenize(text: string): (r: seq<string>)
    ensures forall k :: 0 <= k < |r| ==> r[k] != [] && All(r[k], IsTokenChar)
  {
    var low := Lower(text);
    WordsKeep(low, c => LowerChar(c) == c);
    Words(low)
  }

  /** Whatever every character of `s` satisfies, every character of its words satisfies. */
  lemma {:induction false} WordsKeep(s: string, q: char -> bool)
    requires All(s, q)
    ensures forall k :: 0 <= k < |Words(s)| ==> All(Words(s)[k], q)
    decreases |s|
  {
    if s == [] {
    } else if !IsWordChar(s[0]) {
      assert All(s[1..], q);
      WordsKeep(s[1..], q);
    } else {
      var n := Run(s, IsWordChar);
      assert All(s[n..], q);
      WordsKeep(s[n..], q);
      var r := Words(s);
      assert r == [s[..n]] + Words(s[n..]);
      forall k | 0 <= k < |r| ensures All(r[k], q) {
        if k > 0 { assert r[k] == Words(s[n..])[k - 1]; }
      }
    }
  }

  /** A separator splits the text: the words on either side of it are found independently. */
  lemma {:induction false} WordsSplit(a: string, c: char, b: string)
    requires !IsWordChar(c)
    ensures Words(a + [c] + b) == Words(a) + Words(b)
    decreases |a|
  {
    var s := a + [c] + b;
    if a == [] {
      assert s[1..] == b;
    } else if !IsWordChar(a[0]) {
      assert s[1..] == a[1..] + [c] + b;
      WordsSplit(a[1..], c, b);
    } else {
      RunAppend(a, [c] + b, IsWordChar);
      assert s == a + ([c] + b);
      var n := Run(a, IsWordChar);
      assert s[..n] == a[..n];
      assert s[n..] == a[n..] + [c] + b;
      WordsSplit(a[n..], c, b);
    }
  }

  /** A non-empty run of word characters is exactly one word. */
  lemma WordsOfWord(w: string)
    requires w != [] && All(w, IsWordChar)
    ensures Words(w) == [w]
  {
    RunAll(w, IsWordChar);
    assert w[..|w|] == w;
  }

  /** Words joined by single spaces are split back into the same words. */
  lemma {:induction false} WordsOfJoin(ws: seq<string>)
    requires forall k :: 0 <= k < |ws| ==> ws[k] != [] && All(ws[k], IsWordChar)
    ensures Words(Join(ws, " ")) == ws
    decreases |ws|
  {
    if ws == [] {
    } else if |ws| == 1 {
      WordsOfWord(ws[0]);
    } else {
      WordsOfJoin(ws[1..]);
      WordsOfWord(ws[0]);
      WordsSplit(ws[0], ' ', Join(ws[1..], " "));
      assert Join(ws, " ") == ws[0] + [' '] + Join(ws[1..], " ");
      assert ws == [ws[0]] + ws[1..];
    }
  }

  /** The word characters of `s`, in order. */
  function WordChars(s: string): string
    decreases |s|
  {
    if s == [] then [] else (if IsWordChar(s[0]) then [s[0]] else []) + WordChars(s[1..])
  }

  function Concat(ws: seq<string>): string
    decreases |ws|
  {
    if ws == [] then [] else ws[0] + Concat(ws[1..])
  }

  lemma {:induction false} WordCharsOfWordPrefix(s: string, n: nat)
    requires n <= |s| && All(s[..n], IsWordChar)
    ensures WordChars(s) == s[..n] + WordChars(s[n..])
    decreases n
  {
    if n > 0 {
      assert IsWordChar(s[..n][0]);
      assert s[1..][..n - 1] == s[..n][1..];
      assert All(s[1..][..n - 1], IsWordChar);
      WordCharsOfWordPrefix(s[1..], n - 1);
      assert s[1..][n - 1..] == s[n..];
      assert s[..n] == [s[0]] + s[1..][..n - 1];
    }
  }

  /** Tokenizing loses no word character and keeps no separator:
      the words, concatenated, are exactly the word characters of the text. */
  lemma {:induction false} WordsCoverWordChars(s: string)
    ensures Concat(Words(s)) == WordChars(s)
    decreases |s|
  {
    if s == [] {
    } else if !IsWordChar(s[0]) {
      WordsCoverWordChars(s[1..]);
    } else {
      var n := Run(s, IsWordChar);
      RunMaximal(s, IsWordChar);
      WordsCoverWordChars(s[n..]);
      WordCharsOfWordPrefix(s, n);
      assert Words(s) == [s[..n]] + Words(s[n..]);
      assert Words(s)[1..] == Words(s[n..]);
    }
  }

  lemma LowerUnchanged(s: string)
    requires All(s, c => LowerChar(c) == c)
    ensures Lower(s) == s
  {
  }

  lemma {:induction false} JoinKeeps(ws: seq<string>, sep: string, q: char -> bool)
    requires forall k :: 0 <= k < |ws| ==> All(ws[k], q)
    requires All(sep, q)
    ensures All(Join(ws, sep), q)
    decreases |ws|
  {
    if |ws| > 1 {
      JoinKeeps(ws[1..], sep, q);
      var j := Join(ws[1..], sep);
      assert Join(ws, sep) == ws[0] + sep + j;
      forall k | 0 <= k < |Join(ws, sep)| ensures q(Join(ws, sep)[k]) {
        if k < |ws[0]| {
          assert Join(ws, sep)[k] == ws[0][k];
        } else if k < |ws[0]| + |sep| {
          assert Join(ws, sep)[k] == sep[k - |ws[0]|];
        } else {
          assert Join(ws, sep)[k] == j[k - |ws[0]| - |sep|];
        }
      }
    }
  }

  /** Tokenizing the tokens again, joined by spaces, gives the same tokens. */
  lemma TokenizeIdempotent(text: string)
    ensures Tokenize(Join(Tokenize(text), " ")) == Tokenize(text)
  {
    var ts := Tokenize(text);
    var q := (c: char) => IsTokenChar(c) || c == ' ';
    forall k | 0 <= k < |ts| ensures All(ts[k], q) && All(ts[k], IsWordChar) {
    }
    JoinKeeps(ts, " ", q);
    var j := Join(ts, " ");
    assert All(j, c => LowerChar(c) == c) by {
      forall k | 0 <= k < |j| ensures LowerChar(j[k]) == j[k] {
        assert q(j[k]);
      }
    }
    LowerUnchanged(j);
    WordsOfJoin(ts);
  }

  /** A worked case: punctuation and spaces separate, case is folded, `_` and digits stay. */
  lemma TokenizeExample()
    ensures Tokenize("Hello, мир_42!") == ["hello", "мир_42"]
  {
    LowerExample();
    WordsExample();
  }

  lemma LowerExample()
    ensures Lower("Hello, мир_42!") == "hello, мир_42!"
  {
  }

  lemma WordsExample()
    ensures Words("hello, мир_42!") == ["hello", "мир_42"]
  {
    assert "hello, мир_42!" == "hello" + [','] + " мир_42!";
    WordsExampleSplit("hello", " мир_42!");
  }

  lemma WordsExampleSplit(w: string, mid: string)
    requires w == "hello" && mid == " мир_42!"
    ensures Words(w + [','] + mid) == ["hello", "мир_42"]
  {
    WordsOfWord(w);
    WordsExampleTail();
    WordsSplit(w, ',', mid);
  }

  lemma WordsExampleTail()
    ensures Words(" мир_42!") == ["мир_42"]
  {
    assert " мир_42!" == [] + [' '] + ("мир_42" + ['!'] + []);
    WordsExampleWord("мир_42");
  }

  lemma WordsExampleWord(w: string)
    requires w == "мир_42"
    ensures Words([] + [' '] + (w + ['!'] + [])) == [w]
  {
    WordsOfWord(w);
    WordsSplit(w, '!', []);
    WordsSplit([], ' ', w + ['!'] + []);
  }

  // ---------------------------------------------------------------------------
  // Term-frequency vectors

  /** One key of the frequency dict and its count. */
  datatype Term = Term(word: string, count: nat)

  /** A frequency dict, in insertion order. */
  type Vector = seq<Term>

  function Keys(v: Vector): set<string> {
    set k | 0 <= k < |v| :: v[k].word
  }

  lemma KeysCons(t: Term, v: Vector)
    ensures Keys([t] + v) == {t.word} + Keys(v)
  {
    var r := [t] + v;
    forall x | x in Keys(r) ensures x in {t.word} + Keys(v) {
      var k :| 0 <= k < |r| && r[k].word == x;
      if k > 0 { assert r[k] == v[k - 1]; }
    }
    forall x | x in Keys(v) ensures x in Keys(r) {
      var k :| 0 <= k < |v| && v[k].word == x;
      assert r[k + 1] == v[k];
    }
    assert r[0] == t;
  }

  predicate Distinct(v: Vector) {
    forall i, j :: 0 <= i < j < |v| ==> v[i].word != v[j].word
  }

  predicate CountsPositive(v: Vector) {
    forall k :: 0 <= k < |v| ==> v[k].count >= 1
  }

  /** The count of `w`, or 0 when `w` is not a key. */
  function Get(v: Vector, w: string): (n: nat)
    ensures w !in Keys(v) ==> n == 0
    ensures CountsPositive(v) && w in Keys(v) ==> n >= 1
    decreases |v|
  {
    if v == [] then 0
    else if v[0].word == w then v[0].count
    else
      KeysCons(v[0], v[1..]);
      assert v == [v[0]] + v[1..];
      Get(v[1..], w)
  }

  /** The sum of the counts. */
  function Total(v: Vector): nat
    decreases |v|
  {
    if v == [] then 0 else v[0].count + Total(v[1..])
  }

  /** One more occurrence of `w`: the count of `w` goes up by one,
      nothing else changes, and the counts grow by one in all. */
  function Increment(v: Vector, w: string): (r: Vector)
    ensures Get(r, w) == Get(v, w) + 1
    ensures forall u :: u != w ==> Get(r, u) == Get(v, u)
    ensures Total(r) == Total(v) + 1
    decreases |v|
  {
    if v == [] then [Term(w, 1)]
    else if v[0].word == w then [Term(w, v[0].count + 1)] + v[1..]
    else [v[0]] + Increment(v[1..], w)
  }

  /** Incrementing adds `w` to the keys. */
  lemma {:induction false} IncrementKeys(v: Vector, w: string)
    ensures Keys(Increment(v, w)) == Keys(v) + {w}
    decreases |v|
  {
    var r := Increment(v, w);
    if v == [] {
    } else if v[0].word == w {
      KeysCons(v[0], v[1..]);
      KeysCons(r[0], v[1..]);
      assert v == [v[0]] + v[1..];
      assert r == [r[0]] + v[1..];
    } else {
      var rest := Increment(v[1..], w);
      IncrementKeys(v[1..], w);
      assert r == [v[0]] + rest;
      KeysCons(v[0], v[1..]);
      KeysCons(v[0], rest);
      assert v == [v[0]] + v[1..];
    }
  }

  /** Incrementing keeps every count positive. */
  lemma {:induction false} IncrementPositive(v: Vector, w: string)
    requires CountsPositive(v)
    ensures CountsPositive(Increment(v, w))
    decreases |v|
  {
    if v != [] && v[0].word != w {
      var r, rest := Increment(v, w), Increment(v[1..], w);
      IncrementPositive(v[1..], w);
      assert r == [v[0]] + rest;
      forall k | 0 <= k < |r| ensures r[k].count >= 1 {
        if k > 0 { assert r[k] == rest[k - 1]; }
      }
    }
  }

  /** An existing key keeps its place and a new one goes at the end, so the
      keys stay distinct. */
  lemma {:induction false} IncrementDistinct(v: Vector, w: string)
    requires Distinct(v)
    ensures Distinct(Increment(v, w))
    decreases |v|
  {
    if v != [] {
      var r := Increment(v, w);
      assert v == [v[0]] + v[1..];
      DistinctCons(v[0], v[1..]);
      KeysCons(v[0], v[1..]);
      if v[0].word == w {
        assert r == [r[0]] + v[1..];
        DistinctCons(r[0], v[1..]);
      } else {
        var rest := Increment(v[1..], w);
        assert r == [v[0]] + rest;
        IncrementDistinct(v[1..], w);
        IncrementKeys(v[1..], w);
        DistinctCons(v[0], rest);
      }
    }
  }

  /** A vector with a term in front has distinct keys exactly when the rest
      has and does not hold the new term's word. */
  lemma DistinctCons(t: Term, v: Vector)
    ensures Distinct([t] + v) <==> Distinct(v) && t.word !in Keys(v)
  {
    var r := [t] + v;
    if Distinct(r) {
      forall i, j | 0 <= i < j < |v| ensures v[i].word != v[j].word {
        assert v[i] == r[i + 1] && v[j] == r[j + 1];
      }
      forall k | 0 <= k < |v| ensures v[k].word != t.word {
        assert r[0] == t && v[k] == r[k + 1];
      }
    }
    if Distinct(v) && t.word !in Keys(v) {
      forall i, j | 0 <= i < j < |r| ensures r[i].word != r[j].word {
        assert r[j] == v[j - 1];
        if i > 0 { assert r[i] == v[i - 1]; } else { assert v[j - 1].word in Keys(v); }
      }
    }
  }

  /** Number of occurrences of `w` in `ts`. */
  function Count(ts: seq<string>, w: string): nat
    decreases |ts|
  {
    if ts == [] then 0
    else Count(ts[..|ts| - 1], w) + (if ts[|ts| - 1] == w then 1 else 0)
  }

  /** The frequency dict `_vectorize` builds from `ts`, one increment per token.
      Its keys are the distinct tokens, each counted at least once, and the
      counts add up to the number of tokens. */
  function Frequencies(ts: seq<string>): (r: Vector)
    ensures Distinct(r) && CountsPositive(r)
    ensures Keys(r) == set t | t in ts
    ensures Total(r) == |ts|
    decreases |ts|
  {
    if ts == [] then []
    else
      var init := ts[..|ts| - 1];
      assert (set t | t in ts) == (set t | t in init) + {ts[|ts| - 1]} by {
        assert ts == init + [ts[|ts| - 1]];
      }
      IncrementKeys(Frequencies(init), ts[|ts| - 1]);
      IncrementPositive(Frequencies(init), ts[|ts| - 1]);
      IncrementDistinct(Frequencies(init), ts[|ts| - 1]);
      Increment(Frequencies(init), ts[|ts| - 1])
  }

  /** Each key's count is the number of times that token occurs. */
  lemma {:induction false} FrequenciesCount(ts: seq<string>, w: string)
    ensures Get(Frequencies(ts), w) == Count(ts, w)
    decreases |ts|
  {
    if ts != [] {
      FrequenciesCount(ts[..|ts| - 1], w);
    }
  }

  lemma FrequenciesCountAll(ts: seq<string>)
    ensures forall w :: Get(Frequencies(ts), w) == Count(ts, w)
  {
    forall w ensures Get(Frequencies(ts), w) == Count(ts, w) {
      FrequenciesCount(ts, w);
    }
  }

  lemma {:induction false} CountPositive(ts: seq<string>, w: string)
    ensures Count(ts, w) > 0 <==> w in ts
    decreases |ts|
  {
    if ts != [] {
      var init := ts[..|ts| - 1];
      CountPositive(init, w);
      assert ts == init + [ts[|ts| - 1]];
    }
  }

  /** `_vectorize`: counts the tokens of `text` into a fresh dict. */
  method Vectorize(text: string) returns (freq: Vector)
    ensures freq == Frequencies(Tokenize(text))
    ensures forall w :: Get(freq, w) == Count(Tokenize(text), w)
  {
    var tokens := Tokenize(text);
    freq := [];
    for i := 0 to |tokens|
      invariant freq == Frequencies(tokens[..i])
    {
      ghost var next := tokens[..i + 1];
      assert next[..i] == tokens[..i] && next[|next| - 1] == tokens[i];
      freq := Increment(freq, tokens[i]);
    }
    assert tokens[..|tokens|] == tokens;
    FrequenciesCountAll(tokens);
  }

  // ---------------------------------------------------------------------------
  // Norms and the cosine score

  /** A squared norm: never zero. */
  type Positive = n: nat | n >= 1 witness 1

  function SumSquares(v: Vector): nat
    decreases |v|
  {
    if v == [] then 0 else v[0].count * v[0].count + SumSquares(v[1..])
  }

  /** The square of `_norm`: `sqrt(sum of squares) or 1.0`.  It is never zero,
      it is 1 for the empty vector, and it bounds the sum of squares. */
  function NormSquared(v: Vector): (r: Positive)
    ensures v == [] ==> r == 1
    ensures r >= SumSquares(v) && (SumSquares(v) > 0 ==> r == SumSquares(v))
  {
    var s := SumSquares(v);
    if s == 0 then 1 else s
  }

  /** A frequency vector's squared norm is at least its token count. */
  lemma {:induction false} SumSquaresAtLeastTotal(v: Vector)
    ensures SumSquares(v) >= Total(v)
    decreases |v|
  {
    if v != [] {
      SumSquaresAtLeastTotal(v[1..]);
      var c := v[0].count;
      assert c * c >= c by {
        if c > 0 { assert c * c == c * (c - 1) + c; }
      }
    }
  }

  lemma NormOfFrequencies(ts: seq<string>)
    requires ts != []
    ensures NormSquared(Frequencies(ts)) == SumSquares(Frequencies(ts)) >= |ts|
  {
    SumSquaresAtLeastTotal(Frequencies(ts));
  }

  /** The dot product of `_cosine`: summed over the query's keys only. */
  function Dot(q: Vector, d: Vector): (r: nat)
    ensures d == [] ==> r == 0
    decreases |q|
  {
    if q == [] then 0 else q[0].count * Get(d, q[0].word) + Dot(q[1..], d)
  }

  /** The dot product is positive exactly when some query key with a positive
      count also has a positive count in the document. */
  lemma {:induction false} DotPositive(q: Vector, d: Vector)
    ensures Dot(q, d) > 0 <==> exists k :: 0 <= k < |q| && q[k].count > 0 && Get(d, q[k].word) > 0
    decreases |q|
  {
    if q != [] {
      DotPositive(q[1..], d);
      assert forall k :: 0 < k < |q| ==> q[k] == q[1..][k - 1];
      var c, g := q[0].count, Get(d, q[0].word);
      assert c * g > 0 <==> c > 0 && g > 0 by {
        if c > 0 && g > 0 { assert c * g >= g; }
      }
    }
  }

  /** Terms the query does not have contribute nothing: documents that agree
      on the query's keys get the same dot product. */
  lemma {:induction false} DotIgnoresDocumentOnlyTerms(q: Vector, d: Vector, e: Vector)
    requires forall k :: 0 <= k < |q| ==> Get(d, q[k].word) == Get(e, q[k].word)
    ensures Dot(q, d) == Dot(q, e)
    decreases |q|
  {
    if q != [] {
      assert forall k :: 0 < k < |q| ==> q[k] == q[1..][k - 1];
      DotIgnoresDocumentOnlyTerms(q[1..], d, e);
    }
  }

  /** For frequency vectors the dot product is positive exactly when the query
      and the document share a token. */
  lemma DotOfFrequencies(qt: seq<string>, dt: seq<string>)
    ensures Dot(Frequencies(qt), Frequencies(dt)) > 0 <==> exists t :: t in qt && t in dt
  {
    var q, d := Frequencies(qt), Frequencies(dt);
    DotPositive(q, d);
    if exists t :: t in qt && t in dt {
      var t :| t in qt && t in dt;
      assert t in Keys(q);
      var k :| 0 <= k < |q| && q[k].word == t;
      FrequenciesCount(dt, t);
      CountPositive(dt, t);
      assert q[k].count > 0 && Get(d, q[k].word) > 0;
    }
    if Dot(q, d) > 0 {
      var k :| 0 <= k < |q| && q[k].count > 0 && Get(d, q[k].word) > 0;
      var t := q[k].word;
      assert t in Keys(q);
      FrequenciesCount(dt, t);
      CountPositive(dt, t);
      assert t in qt && t in dt;
    }
  }

  /** The square of `_cosine`: 0 when the dot product is 0, otherwise
      dot^2 / (|q|^2 |d|^2).  Never negative, and positive exactly when the dot
      product is; no division by zero can occur since norms are positive. */
  function Cosine(q: Vector, qn2: Positive, d: Vector, dn2: Positive): (r: real)
    ensures r >= 0.0
    ensures r > 0.0 <==> Dot(q, d) > 0
  {
    var dot := Dot(q, d);
    if dot == 0 then 0.0
    else
      var num, den := (dot * dot) as real, (qn2 * dn2) as real;
      assert num > 0.0 && den > 0.0 by { assert dot * dot >= dot; assert qn2 * dn2 >= qn2; }
      num / den
  }

  lemma DivCompare(a: real, x: real, b: real, y: real)
    requires x > 0.0 && y > 0.0
    ensures a / x <= b / y <==> a * y <= b * x
  {
    var u, v := a / x, b / y;
    assert a == u * x && b == v * y;
    assert a * y == u * (x * y) && b * x == v * (x * y);
    if u <= v {
      assert u * (x * y) <= v * (x * y);
    } else {
      assert u * (x * y) > v * (x * y);
    }
  }

  lemma RealOfProduct(x: int, y: int)
    ensures (x * y) as real == (x as real) * (y as real)
  {
  }

  lemma ScaleCompare(c: int, l: int, m: int)
    requires c > 0
    ensures c * l <= c * m <==> l <= m
  {
    if l <= m {
      assert c * m - c * l == c * (m - l);
    } else {
      assert c * l - c * m == c * (l - m);
    }
  }

  /** Comparing sa / (c n1) with sb / (c n2) is comparing sa n2 with sb n1. */
  lemma RatioCompare(sa: nat, sb: nat, c: int, n1: int, n2: int)
    requires c >= 1 && n1 >= 1 && n2 >= 1
    ensures c * n1 >= 1 && c * n2 >= 1
    ensures sa as real / (c * n1) as real <= sb as real / (c * n2) as real <==> sa * n2 <= sb * n1
  {
    var x, y := c * n1, c * n2;
    ScaleCompare(c, 1, n1);
    ScaleCompare(c, 1, n2);
    DivCompare(sa as real, x as real, sb as real, y as real);
    RealOfProduct(sa, y);
    RealOfProduct(sb, x);
    assert sa * y == c * (sa * n2);
    assert sb * x == c * (sb * n1);
    ScaleCompare(c, sa * n2, sb * n1);
  }

  /** Scores of one query against two documents compare as the integers
      dot1^2 * |d2|^2 and dot2^2 * |d1|^2 do: ranking needs no division. */
  lemma CosineCompare(q: Vector, qn2: Positive, d1: Vector, n1: Positive, d2: Vector, n2: Positive)
    ensures Cosine(q, qn2, d1, n1) <= Cosine(q, qn2, d2, n2)
        <==> Dot(q, d1) * Dot(q, d1) * n2 <= Dot(q, d2) * Dot(q, d2) * n1
  {
    var a, b := Dot(q, d1), Dot(q, d2);
    var c1, c2 := Cosine(q, qn2, d1, n1), Cosine(q, qn2, d2, n2);
    if a > 0 && b > 0 {
      assert c1 == (a * a) as real / (qn2 * n1) as real;
      assert c2 == (b * b) as real / (qn2 * n2) as real;
      RatioCompare(a * a, b * b, qn2, n1, n2);
    } else if a > 0 {
      assert c1 > 0.0 && c2 == 0.0;
      PositiveProduct(a * a, n2);
    } else {
      assert c1 == 0.0 && a * a * n2 == 0;
    }
  }

  lemma PositiveProduct(x: nat, y: nat)
    requires x > 0 && y > 0
    ensures x * y > 0
  {
  }
}
