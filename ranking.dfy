/** Ranking of `search_similar` in `app/kb.py`: every row of an index is scored
    against the question, rows with a positive score are kept in index order,
    stable-sorted by descending score and cut to the first `top_k`. */
module Ranking {
  import opened Text
  import opened Vectors
  import opened KnowledgeIndex

  /** `ScoredItem`. The score is the squared cosine of `Vectors.Cosine`. */
  datatype ScoredItem = ScoredItem(entry: Entry, score: real)

  function Min(a: int, b: int): int {
    if a <= b then a else b
  }

  /** The number of rows `zip` yields over the three lists: the shortest length. */
  function Rows(ix: Index): (n: nat)
    ensures n <= |ix.entries| && n <= |ix.vectors| && n <= |ix.norms|
    ensures n == |ix.entries| || n == |ix.vectors| || n == |ix.norms|
  {
    Min(Min(|ix.entries|, |ix.vectors|), |ix.norms|)
  }

  /** The score of row `k` against the query vector `qv` of squared norm `qn2`. */
  function ScoreAt(ix: Index, qv: Vector, qn2: Positive, k: nat): real
    requires k < Rows(ix)
  {
    Cosine(qv, qn2, ix.vectors[k], ix.norms[k])
  }

  /** The list `scored` after the loop has seen the first `n` rows: the rows
      with a positive score, each with its score, in index order. */
  function Scored(ix: Index, qv: Vector, qn2: Positive, n: nat): (r: seq<ScoredItem>)
    requires n <= Rows(ix)
    ensures |r| <= n
    ensures forall j :: 0 <= j < |r| ==> r[j].score > 0.0
    decreases n
  {
    if n == 0 then []
    else
      var prev := Scored(ix, qv, qn2, n - 1);
      var s := ScoreAt(ix, qv, qn2, n - 1);
      if s > 0.0 then prev + [ScoredItem(ix.entries[n - 1], s)] else prev
  }

  /** An item is kept exactly when it is some row's entry with that row's
      score, and the row shares a term with the query. */
  lemma {:induction false} ScoredMembers(ix: Index, qv: Vector, qn2: Positive, n: nat, x: ScoredItem)
    requires n <= Rows(ix)
    ensures x in Scored(ix, qv, qn2, n)
        <==> exists k :: 0 <= k < n && x == ScoredItem(ix.entries[k], ScoreAt(ix, qv, qn2, k)) && Dot(qv, ix.vectors[k]) > 0
    decreases n
  {
    if n > 0 {
      ScoredMembers(ix, qv, qn2, n - 1, x);
      var s := ScoreAt(ix, qv, qn2, n - 1);
      assert s > 0.0 <==> Dot(qv, ix.vectors[n - 1]) > 0;
    }
  }

  /** Entries whose ids increase along the list. */
  predicate IdsIncreasing(s: seq<ScoredItem>) {
    forall i, j :: 0 <= i < j < |s| ==> s[i].entry.id < s[j].entry.id
  }

  /** When ids increase with the row, as `_build_index` numbers them, the
      kept items are in id order. */
  lemma {:induction false} ScoredInIndexOrder(ix: Index, qv: Vector, qn2: Positive, n: nat)
    requires n <= Rows(ix)
    requires forall k :: 0 <= k < |ix.entries| ==> ix.entries[k].id == k + 1
    ensures IdsIncreasing(Scored(ix, qv, qn2, n))
    ensures forall j :: 0 <= j < |Scored(ix, qv, qn2, n)| ==> Scored(ix, qv, qn2, n)[j].entry.id <= n
    decreases n
  {
    if n > 0 {
      ScoredInIndexOrder(ix, qv, qn2, n - 1);
    }
  }

  // ---------------------------------------------------------------------------
  // The stable descending sort

  /** Scores never increase along the list. */
  predicate SortedDesc(s: seq<ScoredItem>) {
    forall i, j :: 0 <= i < j < |s| ==> s[i].score >= s[j].score
  }

  /** Among equal scores, ids increase along the list. */
  predicate TiesByIdOrder(s: seq<ScoredItem>) {
    forall i, j :: 0 <= i < j < |s| && s[i].score == s[j].score ==> s[i].entry.id < s[j].entry.id
  }

  /** Places `x` after every item scoring at least as much and before every
      item scoring less: the step by which a stable sort takes in one more item. */
  function Insert(s: seq<ScoredItem>, x: ScoredItem): (r: seq<ScoredItem>)
    ensures |r| == |s| + 1
    ensures multiset(r) == multiset(s) + multiset{x}
    decreases |s|
  {
    if s == [] || s[|s| - 1].score >= x.score then s + [x]
    else
      var init := s[..|s| - 1];
      assert s == init + [s[|s| - 1]];
      Insert(init, x) + [s[|s| - 1]]
  }

  /** Every item of `Insert(s, x)` is `x` or an item of `s`. */
  lemma InsertFrom(s: seq<ScoredItem>, x: ScoredItem, i: nat)
    requires i < |Insert(s, x)|
    ensures Insert(s, x)[i] == x || Insert(s, x)[i] in s
  {
    var r := Insert(s, x);
    assert r[i] in multiset(r);
  }

  lemma SortedSnoc(m: seq<ScoredItem>, last: ScoredItem)
    requires SortedDesc(m)
    requires forall i :: 0 <= i < |m| ==> m[i].score >= last.score
    ensures SortedDesc(m + [last])
  {
  }

  lemma TiesSnoc(m: seq<ScoredItem>, last: ScoredItem)
    requires TiesByIdOrder(m)
    requires forall i :: 0 <= i < |m| && m[i].score == last.score ==> m[i].entry.id < last.entry.id
    ensures TiesByIdOrder(m + [last])
  {
  }

  lemma {:induction false} InsertSorted(s: seq<ScoredItem>, x: ScoredItem)
    requires SortedDesc(s)
    ensures SortedDesc(Insert(s, x))
    decreases |s|
  {
    if s == [] || s[|s| - 1].score >= x.score {
      SortedSnoc(s, x);
    } else {
      var init, last := s[..|s| - 1], s[|s| - 1];
      InsertSorted(init, x);
      var m := Insert(init, x);
      forall i | 0 <= i < |m| ensures m[i].score >= last.score {
        InsertFrom(init, x, i);
      }
      SortedSnoc(m, last);
    }
  }

  lemma {:induction false} InsertTies(s: seq<ScoredItem>, x: ScoredItem)
    requires TiesByIdOrder(s)
    requires forall y :: y in s ==> y.entry.id < x.entry.id
    ensures TiesByIdOrder(Insert(s, x))
    decreases |s|
  {
    if s == [] || s[|s| - 1].score >= x.score {
      TiesSnoc(s, x);
    } else {
      var init, last := s[..|s| - 1], s[|s| - 1];
      assert forall y :: y in init ==> y in s;
      InsertTies(init, x);
      var m := Insert(init, x);
      forall i | 0 <= i < |m| && m[i].score == last.score ensures m[i].entry.id < last.entry.id {
        InsertFrom(init, x, i);
        if m[i] != x {
          var j :| 0 <= j < |init| && init[j] == m[i];
          assert s[j] == m[i];
        }
      }
      TiesSnoc(m, last);
    }
  }

  /** The stable sort by descending score, as insertion of each item in turn. */
  function SortDesc(s: seq<ScoredItem>): (r: seq<ScoredItem>)
    ensures |r| == |s|
    ensures multiset(r) == multiset(s)
    ensures SortedDesc(r)
    decreases |s|
  {
    if s == [] then []
    else
      var init := s[..|s| - 1];
      assert s == init + [s[|s| - 1]];
      InsertSorted(SortDesc(init), s[|s| - 1]);
      Insert(SortDesc(init), s[|s| - 1])
  }

  /** The sort is stable: items of equal score keep their input order, shown
      here on lists whose ids increase. */
  lemma {:induction false} SortDescStable(s: seq<ScoredItem>)
    requires IdsIncreasing(s)
    ensures TiesByIdOrder(SortDesc(s))
    decreases |s|
  {
    if s != [] {
      var init, x := s[..|s| - 1], s[|s| - 1];
      assert IdsIncreasing(init);
      SortDescStable(init);
      var r := SortDesc(init);
      forall y | y in r ensures y.entry.id < x.entry.id {
        assert y in multiset(r);
        assert y in multiset(init);
        var i :| 0 <= i < |init| && init[i] == y;
        assert s[i] == y;
      }
      InsertTies(r, x);
    }
  }

  // ---------------------------------------------------------------------------
  // search_similar on a chosen index

  /** The positively scored rows of `ix` for the query vector, best first:
      at most one per entry, every score positive, none higher than the one
      before it. */
  function Ranked(ix: Index, qv: Vector): (r: seq<ScoredItem>)
    ensures |r| <= |ix.entries|
    ensures SortedDesc(r)
    ensures forall j :: 0 <= j < |r| ==> r[j].score > 0.0
  {
    var scored := Scored(ix, qv, NormSquared(qv), Rows(ix));
    forall j | 0 <= j < |SortDesc(scored)| ensures SortDesc(scored)[j].score > 0.0 {
      SortDescFrom(scored, j);
    }
    SortDesc(scored)
  }

  /** Where Python's slice `[:k]` of a list of length `n` ends: at `k` when
      `0 <= k <= n`, at the end when `k > n`; a negative `k` counts back from
      the end, down to 0. */
  function SliceEnd(n: nat, k: int): (e: nat)
    ensures e <= n
    ensures 0 <= k ==> e <= k && (e == k || e == n)
    ensures k < 0 ==> e < n || n == 0
  {
    if k >= 0 then Min(k, n) else if n + k >= 0 then n + k else 0
  }

  /** The items `search_similar` returns once it has chosen `ix`: the ranked
      rows cut by `[:top_k]`. */
  function Search(ix: Index, question: string, topK: int): (r: seq<ScoredItem>)
    ensures topK >= 0 ==> |r| <= topK
    ensures |r| <= |ix.entries|
  {
    var ranked := Ranked(ix, Frequencies(Tokenize(question)));
    ranked[..SliceEnd(|ranked|, topK)]
  }

  /** Every item of `SortDesc(s)` is an item of `s`. */
  lemma SortDescFrom(s: seq<ScoredItem>, j: nat)
    requires j < |SortDesc(s)|
    ensures SortDesc(s)[j] in s
  {
    assert SortDesc(s)[j] in multiset(SortDesc(s));
  }

  /** The first `n` items of a list sorted by descending score are some of
      its items, every item after them scores no higher than each of them,
      and taking all of them leaves nothing out. */
  lemma PrefixBest(ranked: seq<ScoredItem>, n: nat)
    requires SortedDesc(ranked) && n <= |ranked|
    ensures multiset(ranked[..n]) <= multiset(ranked)
    ensures forall x: ScoredItem, y: ScoredItem :: x in multiset(ranked) - multiset(ranked[..n]) && y in ranked[..n] ==> x.score <= y.score
    ensures n == |ranked| ==> multiset(ranked[..n]) == multiset(ranked)
  {
    var head, rest := ranked[..n], ranked[n..];
    assert ranked == head + rest;
    assert multiset(ranked) == multiset(head) + multiset(rest);
    forall x: ScoredItem, y: ScoredItem | x in multiset(ranked) - multiset(head) && y in head
      ensures x.score <= y.score
    {
      assert x in multiset(rest);
      var p :| 0 <= p < |rest| && rest[p] == x;
      var q :| 0 <= q < |head| && head[q] == y;
      assert ranked[n + p] == x && ranked[q] == y;
    }
  }

  /** The result has positive scores only, in non-increasing order, at most
      `top_k` of them and no more than the index has entries. */
  lemma SearchShape(ix: Index, question: string, topK: int)
    ensures var r := Search(ix, question, topK);
      && (topK >= 0 ==> |r| <= topK) && |r| <= |ix.entries|
      && SortedDesc(r)
      && forall j :: 0 <= j < |r| ==> r[j].score > 0.0
  {
  }

  /** The result is the best-ranked part of the positively scored rows: every
      row left out scores no higher than any row kept, and a result shorter
      than `top_k` holds every positively scored row. */
  lemma SearchTopK(ix: Index, question: string, topK: int)
    ensures var qv := Frequencies(Tokenize(question));
      var scored, r := Scored(ix, qv, NormSquared(qv), Rows(ix)), Search(ix, question, topK);
      && multiset(r) <= multiset(scored)
      && (forall x: ScoredItem, y: ScoredItem :: x in multiset(scored) - multiset(r) && y in r ==> x.score <= y.score)
      && (|r| < topK ==> multiset(r) == multiset(scored))
  {
    var qv := Frequencies(Tokenize(question));
    var ranked := Ranked(ix, qv);
    var r := Search(ix, question, topK);
    assert r == ranked[..|r|];
    PrefixBest(ranked, |r|);
  }

  /** Equal scores come out in index order: with ids numbered by row, as
      `_build_index` numbers them, ties are listed by increasing id. */
  lemma SearchTiesInIndexOrder(ix: Index, question: string, topK: int)
    requires forall k :: 0 <= k < |ix.entries| ==> ix.entries[k].id == k + 1
    ensures TiesByIdOrder(Search(ix, question, topK))
  {
    var qv := Frequencies(Tokenize(question));
    var n := Rows(ix);
    ScoredInIndexOrder(ix, qv, NormSquared(qv), n);
    SortDescStable(Scored(ix, qv, NormSquared(qv), n));
  }

  /** A question sharing no term with any block, for instance one without
      tokens, gets no result. */
  lemma SearchNoSharedToken(text: string, question: string, topK: int)
    requires IndexOf(text).Success?
    requires forall k, t :: 0 <= k < |Blocks(text)| && t in Tokenize(question) ==> t !in Tokenize(Blocks(text)[k])
    ensures Search(IndexOf(text).value, question, topK) == []
  {
    var ix := IndexOf(text).value;
    IndexOfEntries(text);
    var qv := Frequencies(Tokenize(question));
    NoSharedRows(ix, Blocks(text), question);
    NothingShared(ix, qv, NormSquared(qv), Rows(ix));
    assert |Ranked(ix, qv)| == 0;
  }

  /** A question without tokens gets no result, whatever the index. */
  lemma SearchEmptyQuestion(ix: Index, question: string, topK: int)
    requires Tokenize(question) == []
    ensures Search(ix, question, topK) == []
  {
    var qv := Frequencies(Tokenize(question));
    assert qv == [];
    NothingShared(ix, qv, NormSquared(qv), Rows(ix));
    assert |Ranked(ix, qv)| == 0;
  }

  lemma NoSharedRows(ix: Index, bs: seq<string>, question: string)
    requires Rows(ix) <= |bs|
    requires forall k :: 0 <= k < Rows(ix) ==> ix.vectors[k] == Frequencies(Tokenize(bs[k]))
    requires forall k, t :: 0 <= k < |bs| && t in Tokenize(question) ==> t !in Tokenize(bs[k])
    ensures forall k :: 0 <= k < Rows(ix) ==> Dot(Frequencies(Tokenize(question)), ix.vectors[k]) == 0
  {
    forall k | 0 <= k < Rows(ix) ensures Dot(Frequencies(Tokenize(question)), ix.vectors[k]) == 0 {
      DotOfFrequencies(Tokenize(question), Tokenize(bs[k]));
    }
  }

  /** No row is kept when no row shares a term with the query. */
  lemma {:induction false} NothingShared(ix: Index, qv: Vector, qn2: Positive, n: nat)
    requires n <= Rows(ix)
    requires forall k :: 0 <= k < n ==> Dot(qv, ix.vectors[k]) == 0
    ensures Scored(ix, qv, qn2, n) == []
    decreases n
  {
    if n > 0 {
      NothingShared(ix, qv, qn2, n - 1);
    }
  }

  /** The scoring loop of `search_similar`: appends each row with a positive
      score to `scored`. */
  method ScoreRows(ix: Index, qv: Vector, qn2: Positive) returns (scored: seq<ScoredItem>)
    ensures scored == Scored(ix, qv, qn2, Rows(ix))
  {
    scored := [];
    for k := 0 to Rows(ix)
      invariant scored == Scored(ix, qv, qn2, k)
    {
      var score := Cosine(qv, qn2, ix.vectors[k], ix.norms[k]);
      if score > 0.0 {
        scored := scored + [ScoredItem(ix.entries[k], score)];
      }
    }
  }
}
