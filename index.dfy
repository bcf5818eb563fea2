/** The knowledge index of `app/kb.py`: the document is split on `"##"`, every
    non-blank chunk becomes an entry (id, title, body, tags) with its frequency
    vector and squared norm, held in three parallel lists. */
module KnowledgeIndex {
  import opened Text
  import opened Vectors

  /** `KBEntry`. */
  datatype Entry = Entry(id: nat, title: string, body: string, tags: seq<string>)

  /** The dict `_build_index` returns: `entries`, `vectors` and `norms`, index by index. */
  datatype Index = Index(entries: seq<Entry>, vectors: seq<Vector>, norms: seq<Positive>)

  /** The `ValueError` raised when the document has no block. */
  datatype BuildError = NoBlocks

  // ---------------------------------------------------------------------------
  // Tags

  /** A character of the regex class `[^#\s]`. */
  predicate IsTagChar(c: char) {
    c != '#' && !IsSpace(c)
  }

  /** The tag regex applied to all of `s`: every `#` followed by at least one
      character that is neither `#` nor whitespace starts a tag, which is the
      longest such run (without the `#`); the scan resumes after it.  Each
      tag uses up at least two characters of `s`. */
  function Tags(s: string): (r: seq<string>)
    ensures 2 * |r| <= |s|
    decreases |s|
  {
    if s == [] then []
    else
      var t := s[1..];
      var n := Run(t, IsTagChar);
      if s[0] == '#' && n > 0 then [t[..n]] + Tags(t[n..]) else Tags(t)
  }

  /** Every tag is non-empty and holds neither `#` nor whitespace. */
  lemma {:induction false} TagsAreTagRuns(s: string)
    ensures forall k :: 0 <= k < |Tags(s)| ==> Tags(s)[k] != [] && All(Tags(s)[k], IsTagChar)
    decreases |s|
  {
    if s != [] {
      var t := s[1..];
      var n := Run(t, IsTagChar);
      if s[0] == '#' && n > 0 {
        RunMaximal(t, IsTagChar);
        TagsAreTagRuns(t[n..]);
        var r, rest := Tags(s), Tags(t[n..]);
        assert r == [t[..n]] + rest;
        forall k | 0 <= k < |r| ensures r[k] != [] && All(r[k], IsTagChar) {
          if k > 0 {
            assert r[k] == rest[k - 1];
          }
        }
      } else {
        TagsAreTagRuns(t);
      }
    }
  }

  /** One step of the scan: a `#` followed by a run of tag characters yields
      that run; any other character is passed over. */
  lemma TagsCons(x: char, t: string)
    ensures var n := Run(t, IsTagChar);
      Tags([x] + t) == if x == '#' && n > 0 then [t[..n]] + Tags(t[n..]) else Tags(t)
  {
    assert ([x] + t)[1..] == t;
  }

  /** The scan step of `TagsCons` when whitespace follows `rest`: a tag
      found after `x` cannot reach past the whitespace. */
  lemma TagsConsSpace(x: char, rest: string, c: char, b: string)
    requires IsSpace(c)
    ensures var n := Run(rest, IsTagChar);
      Tags([x] + rest + [c] + b)
      == if x == '#' && n > 0 then [rest[..n]] + Tags(rest[n..] + [c] + b) else Tags(rest + [c] + b)
  {
    var t := rest + ([c] + b);
    assert [x] + rest + [c] + b == [x] + t;
    TagsCons(x, t);
    RunAppend(rest, [c] + b, IsTagChar);
    var n := Run(rest, IsTagChar);
    assert rest[n..] + ([c] + b) == rest[n..] + [c] + b;
    assert t == rest + [c] + b;
  }

  /** The inductive step of `TagsSplit` when `[x] + rest` opens with a tag. */
  lemma TagsSplitTag(x: char, rest: string, c: char, b: string)
    requires IsSpace(c) && x == '#' && Run(rest, IsTagChar) > 0
    requires var n := Run(rest, IsTagChar); Tags(rest[n..] + [c] + b) == Tags(rest[n..]) + Tags(b)
    ensures Tags([x] + rest + [c] + b) == Tags([x] + rest) + Tags(b)
  {
    TagsConsSpace(x, rest, c, b);
    TagsCons(x, rest);
    var n := Run(rest, IsTagChar);
    var tag, t := [rest[..n]], rest[n..];
    AppendAssoc(tag, Tags(t), Tags(b));
  }

  /** The inductive step of `TagsSplit` when `x` is passed over. */
  lemma TagsSplitSkip(x: char, rest: string, c: char, b: string)
    requires IsSpace(c) && !(x == '#' && Run(rest, IsTagChar) > 0)
    requires Tags(rest + [c] + b) == Tags(rest) + Tags(b)
    ensures Tags([x] + rest + [c] + b) == Tags([x] + rest) + Tags(b)
  {
    TagsConsSpace(x, rest, c, b);
    TagsCons(x, rest);
  }

  /** Whitespace ends every tag: the tags on either side of a whitespace
      character are found independently. */
  lemma {:induction false} TagsSplit(a: string, c: char, b: string)
    requires IsSpace(c)
    ensures Tags(a + [c] + b) == Tags(a) + Tags(b)
    decreases |a|
  {
    if a == [] {
      assert a + [c] + b == [c] + b;
      TagsCons(c, b);
    } else {
      var x, rest := a[0], a[1..];
      assert a == [x] + rest;
      var n := Run(rest, IsTagChar);
      if x == '#' && n > 0 {
        TagsSplit(rest[n..], c, b);
        TagsSplitTag(x, rest, c, b);
      } else {
        TagsSplit(rest, c, b);
        TagsSplitSkip(x, rest, c, b);
      }
    }
  }

  /** Leading whitespace holds no tag. */
  lemma {:induction false} TagsOfSpace(ws: string, m: string)
    requires AllSpace(ws)
    ensures Tags(ws + m) == Tags(m)
    decreases |ws|
  {
    if ws == [] {
      assert ws + m == m;
    } else {
      var s := ws + m;
      assert s[0] == ws[0] && s[1..] == ws[1..] + m;
      assert IsSpace(ws[0]);
      assert s[0] != '#';
      assert Tags(s) == Tags(s[1..]);
      TagsOfSpace(ws[1..], m);
    }
  }

  /** Trailing whitespace holds no tag. */
  lemma TagsOfTrailingSpace(m: string, ws: string)
    requires AllSpace(ws)
    ensures Tags(m + ws) == Tags(m)
  {
    if ws == [] {
      assert m + ws == m;
    } else {
      var c, rest := ws[0], ws[1..];
      assert m + ws == m + [c] + rest;
      TagsSplit(m, c, rest);
      TagsOfSpace(rest, []);
      assert rest + [] == rest;
    }
  }

  /** A `#` followed by a maximal run of tag characters yields that run as a
      tag, and the scan goes on after it. */
  lemma TagsOfTag(w: string, rest: string)
    requires w != [] && All(w, IsTagChar) && (rest == [] || !IsTagChar(rest[0]))
    ensures Tags(['#'] + w + rest) == [w] + Tags(rest)
  {
    RunAll(w, IsTagChar);
    RunAppend(w, rest, IsTagChar);
    assert ['#'] + w + rest == ['#'] + (w + rest);
    TagsCons('#', w + rest);
    assert (w + rest)[..|w|] == w;
    assert (w + rest)[|w|..] == rest;
  }

  /** Text without `#` holds no tag. */
  lemma {:induction false} TagsNoHash(s: string)
    requires NoHash(s)
    ensures Tags(s) == []
    decreases |s|
  {
    if s != [] {
      assert NoHash(s[1..]) by {
        assert forall k :: 0 <= k < |s| - 1 ==> s[1..][k] == s[k + 1];
      }
      TagsNoHash(s[1..]);
    }
  }

  /** Text without `#` in front of `s` changes nothing: the scan passes over
      it, and a `#` right after a visible character still starts a tag. */
  lemma {:induction false} TagsAfterNoHash(a: string, s: string)
    requires NoHash(a)
    ensures Tags(a + s) == Tags(s)
    decreases |a|
  {
    if a != [] {
      assert NoHash(a[1..]) by {
        assert forall k :: 0 <= k < |a| - 1 ==> a[1..][k] == a[k + 1];
      }
      TagsAfterNoHash(a[1..], s);
      var t := a[1..] + s;
      assert a + s == [a[0]] + t;
      assert a[0] != '#';
      TagsCons(a[0], t);
    } else {
      assert a + s == s;
    }
  }

  /** A `#` not followed by a tag character starts no tag and is passed over. */
  lemma TagsLoneHash(s: string)
    requires s == [] || !IsTagChar(s[0])
    ensures Tags(['#'] + s) == Tags(s)
  {
    TagsCons('#', s);
  }

  /** A tag glued to a word is found: `"a#b"` has the tag `"b"`. */
  lemma TagsGluedExample()
    ensures Tags("a#b") == ["b"]
  {
    TagsAfterNoHash("a", "#b");
    assert "a" + "#b" == "a#b";
    TagsOfTag("b", "");
    assert ['#'] + "b" + "" == "#b";
  }

  /** Tags of the stripped block are the tags of the raw chunk: stripping only
      removes whitespace, which no tag holds. */
  lemma TagsOfStrip(chunk: string)
    ensures Tags(Strip(chunk)) == Tags(chunk)
  {
    var i, j := StripInfix(chunk);
    var m := chunk[i..j];
    assert chunk == chunk[..i] + (m + chunk[j..]);
    TagsOfSpace(chunk[..i], m + chunk[j..]);
    TagsOfTrailingSpace(m, chunk[j..]);
  }

  // ---------------------------------------------------------------------------
  // Lines of a block

  /** A string as `strip` leaves it when something remains: non-empty, with
      no whitespace at either end. */
  predicate Trimmed(s: string) {
    s != [] && !IsSpace(s[0]) && !IsSpace(s[|s| - 1])
  }

  predicate AllTrimmed(ss: seq<string>) {
    forall k :: 0 <= k < |ss| ==> Trimmed(ss[k])
  }

  predicate AllBlank(ss: seq<string>) {
    forall k :: 0 <= k < |ss| ==> AllSpace(ss[k])
  }

  predicate AllOneLine(ss: seq<string>) {
    forall k :: 0 <= k < |ss| ==> NoLineBreak(ss[k])
  }

  /** Each piece stripped, in order, with the pieces that strip to nothing
      dropped. */
  function NonBlank(pieces: seq<string>): (r: seq<string>)
    ensures |r| <= |pieces|
    decreases |pieces|
  {
    if pieces == [] then []
    else
      var p := Strip(pieces[0]);
      (if p != [] then [p] else []) + NonBlank(pieces[1..])
  }

  /** What is kept is stripped and non-empty. */
  lemma {:induction false} NonBlankTrimmed(pieces: seq<string>)
    ensures AllTrimmed(NonBlank(pieces))
    decreases |pieces|
  {
    if pieces != [] {
      NonBlankTrimmed(pieces[1..]);
      var p := Strip(pieces[0]);
      if p != [] {
        ConsTrimmed(p, NonBlank(pieces[1..]));
      }
    }
  }

  lemma ConsTrimmed(p: string, rest: seq<string>)
    requires Trimmed(p) && AllTrimmed(rest)
    ensures AllTrimmed([p] + rest)
  {
    var r := [p] + rest;
    assert forall k :: 1 <= k < |r| ==> r[k] == rest[k - 1];
  }

  /** Nothing is kept exactly when every piece is blank. */
  lemma {:induction false} NonBlankEmpty(pieces: seq<string>)
    ensures NonBlank(pieces) == [] <==> AllBlank(pieces)
    decreases |pieces|
  {
    if pieces != [] {
      NonBlankEmpty(pieces[1..]);
      assert AllBlank(pieces) <==> AllSpace(pieces[0]) && AllBlank(pieces[1..]) by {
        assert forall k :: 1 <= k < |pieces| ==> pieces[k] == pieces[1..][k - 1];
      }
    }
  }

  /** Stripping keeps a line on one line. */
  lemma StripOneLine(s: string)
    requires NoLineBreak(s)
    ensures NoLineBreak(Strip(s))
  {
    var i, j := StripInfix(s);
    assert forall k :: 0 <= k < j - i ==> Strip(s)[k] == s[i + k];
  }

  lemma {:induction false} NonBlankOneLine(pieces: seq<string>)
    requires AllOneLine(pieces)
    ensures AllOneLine(NonBlank(pieces))
    decreases |pieces|
  {
    if pieces != [] {
      StripOneLine(pieces[0]);
      assert AllOneLine(pieces[1..]) by {
        assert forall k :: 0 <= k < |pieces| - 1 ==> pieces[1..][k] == pieces[k + 1];
      }
      NonBlankOneLine(pieces[1..]);
    }
  }

  /** Every piece of an all-whitespace string is whitespace. */
  lemma {:induction false} SplitLinesOfSpace(s: string)
    requires AllSpace(s)
    ensures AllBlank(SplitLines(s))
    decreases |s|
  {
    if s != [] {
      SplitLinesOfSpace(s[1..]);
      var rest := SplitLines(s[1..]);
      if !IsLineBreak(s[0]) {
        var first := [s[0]] + rest[0];
        assert forall k :: 1 <= k < |first| ==> first[k] == rest[0][k - 1];
      }
    }
  }

  /** The stripped non-blank lines of a block, as `_build_index` takes them.
      There is none exactly when the block is all whitespace; each is
      non-empty, on one line and has no surrounding whitespace. */
  function Lines(block: string): (r: seq<string>)
    ensures r == [] <==> AllSpace(block)
    ensures AllTrimmed(r) && AllOneLine(r)
  {
    var pieces := SplitLines(block);
    NonBlankTrimmed(pieces);
    NonBlankEmpty(pieces);
    NonBlankOneLine(pieces);
    assert AllSpace(block) ==> AllBlank(pieces) by {
      if AllSpace(block) { SplitLinesOfSpace(block); }
    }
    assert AllBlank(pieces) ==> AllSpace(block) by {
      if AllBlank(pieces) { SplitLinesAllSpace(block); }
    }
    NonBlank(pieces)
  }

  /** The non-blank pieces of two lists, one after the other. */
  lemma {:induction false} NonBlankAppend(a: seq<string>, b: seq<string>)
    ensures NonBlank(a + b) == NonBlank(a) + NonBlank(b)
    decreases |a|
  {
    if a == [] {
      assert a + b == b;
    } else {
      var all := a + b;
      assert all[0] == a[0] && all[1..] == a[1..] + b;
      NonBlankAppend(a[1..], b);
      var p := Strip(a[0]);
      AppendAssoc(if p != [] then [p] else [], NonBlank(a[1..]), NonBlank(b));
    }
  }

  /** A string is kept exactly when it is non-empty and some piece strips to
      it: no non-blank piece is lost, and nothing else appears. */
  lemma {:induction false} NonBlankMembers(pieces: seq<string>, x: string)
    ensures x in NonBlank(pieces) <==>
      x != [] && exists k :: 0 <= k < |pieces| && Strip(pieces[k]) == x
    decreases |pieces|
  {
    if pieces != [] {
      var tail := pieces[1..];
      NonBlankMembers(tail, x);
      var p := Strip(pieces[0]);
      assert NonBlank(pieces) == (if p != [] then [p] else []) + NonBlank(tail);
      if x in NonBlank(pieces) {
        if x in NonBlank(tail) {
          var k :| 0 <= k < |tail| && Strip(tail[k]) == x;
          assert pieces[k + 1] == tail[k];
        } else {
          assert x == p;
        }
      }
      if x != [] && exists k :: 0 <= k < |pieces| && Strip(pieces[k]) == x {
        var k :| 0 <= k < |pieces| && Strip(pieces[k]) == x;
        if k > 0 {
          assert tail[k - 1] == pieces[k];
        }
      }
    }
  }

  /** Stripping leaves a stripped string alone. */
  lemma StripTrimmed(s: string)
    requires Trimmed(s)
    ensures Strip(s) == s
  {
    assert TrimStart(s) == s;
    assert TrimEnd(s) == s;
  }

  /** Pieces that are already stripped and non-empty are all kept, as they are. */
  lemma {:induction false} NonBlankOfTrimmed(pieces: seq<string>)
    requires AllTrimmed(pieces)
    ensures NonBlank(pieces) == pieces
    decreases |pieces|
  {
    if pieces != [] {
      StripTrimmed(pieces[0]);
      assert AllTrimmed(pieces[1..]) by {
        assert forall k :: 0 <= k < |pieces| - 1 ==> pieces[1..][k] == pieces[k + 1];
      }
      NonBlankOfTrimmed(pieces[1..]);
      assert [pieces[0]] + pieces[1..] == pieces;
    }
  }

  /** Stripped one-line lines joined with `"\n"` are read back as those lines. */
  lemma LinesOfJoin(lines: seq<string>)
    requires lines != [] && AllTrimmed(lines) && AllOneLine(lines)
    ensures Lines(Join(lines, "\n")) == lines
  {
    SplitLinesOfJoin(lines);
    NonBlankOfTrimmed(lines);
  }

  // ---------------------------------------------------------------------------
  // Blocks and entries

  /** The blocks of the document, in document order: the `"##"` chunks,
      stripped, without the ones that are blank. */
  function Blocks(text: string): (r: seq<string>)
    ensures |r| <= |SplitOnDelimiter(text)|
  {
    NonBlank(SplitOnDelimiter(text))
  }

  /** Every block is stripped and non-empty. */
  lemma BlocksTrimmed(text: string)
    ensures AllTrimmed(Blocks(text))
  {
    NonBlankTrimmed(SplitOnDelimiter(text));
  }

  /** The entry `_build_index` makes of a block with some visible text: the
      title is the first line, non-empty, on one line and without surrounding
      whitespace; the body joins the other lines with `"\n"`; the tags are
      the block's. */
  function EntryOf(id: nat, block: string): (e: Entry)
    requires !AllSpace(block)
    ensures e.id == id && e.tags == Tags(block)
    ensures Trimmed(e.title) && NoLineBreak(e.title)
  {
    var lines := Lines(block);
    Entry(id, lines[0], Join(lines[1..], "\n"), Tags(block))
  }

  /** The lists after the loop of `_build_index` has run over `blocks`: the
      block at position `k` gets id `k + 1` (`enumerate(blocks, 1)`), and a
      block without a non-blank line is skipped. */
  function Build(blocks: seq<string>): (ix: Index)
    ensures |ix.entries| == |ix.vectors| == |ix.norms| <= |blocks|
    decreases |blocks|
  {
    if blocks == [] then Index([], [], [])
    else
      var n := |blocks|;
      var prev := Build(blocks[..n - 1]);
      var block := blocks[n - 1];
      if Lines(block) == [] then prev
      else
        var vec := Frequencies(Tokenize(block));
        Index(prev.entries + [EntryOf(n, block)], prev.vectors + [vec], prev.norms + [NormSquared(vec)])
  }

  /** `ix` holds one entry per block, numbered 1, 2, ... in block order, with
      the block's frequency vector and the vector's squared norm. */
  ghost predicate Describes(ix: Index, blocks: seq<string>) {
    && |ix.entries| == |ix.vectors| == |ix.norms| == |blocks|
    && forall k :: 0 <= k < |blocks| ==>
         && !AllSpace(blocks[k])
         && ix.entries[k] == EntryOf(k + 1, blocks[k])
         && ix.vectors[k] == Frequencies(Tokenize(blocks[k]))
         && ix.norms[k] == NormSquared(ix.vectors[k])
  }

  /** On stripped non-empty blocks the skip never happens: every block
      becomes an entry, and ids have no gap. */
  lemma {:induction false} BuildDescribes(blocks: seq<string>)
    requires AllTrimmed(blocks)
    ensures Describes(Build(blocks), blocks)
    decreases |blocks|
  {
    if blocks != [] {
      var n := |blocks|;
      var init := blocks[..n - 1];
      assert AllTrimmed(init) by {
        assert forall k :: 0 <= k < n - 1 ==> init[k] == blocks[k];
      }
      BuildDescribes(init);
      DescribesSnoc(blocks);
    }
  }

  lemma DescribesSnoc(blocks: seq<string>)
    requires blocks != [] && Trimmed(blocks[|blocks| - 1])
    requires Describes(Build(blocks[..|blocks| - 1]), blocks[..|blocks| - 1])
    ensures Describes(Build(blocks), blocks)
  {
    var n := |blocks|;
    var init, last := blocks[..n - 1], blocks[n - 1];
    assert !AllSpace(last) by {
      assert !IsSpace(last[0]);
    }
    var prev, ix := Build(init), Build(blocks);
    forall k | 0 <= k < n
      ensures !AllSpace(blocks[k])
      ensures ix.entries[k] == EntryOf(k + 1, blocks[k])
      ensures ix.vectors[k] == Frequencies(Tokenize(blocks[k]))
      ensures ix.norms[k] == NormSquared(ix.vectors[k])
    {
      if k < n - 1 {
        assert init[k] == blocks[k];
        assert ix.entries[k] == prev.entries[k];
        assert ix.vectors[k] == prev.vectors[k] && ix.norms[k] == prev.norms[k];
      }
    }
  }

  /** One more turn of the loop: the next block is skipped when it has no
      non-blank line, otherwise its entry, vector and norm are appended. */
  lemma BuildStep(blocks: seq<string>, i: nat)
    requires i < |blocks|
    ensures var prev, block := Build(blocks[..i]), blocks[i];
      Build(blocks[..i + 1])
      == if Lines(block) == [] then prev
         else
           var vec := Frequencies(Tokenize(block));
           Index(prev.entries + [EntryOf(i + 1, block)], prev.vectors + [vec], prev.norms + [NormSquared(vec)])
  {
    var upto := blocks[..i + 1];
    assert upto[..i] == blocks[..i] && upto[i] == blocks[i];
  }

  /** What `_build_index(text)` returns or raises. */
  function IndexOf(text: string): (r: Result<Index, BuildError>)
    ensures r.Success? ==> 1 <= |r.value.entries| == |r.value.vectors| == |r.value.norms|
  {
    var ix := Build(Blocks(text));
    if ix.entries == [] then Failure(NoBlocks) else Success(ix)
  }

  /** An index as `_build_index` leaves it: three lists of one length, at least
      one entry, ids 1..n in order, every norm that of its vector. */
  ghost predicate WellFormed(ix: Index) {
    && |ix.entries| == |ix.vectors| == |ix.norms| >= 1
    && (forall k :: 0 <= k < |ix.entries| ==> ix.entries[k].id == k + 1)
    && (forall k :: 0 <= k < |ix.entries| ==> ix.norms[k] == NormSquared(ix.vectors[k]))
  }

  /** `_build_index` raises exactly when every `"##"`-separated chunk is blank. */
  lemma IndexOfFails(text: string)
    ensures IndexOf(text).Failure? <==> AllBlank(SplitOnDelimiter(text))
  {
    NonBlankEmpty(SplitOnDelimiter(text));
    BlocksTrimmed(text);
    BuildDescribes(Blocks(text));
  }

  /** On success there is one entry per non-blank chunk, in chunk order,
      holding that block's title, body, tags and frequency vector. */
  lemma IndexOfEntries(text: string)
    requires IndexOf(text).Success?
    ensures var ix, bs := IndexOf(text).value, Blocks(text);
      && |ix.entries| == |ix.vectors| == |bs|
      && forall k :: 0 <= k < |bs| ==>
           && !AllSpace(bs[k])
           && ix.entries[k] == EntryOf(k + 1, bs[k])
           && ix.vectors[k] == Frequencies(Tokenize(bs[k]))
  {
    BlocksTrimmed(text);
    BuildDescribes(Blocks(text));
  }

  /** On success the lists have one length, at least one entry, ids 1..n with
      no gap and every norm that of its vector. */
  lemma IndexOfWellFormed(text: string)
    requires IndexOf(text).Success?
    ensures WellFormed(IndexOf(text).value)
  {
    var bs := Blocks(text);
    var ix := Build(bs);
    BlocksTrimmed(text);
    BuildDescribes(bs);
    forall k | 0 <= k < |ix.entries| ensures ix.entries[k].id == k + 1 {
      assert ix.entries[k] == EntryOf(k + 1, bs[k]);
    }
  }

  /** A document without the delimiter is one block: the stripped text. */
  lemma BlocksWhole(text: string)
    requires !HasDelimiter(text) && !AllSpace(text)
    ensures Blocks(text) == [Strip(text)]
  {
    SplitOnDelimiterWhole(text);
    assert [text][1..] == [];
    assert Blocks(text) == [Strip(text)] + NonBlank([]);
  }

  /** A document without the delimiter and with some visible text is one entry. */
  lemma SingleBlock(text: string)
    requires !HasDelimiter(text) && !AllSpace(text)
    ensures IndexOf(text).Success?
    ensures IndexOf(text).value.entries == [EntryOf(1, Strip(text))]
  {
    BlocksWhole(text);
    var b := Strip(text);
    var one: seq<string> := [b];
    assert AllTrimmed(one);
    BuildDescribes(one);
  }

  /** Two visible chunks without `#` around one delimiter are two blocks, in
      order. */
  lemma BlocksOfTwo(a: string, b: string)
    requires NoHash(a) && NoHash(b) && !AllSpace(a) && !AllSpace(b)
    ensures Blocks(a + "##" + b) == [Strip(a), Strip(b)]
  {
    SplitOnDelimiterPrefix(a, b);
    SplitOnDelimiterWhole(b);
    NonBlankAppend([a], [b]);
    assert [a] + [b] == [a, b];
  }

  /** ... and they make two entries with ids 1 and 2. */
  lemma TwoBlocks(a: string, b: string)
    requires NoHash(a) && NoHash(b) && !AllSpace(a) && !AllSpace(b)
    ensures IndexOf(a + "##" + b).Success?
    ensures IndexOf(a + "##" + b).value.entries == [EntryOf(1, Strip(a)), EntryOf(2, Strip(b))]
  {
    BlocksOfTwo(a, b);
    BuildTwo(Strip(a), Strip(b));
  }

  lemma BuildTwo(x: string, y: string)
    requires Trimmed(x) && Trimmed(y)
    ensures Build([x, y]).entries == [EntryOf(1, x), EntryOf(2, y)]
  {
    assert !AllSpace(x) && !AllSpace(y) by {
      assert !IsSpace(x[0]) && !IsSpace(y[0]);
    }
    assert [x, y][..1] == [x] && [x][..0] == [];
  }

  /** The title of an entry is its block's first line and the body the other
      lines joined with `"\n"`, when the block is such lines. */
  lemma EntryOfLines(id: nat, lines: seq<string>)
    requires lines != [] && AllTrimmed(lines) && AllOneLine(lines)
    ensures !AllSpace(Join(lines, "\n"))
    ensures EntryOf(id, Join(lines, "\n")).title == lines[0]
    ensures EntryOf(id, Join(lines, "\n")).body == Join(lines[1..], "\n")
  {
    LinesOfJoin(lines);
  }

  /** The loop of `_build_index`: the three lists grow block by block. */
  method BuildLists(blocks: seq<string>) returns (ix: Index)
    ensures ix == Build(blocks)
  {
    var entries: seq<Entry>, vectors: seq<Vector>, norms: seq<Positive> := [], [], [];
    for i := 0 to |blocks|
      invariant Index(entries, vectors, norms) == Build(blocks[..i])
    {
      BuildStep(blocks, i);
      var block := blocks[i];
      var lines := Lines(block);
      if lines == [] {
        continue;
      }
      var title := lines[0];
      var body := Join(lines[1..], "\n");
      var tags := Tags(block);
      var vec := Vectorize(block);
      entries := entries + [Entry(i + 1, title, body, tags)];
      vectors := vectors + [vec];
      norms := norms + [NormSquared(vec)];
    }
    assert blocks[..|blocks|] == blocks;
    ix := Index(entries, vectors, norms);
  }

  /** `_build_index`: raises when no block made an entry. */
  method BuildIndex(text: string) returns (r: Result<Index, BuildError>)
    ensures r == IndexOf(text)
    ensures r.Success? ==> WellFormed(r.value)
    ensures r.Failure? <==> AllBlank(SplitOnDelimiter(text))
  {
    var ix := BuildLists(Blocks(text));
    IndexOfFails(text);
    if ix.entries == [] {
      return Failure(NoBlocks);
    }
    r := Success(ix);
    IndexOfWellFormed(text);
  }

  // ---------------------------------------------------------------------------
  // Worked examples

  /** Blank chunks separated by the delimiter make a document that raises. */
  lemma BlankChunks(parts: seq<string>)
    requires parts != [] && AllBlank(parts)
    ensures IndexOf(Join(parts, "##")).Failure?
  {
    forall k | 0 <= k < |parts| ensures NoHash(parts[k]) {
      assert forall j :: 0 <= j < |parts[k]| ==> IsSpace(parts[k][j]);
    }
    SplitOnDelimiterOfJoin(parts);
    IndexOfFails(Join(parts, "##"));
  }

  /** Blank pieces in front are dropped without a trace. */
  lemma {:induction false} NonBlankSkipBlank(blank: seq<string>, rest: seq<string>)
    requires AllBlank(blank)
    ensures NonBlank(blank + rest) == NonBlank(rest)
    decreases |blank|
  {
    if blank == [] {
      assert blank + rest == rest;
    } else {
      var all := blank + rest;
      assert all[0] == blank[0] && all[1..] == blank[1..] + rest;
      assert AllBlank(blank[1..]) by {
        assert forall k :: 0 <= k < |blank| - 1 ==> blank[1..][k] == blank[k + 1];
      }
      NonBlankSkipBlank(blank[1..], rest);
      assert Strip(all[0]) == [];
      assert NonBlank(all) == NonBlank(all[1..]);
    }
  }

  /** Blank chunks before a block that holds no `#` leave that block alone. */
  lemma BlocksAfterBlankChunks(blank: seq<string>, block: string)
    requires AllBlank(blank) && NoHash(block) && !AllSpace(block)
    ensures Blocks(Join(blank + [block], "##")) == [Strip(block)]
  {
    var parts := blank + [block];
    forall k | 0 <= k < |parts| ensures NoHash(parts[k]) {
      if k < |blank| {
        assert parts[k] == blank[k];
        assert forall j :: 0 <= j < |blank[k]| ==> IsSpace(blank[k][j]);
      }
    }
    SplitOnDelimiterOfJoin(parts);
    NonBlankSkipBlank(blank, [block]);
    assert NonBlank([block]) == [Strip(block)] + NonBlank([]) by {
      assert [block][1..] == [];
    }
  }

  /** Blank chunks before the first block use up no id: the block after them
      is entry 1. */
  lemma BlankChunksThenBlock(blank: seq<string>, block: string)
    requires AllBlank(blank) && NoHash(block) && !AllSpace(block)
    ensures IndexOf(Join(blank + [block], "##")).Success?
    ensures IndexOf(Join(blank + [block], "##")).value.entries == [EntryOf(1, Strip(block))]
  {
    BlocksAfterBlankChunks(blank, block);
    var one: seq<string> := [Strip(block)];
    assert AllTrimmed(one);
    BuildDescribes(one);
  }

  /** The document `"## \n\n## Title\nBody"`: its first two chunks are blank,
      and its one entry gets id 1. */
  lemma BlankChunksExample()
    ensures var r := IndexOf("## \n\n## Title\nBody");
      r.Success? && |r.value.entries| == 1 && r.value.entries[0].id == 1
  {
    var blank: seq<string> := ["", " \n\n"];
    var block := " Title\nBody";
    var parts := blank + [block];
    assert parts[1..] == [" \n\n", block] && parts[1..][1..] == [block];
    assert Join(parts[1..], "##") == " \n\n" + "##" + block;
    assert Join(parts, "##") == "## \n\n## Title\nBody";
    assert AllBlank(blank) by {
      assert AllSpace(blank[0]) && AllSpace(blank[1]);
    }
    assert !AllSpace(block) by {
      assert !IsSpace(block[1]);
    }
    BlankChunksThenBlock(blank, block);
  }

  /** A document with only whitespace, the empty one included, raises. */
  lemma WhitespaceOnly(text: string)
    requires AllSpace(text)
    ensures IndexOf(text).Failure?
  {
    assert AllBlank([text]);
    BlankChunks([text]);
    assert Join([text], "##") == text;
  }
}
