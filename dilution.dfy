/** `insert_sections_strategically` of utils/policy_dilution_script.py: the
    policy document is cut into lines, the start of every section (a title
    line directly above a line of `=====`) is located, and irrelevant
    sections are spliced in, one in front of each section start, the rest
    appended at the end. The random shuffle happens before and is not part
    of this model: the sections arrive in their shuffled order. */
module Dilution {
  import opened Text
  import opened Sequences

  /** One irrelevant section: its `title` and its `content`. */
  datatype Section = Section(title: string, content: string)

  /** Every line with `.strip()` applied. */
  function Stripped(lines: seq<string>): (r: seq<string>)
    ensures |r| == |lines| && forall i :: 0 <= i < |lines| ==> r[i] == Strip(lines[i])
  {
    seq(|lines|, i requires 0 <= i < |lines| => Strip(lines[i]))
  }

  /** Line `i` is a section title, judged on the stripped lines `sl`: it and
      the next line are not blank, and the next line contains `'=' * 5`. */
  predicate IsHeader(sl: seq<string>, i: int) {
    && 0 <= i && i + 1 < |sl|
    && sl[i] != ""
    && sl[i + 1] != ""
    && Contains(sl[i + 1], Repeat('=', 5))
  }

  /** The section starts the boundary scan records from line `p` on: the
      scan looks at every line, except that after a title it resumes two
      lines further down, past the underline. */
  function HeaderStarts(sl: seq<string>, p: nat): seq<int>
    decreases |sl| - p
  {
    if p + 1 >= |sl| then []
    else if IsHeader(sl, p) then [p] + HeaderStarts(sl, p + 2)
    else HeaderStarts(sl, p + 1)
  }

  /** Every recorded line is a title at or after `p`. */
  lemma {:induction false} HeaderStartsShape(sl: seq<string>, p: nat)
    ensures var r := HeaderStarts(sl, p);
      forall i :: 0 <= i < |r| ==> p <= r[i] && IsHeader(sl, r[i])
    decreases |sl| - p
  {
    if p + 1 >= |sl| {
    } else if IsHeader(sl, p) {
      HeaderStartsShape(sl, p + 2);
      assert HeaderStarts(sl, p) == [p] + HeaderStarts(sl, p + 2);
    } else {
      HeaderStartsShape(sl, p + 1);
      assert HeaderStarts(sl, p) == HeaderStarts(sl, p + 1);
    }
  }

  /** The line right above a recorded line is never recorded: after a
      title the scan skips its underline. */
  lemma {:induction false} HeaderStartsSpaced(sl: seq<string>, p: nat, j: int)
    requires j in HeaderStarts(sl, p)
    ensures j - 1 !in HeaderStarts(sl, p)
    decreases |sl| - p
  {
    if p + 1 >= |sl| {
    } else if IsHeader(sl, p) {
      HeaderStartsShape(sl, p + 2);
      if j != p {
        HeaderStartsSpaced(sl, p + 2, j);
      }
    } else {
      HeaderStartsSpaced(sl, p + 1, j);
    }
  }

  /** The section starts of a document are insertion positions, each
      before the last line. */
  lemma StartsAreAscending(lines: seq<string>)
    ensures InRange(HeaderStarts(Stripped(lines), 0), |lines|)
    ensures StrictlyAscending(HeaderStarts(Stripped(lines), 0), 0, |lines|)
    ensures forall i :: 0 <= i < |HeaderStarts(Stripped(lines), 0)| ==> HeaderStarts(Stripped(lines), 0)[i] < |lines|
  {
    HeaderStartsShape(Stripped(lines), 0);
    HeaderStartsAscending(Stripped(lines), 0);
  }

  lemma {:induction false} HeaderStartsAscending(sl: seq<string>, p: nat)
    ensures StrictlyAscending(HeaderStarts(sl, p), p, |sl|)
    decreases |sl| - p
  {
    if p + 1 >= |sl| {
    } else if IsHeader(sl, p) {
      HeaderStartsAscending(sl, p + 2);
    } else {
      HeaderStartsAscending(sl, p + 1);
    }
  }

  /** Every title line is recorded, unless it is the underline of the title
      recorded just above it. */
  lemma {:induction false} HeaderStartsComplete(sl: seq<string>, p: nat, j: int)
    requires p <= j && IsHeader(sl, j)
    ensures j in HeaderStarts(sl, p) || (p < j && j - 1 in HeaderStarts(sl, p))
    decreases |sl| - p
  {
    if p + 1 >= |sl| {
    } else if IsHeader(sl, p) {
      if j >= p + 2 {
        HeaderStartsComplete(sl, p + 2, j);
      }
    } else {
      HeaderStartsComplete(sl, p + 1, j);
    }
  }

  /** The boundaries of the whole document, as an if-and-only-if: line `j`
      is recorded exactly when it is a title and the line above it was not
      recorded. */
  lemma HeaderStartsExactly(sl: seq<string>, j: int)
    ensures j in HeaderStarts(sl, 0) <==>
      IsHeader(sl, j) && (j == 0 || j - 1 !in HeaderStarts(sl, 0))
  {
    HeaderStartsShape(sl, 0);
    if IsHeader(sl, j) {
      HeaderStartsComplete(sl, 0, j);
    }
    if j in HeaderStarts(sl, 0) {
      HeaderStartsSpaced(sl, 0, j);
    }
  }

  /** The test `current_line and next_line and '=' * 5 in next_line` of the
      boundary scan, on the raw lines. */
  predicate TitleAt(lines: seq<string>, i: int)
    requires 0 <= i && i + 1 < |lines|
  {
    var currentLine := Strip(lines[i]);
    var nextLine := Strip(lines[i + 1]);
    currentLine != "" && nextLine != "" && Contains(nextLine, Repeat('=', 5))
  }

  /** The scan's test is the title test on the stripped lines. */
  lemma TitleAtIsHeader(lines: seq<string>, i: int)
    requires 0 <= i && i + 1 < |lines|
    ensures TitleAt(lines, i) <==> IsHeader(Stripped(lines), i)
  {
    var sl := Stripped(lines);
    assert sl[i] == Strip(lines[i]) && sl[i + 1] == Strip(lines[i + 1]);
  }

  /** The boundary scan of `insert_sections_strategically`, followed by the
      end-of-document position. */
  method FindSectionBoundaries(lines: seq<string>) returns (boundaries: seq<int>)
    ensures boundaries == HeaderStarts(Stripped(lines), 0) + [|lines|]
  {
    ghost var sl := Stripped(lines);
    boundaries := [];
    var i := 0;
    while i < |lines| - 1
      invariant 0 <= i <= |lines|
      invariant boundaries + HeaderStarts(sl, i) == HeaderStarts(sl, 0)
      decreases |lines| - i
    {
      TitleAtIsHeader(lines, i);
      if TitleAt(lines, i) {
        assert HeaderStarts(sl, i) == [i] + HeaderStarts(sl, i + 2);
        boundaries := boundaries + [i];
        i := SkipToNextTitle(lines, i + 2);
      } else {
        i := i + 1;
      }
    }
    boundaries := boundaries + [|lines|];
  }

  /** The inner loop of the scan: from `from`, walks to the next title line,
      or to the end of the document. Every line it passes is not a section
      start. */
  method SkipToNextTitle(lines: seq<string>, from: int) returns (i: int)
    requires 0 <= from <= |lines|
    ensures from <= i <= |lines|
    ensures HeaderStarts(Stripped(lines), i) == HeaderStarts(Stripped(lines), from)
    ensures i < |lines| ==> i + 1 < |lines| && IsHeader(Stripped(lines), i)
  {
    ghost var sl := Stripped(lines);
    i := from;
    while i < |lines|
      invariant from <= i <= |lines|
      invariant HeaderStarts(sl, i) == HeaderStarts(sl, from)
      decreases |lines| - i
    {
      if i < |lines| - 1 {
        TitleAtIsHeader(lines, i);
        if TitleAt(lines, i) {
          return;
        }
      }
      i := i + 1;
    }
  }

  /** The five lines spliced in front of a section start. */
  function Block(s: Section): seq<string> {
    ["", s.title, Repeat('=', |s.title|), Strip(s.content), ""]
  }

  /** The four lines appended at the end for a section that found no start
      to go in front of: the same, without the trailing blank line. */
  function EndBlock(s: Section): seq<string> {
    ["", s.title, Repeat('=', |s.title|), Strip(s.content)]
  }

  /** The block of every section. */
  function Blocks(secs: seq<Section>): (r: seq<seq<string>>)
    ensures |r| == |secs| && AllOfLength(r, 5)
    ensures forall i :: 0 <= i < |secs| ==> r[i] == Block(secs[i])
  {
    seq(|secs|, i requires 0 <= i < |secs| => Block(secs[i]))
  }

  /** The end block of every section. */
  function EndBlocks(secs: seq<Section>): (r: seq<seq<string>>)
    ensures |r| == |secs| && AllOfLength(r, 4)
    ensures forall i :: 0 <= i < |secs| ==> r[i] == EndBlock(secs[i])
  {
    seq(|secs|, i requires 0 <= i < |secs| => EndBlock(secs[i]))
  }

  ghost predicate AllOfLength<T>(blocks: seq<seq<T>>, n: int) {
    forall i :: 0 <= i < |blocks| ==> |blocks[i]| == n
  }

  /** The blocks one after the other: the `extend` calls of the final loop. */
  function Flatten<T>(blocks: seq<seq<T>>): seq<T>
    decreases |blocks|
  {
    if blocks == [] then [] else Flatten(blocks[..|blocks| - 1]) + blocks[|blocks| - 1]
  }

  /** Insertion positions: each a line index of the document, or its end. */
  ghost predicate InRange(bs: seq<int>, n: int) {
    forall i :: 0 <= i < |bs| ==> 0 <= bs[i] <= n
  }

  /** Insertion positions within `lo..hi`, each after the one in front of
      it. */
  ghost predicate StrictlyAscending(bs: seq<int>, lo: int, hi: int)
    decreases |bs|
  {
    bs == [] || (lo <= bs[0] <= hi && StrictlyAscending(bs[1..], bs[0] + 1, hi))
  }

  lemma {:induction false} StrictlyAscendingPrefix(bs: seq<int>, lo: int, hi: int, m: int)
    requires StrictlyAscending(bs, lo, hi) && 0 <= m <= |bs|
    ensures StrictlyAscending(bs[..m], lo, hi)
    decreases |bs|
  {
    if m > 0 {
      StrictlyAscendingPrefix(bs[1..], bs[0] + 1, hi, m - 1);
      assert bs[..m][1..] == bs[1..][..m - 1];
    }
  }

  lemma {:induction false} StrictlyAscendingBounds(bs: seq<int>, lo: int, hi: int, i: int)
    requires StrictlyAscending(bs, lo, hi) && 0 <= i < |bs|
    ensures lo <= bs[i] <= hi
    decreases |bs|
  {
    if i > 0 {
      StrictlyAscendingBounds(bs[1..], bs[0] + 1, hi, i - 1);
    }
  }

  /** Strictly ascending positions are ordered pairwise. */
  lemma {:induction false} StrictlyAscendingOrder(bs: seq<int>, lo: int, hi: int, i: int, j: int)
    requires StrictlyAscending(bs, lo, hi) && 0 <= i < j < |bs|
    ensures bs[i] < bs[j]
    decreases |bs|
  {
    if i > 0 {
      StrictlyAscendingOrder(bs[1..], bs[0] + 1, hi, i - 1, j - 1);
    } else {
      StrictlyAscendingBounds(bs[1..], bs[0] + 1, hi, j - 1);
    }
  }

  /** Python's slice assignment `s[q:q] = block`. */
  function Splice<T>(s: seq<T>, q: int, block: seq<T>): seq<T>
    requires 0 <= q <= |s|
  {
    s[..q] + block + s[q..]
  }

  lemma SpliceParts<T>(s: seq<T>, q: int, block: seq<T>)
    requires 0 <= q <= |s|
    ensures var r := Splice(s, q, block);
      |r| == |s| + |block| && r[..q] == s[..q] && r[q..q + |block|] == block && r[q + |block|..] == s[q..]
  {
  }

  /** A five-line splice lands in front of what stood at its place. */
  lemma SpliceAt<T>(s: seq<T>, q: int, block: seq<T>)
    requires 0 <= q < |s| && |block| == 5
    ensures Splice(s, q, block)[q..q + 5] == block && Splice(s, q, block)[q + 5] == s[q]
  {
  }

  /** A splice leaves what stands before its place where it was. */
  lemma SpliceBefore<T>(s: seq<T>, q: int, block: seq<T>, a: int)
    requires 0 <= a && a + 5 < q <= |s|
    ensures Splice(s, q, block)[a..a + 5] == s[a..a + 5] && Splice(s, q, block)[a + 5] == s[a + 5]
  {
  }

  /** A splice keeps what was there, in its order. */
  lemma SpliceKeeps<T>(s: seq<T>, q: int, block: seq<T>)
    requires 0 <= q <= |s|
    ensures IsSubseq(s, Splice(s, q, block))
  {
    SubseqRefl(s[q..]);
    SubseqExtendLeft(s[q..], s[q..], block);
    SubseqRefl(s[..q]);
    SubseqConcat(s[..q], s[..q], s[q..], block + s[q..]);
    assert s == s[..q] + s[q..];
    assert Splice(s, q, block) == s[..q] + (block + s[q..]);
  }

  /** The first `m` positions and blocks meet the requirements of all of
      them. */
  lemma WovenPrefix<T>(lines: seq<T>, bs: seq<int>, blocks: seq<seq<T>>, m: int)
    requires InRange(bs, |lines|) && AllOfLength(blocks, 5) && 0 <= m <= |bs| && m <= |blocks|
    ensures |bs[..m]| == |blocks[..m]| == m && InRange(bs[..m], |lines|) && AllOfLength(blocks[..m], 5)
  {
  }

  /** The lines after the splicing loop has handled the first `|bs|`
      positions: block `i` went in at `bs[i] + 5 * i`, where line `bs[i]`
      stood after the `i` blocks before it. */
  function Interleave<T>(lines: seq<T>, bs: seq<int>, blocks: seq<seq<T>>): (r: seq<T>)
    requires |bs| == |blocks| && InRange(bs, |lines|) && AllOfLength(blocks, 5)
    ensures |r| == |lines| + 5 * |bs|
    decreases |bs|
  {
    if bs == [] then lines
    else
      var m := |bs| - 1;
      WovenPrefix(lines, bs, blocks, m);
      Splice(Interleave(lines, bs[..m], blocks[..m]), bs[m] + 5 * m, blocks[m])
  }

  /** Sections placed the way the script places them, over any lines and
      insertion positions: `blocks[i]` goes in front of line `starts[i]` for
      as many `i` as there are positions, `ends[j]` is appended for the
      rest. */
  function Weave<T>(lines: seq<T>, starts: seq<int>, blocks: seq<seq<T>>, ends: seq<seq<T>>): seq<T>
    requires InRange(starts, |lines|) && |blocks| == |ends| && AllOfLength(blocks, 5)
  {
    var k := if |blocks| < |starts| then |blocks| else |starts|;
    WovenPrefix(lines, starts, blocks, k);
    Interleave(lines, starts[..k], blocks[..k]) + Flatten(ends[k..])
  }

  /** The diluted document as a list of lines: the sections woven in at the
      section starts. */
  function Diluted(lines: seq<string>, secs: seq<Section>): seq<string> {
    StartsAreAscending(lines);
    Weave(lines, HeaderStarts(Stripped(lines), 0), Blocks(secs), EndBlocks(secs))
  }

  /** The lines are all kept, in their order. */
  lemma {:induction false} InterleaveKeepsLines<T>(lines: seq<T>, bs: seq<int>, blocks: seq<seq<T>>)
    requires |bs| == |blocks| && InRange(bs, |lines|) && AllOfLength(blocks, 5)
    ensures IsSubseq(lines, Interleave(lines, bs, blocks))
    decreases |bs|
  {
    if bs == [] {
      SubseqRefl(lines);
    } else {
      var m := |bs| - 1;
      WovenPrefix(lines, bs, blocks, m);
      var w := Interleave(lines, bs[..m], blocks[..m]);
      var r := Interleave(lines, bs, blocks);
      assert IsSubseq(lines, w) by {
        InterleaveKeepsLines(lines, bs[..m], blocks[..m]);
      }
      assert IsSubseq(w, r) by {
        SpliceKeeps(w, bs[m] + 5 * m, blocks[m]);
      }
      SubseqTrans(lines, w, r);
    }
  }

  /** A line at or below every position has moved down five lines per
      block. */
  lemma {:induction false} InterleaveShifts<T>(lines: seq<T>, bs: seq<int>, blocks: seq<seq<T>>, j: int)
    requires |bs| == |blocks| && InRange(bs, |lines|) && AllOfLength(blocks, 5)
    requires 0 <= j < |lines| && forall i :: 0 <= i < |bs| ==> bs[i] <= j
    ensures Interleave(lines, bs, blocks)[j + 5 * |bs|] == lines[j]
    decreases |bs|
  {
    if bs != [] {
      var m := |bs| - 1;
      WovenPrefix(lines, bs, blocks, m);
      var w := Interleave(lines, bs[..m], blocks[..m]);
      var q := bs[m] + 5 * m;
      InterleaveShifts(lines, bs[..m], blocks[..m], j);
      SpliceParts(w, q, blocks[m]);
      assert Splice(w, q, blocks[m])[q + 5..][j + 5 * m - q] == w[q..][j + 5 * m - q];
    }
  }

  /** The block spliced in last sits right in front of the line it was
      placed at. */
  lemma InterleavePlacesLast<T>(lines: seq<T>, bs: seq<int>, blocks: seq<seq<T>>)
    requires |bs| == |blocks| && InRange(bs, |lines|) && AllOfLength(blocks, 5)
    requires StrictlyAscending(bs, 0, |lines|) && bs != [] && bs[|bs| - 1] < |lines|
    ensures var m := |bs| - 1;
      var q := bs[m] + 5 * m;
      var r := Interleave(lines, bs, blocks);
      r[q..q + 5] == blocks[m] && r[q + 5] == lines[bs[m]]
  {
    var m := |bs| - 1;
    WovenPrefix(lines, bs, blocks, m);
    var w := Interleave(lines, bs[..m], blocks[..m]);
    var top := bs[m] + 5 * m;
    assert w[top] == lines[bs[m]] by {
      forall k | 0 <= k < m
        ensures bs[..m][k] <= bs[m]
      {
        StrictlyAscendingOrder(bs, 0, |lines|, k, m);
      }
      InterleaveShifts(lines, bs[..m], blocks[..m], bs[m]);
    }
    assert |blocks[m]| == 5;
    SpliceAt(w, top, blocks[m]);
  }

  /** Block `i` sits `5 * i` lines past the original place of line `bs[i]`,
      and that line follows it. */
  lemma {:induction false} InterleavePlaces<T>(lines: seq<T>, bs: seq<int>, blocks: seq<seq<T>>, i: int)
    requires |bs| == |blocks| && InRange(bs, |lines|) && AllOfLength(blocks, 5)
    requires StrictlyAscending(bs, 0, |lines|) && 0 <= i < |bs| && bs[i] < |lines|
    ensures var q := bs[i] + 5 * i;
      var r := Interleave(lines, bs, blocks);
      r[q..q + 5] == blocks[i] && r[q + 5] == lines[bs[i]]
    decreases |bs|
  {
    var m := |bs| - 1;
    if i == m {
      InterleavePlacesLast(lines, bs, blocks);
    } else {
      WovenPrefix(lines, bs, blocks, m);
      var w := Interleave(lines, bs[..m], blocks[..m]);
      var q := bs[i] + 5 * i;
      assert w[q..q + 5] == blocks[i] && w[q + 5] == lines[bs[i]] by {
        StrictlyAscendingPrefix(bs, 0, |lines|, m);
        assert bs[..m][i] == bs[i] && blocks[..m][i] == blocks[i];
        InterleavePlaces(lines, bs[..m], blocks[..m], i);
      }
      StrictlyAscendingOrder(bs, 0, |lines|, i, m);
      SpliceBefore(w, bs[m] + 5 * m, blocks[m], q);
    }
  }

  /** The blocks follow each other in order, four lines each. */
  lemma {:induction false} FlattenPlaces<T>(blocks: seq<seq<T>>, i: int)
    requires AllOfLength(blocks, 4) && 0 <= i < |blocks|
    ensures |Flatten(blocks)| == 4 * |blocks|
    ensures Flatten(blocks)[4 * i..4 * i + 4] == blocks[i]
    decreases |blocks|
  {
    var init := blocks[..|blocks| - 1];
    var last := blocks[|blocks| - 1];
    FlattenLength(init);
    if i < |blocks| - 1 {
      FlattenPlaces(init, i);
      ConcatSliceLeft(Flatten(init), last, 4 * i, 4 * i + 4);
    } else {
      ConcatSliceRight(Flatten(init), last, 0, 4);
    }
  }

  lemma {:induction false} FlattenLength<T>(blocks: seq<seq<T>>)
    requires AllOfLength(blocks, 4)
    ensures |Flatten(blocks)| == 4 * |blocks|
    decreases |blocks|
  {
    if blocks != [] {
      FlattenLength(blocks[..|blocks| - 1]);
    }
  }

  /** Five more lines per section placed in front of a position, four
      more per section appended. */
  lemma WeaveLength<T>(lines: seq<T>, starts: seq<int>, blocks: seq<seq<T>>, ends: seq<seq<T>>)
    requires InRange(starts, |lines|) && |blocks| == |ends| && AllOfLength(blocks, 5) && AllOfLength(ends, 4)
    ensures var k := if |blocks| < |starts| then |blocks| else |starts|;
      |Weave(lines, starts, blocks, ends)| == |lines| + 5 * k + 4 * (|blocks| - k)
  {
    var k := if |blocks| < |starts| then |blocks| else |starts|;
    FlattenLength(ends[k..]);
  }

  /** The lines are all kept, in their order. */
  lemma WeaveKeepsLines<T>(lines: seq<T>, starts: seq<int>, blocks: seq<seq<T>>, ends: seq<seq<T>>)
    requires InRange(starts, |lines|) && |blocks| == |ends| && AllOfLength(blocks, 5)
    ensures IsSubseq(lines, Weave(lines, starts, blocks, ends))
  {
    var k := if |blocks| < |starts| then |blocks| else |starts|;
    WovenPrefix(lines, starts, blocks, k);
    InterleaveKeepsLines(lines, starts[..k], blocks[..k]);
    SubseqExtendRight(lines, Interleave(lines, starts[..k], blocks[..k]), Flatten(ends[k..]));
  }

  /** Block `i`, for `i` below the number of positions, sits right in front
      of line `starts[i]`, `5 * i` lines past its original place. */
  lemma WeavePlacesBetween<T>(lines: seq<T>, starts: seq<int>, blocks: seq<seq<T>>, ends: seq<seq<T>>, i: int)
    requires InRange(starts, |lines|) && StrictlyAscending(starts, 0, |lines|)
    requires |blocks| == |ends| && AllOfLength(blocks, 5)
    requires 0 <= i < |blocks| && i < |starts| && starts[i] < |lines|
    ensures var q := starts[i] + 5 * i;
      var d := Weave(lines, starts, blocks, ends);
      && q + 5 < |d| && d[q..q + 5] == blocks[i] && d[q + 5] == lines[starts[i]]
  {
    var k := if |blocks| < |starts| then |blocks| else |starts|;
    WovenPrefix(lines, starts, blocks, k);
    var w := Interleave(lines, starts[..k], blocks[..k]);
    var q := starts[i] + 5 * i;
    assert w[q..q + 5] == blocks[i] && w[q + 5] == lines[starts[i]] by {
      assert blocks[..k][i] == blocks[i] && starts[..k][i] == starts[i];
      StrictlyAscendingPrefix(starts, 0, |lines|, k);
      InterleavePlaces(lines, starts[..k], blocks[..k], i);
    }
    ConcatSliceLeft(w, Flatten(ends[k..]), q, q + 5);
  }

  /** End block `j`, for `j` at or past the number of positions, follows
      the lines, every placed block and the end blocks before it. */
  lemma WeaveAppendsRest<T>(lines: seq<T>, starts: seq<int>, blocks: seq<seq<T>>, ends: seq<seq<T>>, j: int)
    requires InRange(starts, |lines|) && |blocks| == |ends| && AllOfLength(blocks, 5) && AllOfLength(ends, 4)
    requires |starts| <= j < |blocks|
    ensures var at := |lines| + 5 * |starts| + 4 * (j - |starts|);
      var d := Weave(lines, starts, blocks, ends);
      && at + 4 <= |d| && d[at..at + 4] == ends[j]
  {
    var k := |starts|;
    assert starts[..k] == starts;
    WovenPrefix(lines, starts, blocks, k);
    var w := Interleave(lines, starts[..k], blocks[..k]);
    var rest := ends[k..];
    FlattenPlaces(rest, j - k);
    ConcatSliceRight(w, Flatten(rest), 4 * (j - k), 4 * (j - k) + 4);
  }

  /** The diluted document has five more lines per section placed in front
      of a section start and four more per section appended at the end. */
  lemma DilutedLength(lines: seq<string>, secs: seq<Section>)
    ensures var n := |HeaderStarts(Stripped(lines), 0)|;
      var k := if |secs| < n then |secs| else n;
      |Diluted(lines, secs)| == |lines| + 5 * k + 4 * (|secs| - k)
  {
    StartsAreAscending(lines);
    WeaveLength(lines, HeaderStarts(Stripped(lines), 0), Blocks(secs), EndBlocks(secs));
  }

  /** Nothing of the original is lost or reordered: its lines are a
      subsequence of the diluted document. */
  lemma DilutedKeepsLines(lines: seq<string>, secs: seq<Section>)
    ensures IsSubseq(lines, Diluted(lines, secs))
  {
    StartsAreAscending(lines);
    WeaveKeepsLines(lines, HeaderStarts(Stripped(lines), 0), Blocks(secs), EndBlocks(secs));
  }

  /** Section `i`, for `i` below the number of section starts, goes right in
      front of the `i`-th section title, `5 * i` lines further down than
      that title stood. */
  lemma DilutedPlacesBetween(lines: seq<string>, secs: seq<Section>, i: int)
    requires 0 <= i < |secs| && i < |HeaderStarts(Stripped(lines), 0)|
    ensures var b := HeaderStarts(Stripped(lines), 0)[i];
      var d := Diluted(lines, secs);
      && 0 <= b < |lines|
      && b + 5 * i + 5 < |d|
      && d[b + 5 * i..b + 5 * i + 5] == Blocks(secs)[i]
      && d[b + 5 * i + 5] == lines[b]
  {
    var starts := HeaderStarts(Stripped(lines), 0);
    StartsAreAscending(lines);
    WeavePlacesBetween(lines, starts, Blocks(secs), EndBlocks(secs), i);
  }

  /** Section `j`, for `j` at or past the number of section starts, is
      appended after the document and the sections before it. */
  lemma DilutedAppendsRest(lines: seq<string>, secs: seq<Section>, j: int)
    requires |HeaderStarts(Stripped(lines), 0)| <= j < |secs|
    ensures var k := |HeaderStarts(Stripped(lines), 0)|;
      var at := |lines| + 5 * k + 4 * (j - k);
      var d := Diluted(lines, secs);
      && at + 4 <= |d| && d[at..at + 4] == EndBlocks(secs)[j]
  {
    StartsAreAscending(lines);
    WeaveAppendsRest(lines, HeaderStarts(Stripped(lines), 0), Blocks(secs), EndBlocks(secs), j);
  }

  /** Without title lines the scan records nothing. */
  lemma {:induction false} NoTitlesNoStarts(sl: seq<string>, p: nat)
    requires forall j :: !IsHeader(sl, j)
    ensures HeaderStarts(sl, p) == []
    decreases |sl| - p
  {
    if p + 1 < |sl| {
      NoTitlesNoStarts(sl, p + 1);
    }
  }

  /** A document without section titles gets every section at its end. */
  lemma DilutedWithoutTitles(lines: seq<string>, secs: seq<Section>)
    requires forall j :: !IsHeader(Stripped(lines), j)
    ensures Diluted(lines, secs) == lines + Flatten(EndBlocks(secs))
  {
    NoTitlesNoStarts(Stripped(lines), 0);
    assert lines[0..] == lines;
    assert EndBlocks(secs)[0..] == EndBlocks(secs);
    assert Diluted(lines, secs) == Interleave(lines, [], []) + Flatten(EndBlocks(secs)[0..]);
  }

  /** `insert_sections_strategically(original_content, irrelevant_sections)`,
      with `shuffled` the sections after `random.shuffle`. */
  method InsertSectionsStrategically(originalContent: string, shuffled: seq<Section>) returns (text: string)
    ensures text == Join(Diluted(Split(originalContent, '\n'), shuffled), "\n")
  {
    var lines := Split(originalContent, '\n');
    var boundaries := FindSectionBoundaries(lines);
    var sectionsToInsert := if |shuffled| < |boundaries| - 1 then |shuffled| else |boundaries| - 1;
    StartsAreAscending(lines);
    assert boundaries[..sectionsToInsert] == HeaderStarts(Stripped(lines), 0)[..sectionsToInsert];
    var resultLines := SpliceBlocks(lines, boundaries[..sectionsToInsert], Blocks(shuffled)[..sectionsToInsert]);
    resultLines := AppendBlocks(resultLines, EndBlocks(shuffled)[sectionsToInsert..]);
    text := Join(resultLines, "\n");
  }

  /** The first loop of `insert_sections_strategically`: block `i` goes in
      at `boundaries[i] + offset`, where `offset` counts the lines inserted
      so far. */
  method SpliceBlocks<T>(lines: seq<T>, boundaries: seq<int>, blocks: seq<seq<T>>) returns (resultLines: seq<T>)
    requires InRange(boundaries, |lines|) && |boundaries| == |blocks| && AllOfLength(blocks, 5)
    ensures resultLines == Interleave(lines, boundaries, blocks)
  {
    resultLines := lines;
    var offset := 0;
    assert boundaries[..0] == [] && blocks[..0] == [];
    for i := 0 to |boundaries|
      invariant offset == 5 * i
      invariant resultLines == Interleave(lines, boundaries[..i], blocks[..i])
    {
      var pos := boundaries[i];
      var sectionContent := blocks[i];
      var insertPos := pos + offset;
      assert boundaries[..i + 1][..i] == boundaries[..i] && blocks[..i + 1][..i] == blocks[..i];
      resultLines := resultLines[..insertPos] + sectionContent + resultLines[insertPos..];
      offset := offset + |sectionContent|;
    }
    assert boundaries[..|boundaries|] == boundaries && blocks[..|blocks|] == blocks;
  }

  /** The second loop: `result_lines.extend(end_content)` for each
      remaining section. */
  method AppendBlocks<T>(lines: seq<T>, ends: seq<seq<T>>) returns (resultLines: seq<T>)
    ensures resultLines == lines + Flatten(ends)
  {
    resultLines := lines;
    for i := 0 to |ends|
      invariant resultLines == lines + Flatten(ends[..i])
    {
      assert ends[..i + 1][..i] == ends[..i];
      resultLines := resultLines + ends[i];
    }
    assert ends[..|ends|] == ends;
  }
}
