/**
 * The Tree half of hierdoc.py: an outline of paragraphs nested by level.
 *
 * Outline is the value a Tree object holds; the functions on Outline say what
 * the Tree methods compute, and Tree keeps its own Outline as a ghost model.
 */
module HierdocTree {
  import opened Wrappers
  import opened Text
  import opened Hierdoc

  /** A tree's title text and level, and its subtrees in order. */
  datatype Outline = Outline(text: string, level: int, children: seq<Outline>)

  // ---------------------------------------------------------------- adding paragraphs

  /**
   * Tree(text, level) for a single line: the level absorbs the text's indent,
   * while the title keeps the line as given (set_hiertext re-reads it from the
   * split lines).
   */
  function NewSubtree(text: string, level: int): (r: Outline)
    requires IsLine(text)
    ensures r.children == [] && r.text == text
    ensures r.level == level + Adjust(text).1
  {
    Outline(text, level + Adjust(text).1, [])
  }

  /**
   * add_paragraph: descend into the last subtree when the paragraph is deeper
   * than it, otherwise start a new last subtree.
   */
  function AddPar(t: Outline, text: string, level: int): (r: Outline)
    requires IsLine(text)
    ensures r.text == t.text && r.level == t.level
    decreases t
  {
    var n := |t.children|;
    if n > 0 && level > t.children[n - 1].level then
      t.(children := t.children[..n - 1] + [AddPar(t.children[n - 1], text, level)])
    else
      t.(children := t.children + [NewSubtree(text, level)])
  }

  /** add_paragraph's choice, stated on the children: all but the last are untouched. */
  lemma AddParShape(t: Outline, text: string, level: int)
    requires IsLine(text)
    ensures var n := |t.children|; var r := AddPar(t, text, level);
      if n > 0 && level > t.children[n - 1].level then
        |r.children| == n && r.children[..n - 1] == t.children[..n - 1]
        && r.children[n - 1] == AddPar(t.children[n - 1], text, level)
      else
        |r.children| == n + 1 && r.children[..n] == t.children
        && r.children[n] == Outline(text, level + Adjust(text).1, [])
  {
  }

  /** The descending branch of add_paragraph: the last child, once it took the paragraph, replaces the old one. */
  lemma AddParToLast(t: Outline, text: string, level: int, last: Outline)
    requires IsLine(text)
    requires |t.children| > 0 && level > t.children[|t.children| - 1].level
    requires last == AddPar(t.children[|t.children| - 1], text, level)
    ensures AddPar(t, text, level) == t.(children := t.children[..|t.children| - 1] + [last])
  {
  }

  /** The paragraph a line becomes (Paragraph(line) with level 0) is again a line. */
  lemma ParagraphOfLine(line: string)
    requires IsLine(line)
    ensures IsLine(Adjust(line).0) && Adjust(Adjust(line).0).1 == 0
  {
    AdjustIdempotent(line);
  }

  /** add_line(text): the paragraph Paragraph(text, 0) added to the tree. */
  function AddLineTo(t: Outline, line: string): (r: Outline)
    requires IsLine(line)
    ensures r.text == t.text && r.level == t.level
  {
    ParagraphOfLine(line);
    AddPar(t, Adjust(line).0, Adjust(line).1)
  }

  /** A line starting with a tab has every tab replaced by an indent step when replaceTab holds. */
  function PrepareLine(line: string, replaceTab: bool): (r: string)
    requires IsLine(line)
    ensures IsLine(r)
    ensures !(replaceTab && line[0] == '\t') ==> r == line
    ensures replaceTab && line[0] == '\t' ==> '\t' !in r
  {
    if replaceTab && line[0] == '\t' then
      ReplaceCharFree(line, '\t', Indent, '\n');
      ReplaceChar(line, '\t', Indent)
    else line
  }

  /** add_hiertext's loop: every line added in order. */
  function FoldLines(t: Outline, lines: seq<string>, replaceTab: bool): (r: Outline)
    requires forall i :: 0 <= i < |lines| ==> IsLine(lines[i])
    ensures r.text == t.text && r.level == t.level
    decreases |lines|
  {
    if lines == [] then t
    else
      var n := |lines| - 1;
      AddLineTo(FoldLines(t, lines[..n], replaceTab), PrepareLine(lines[n], replaceTab))
  }

  // ---------------------------------------------------------------- commented subtrees

  /**
   * A subtree is commented when its title paragraph, Paragraph(text, level),
   * carries a standard marker from markers.
   */
  predicate Commented(t: Outline, markers: set<char>) {
    var m := MarkOf(Adjust(t.text).0, true);
    m.Some? && m.value in markers
  }

  /**
   * remove_commented_subtrees as written. The loop removes from the list it
   * is iterating, so the subtree right after a removed one is neither
   * examined nor pruned.
   */
  function Prune(t: Outline, markers: set<char>): (r: Outline)
    ensures r.text == t.text && r.level == t.level
    decreases t
  {
    t.(children := PruneList(t.children, markers))
  }

  function PruneList(ts: seq<Outline>, markers: set<char>): (r: seq<Outline>)
    ensures |r| <= |ts|
    decreases ts
  {
    if ts == [] then []
    else if Commented(ts[0], markers) then
      if |ts| == 1 then [] else [ts[1]] + PruneList(ts[2..], markers)
    else
      [Prune(ts[0], markers)] + PruneList(ts[1..], markers)
  }

  /** The title and level of each tree. */
  function Roots(ts: seq<Outline>): (r: seq<(string, int)>)
    ensures |r| == |ts|
    ensures forall i :: 0 <= i < |ts| ==> r[i] == (ts[i].text, ts[i].level)
  {
    if ts == [] then [] else [(ts[0].text, ts[0].level)] + Roots(ts[1..])
  }

  /** a is b with some elements left out, order kept. */
  ghost predicate IsSubsequence<T>(a: seq<T>, b: seq<T>)
    decreases |b|
  {
    if a == [] then true
    else if b == [] then false
    else (a[0] == b[0] && IsSubsequence(a[1..], b[1..])) || IsSubsequence(a, b[1..])
  }

  lemma {:induction false} SubsequenceOfTail<T>(a: seq<T>, b: seq<T>)
    requires b != [] && IsSubsequence(a, b[1..])
    ensures IsSubsequence(a, b)
  {
  }

  lemma {:induction false} SubsequenceRefl<T>(b: seq<T>)
    ensures IsSubsequence(b, b)
    decreases |b|
  {
    if b != [] {
      SubsequenceRefl(b[1..]);
    }
  }

  /**
   * Pruning removes whole subtrees and nothing else: the surviving titles are
   * the original titles in their original order, with some left out.
   */
  lemma {:induction false} PruneKeepsOrder(ts: seq<Outline>, markers: set<char>)
    ensures IsSubsequence(Roots(PruneList(ts, markers)), Roots(ts))
    decreases |ts|
  {
    var r := PruneList(ts, markers);
    if ts == [] {
    } else if Commented(ts[0], markers) {
      if |ts| == 1 {
      } else {
        PruneKeepsOrder(ts[2..], markers);
        assert Roots(r)[1..] == Roots(PruneList(ts[2..], markers));
        assert Roots(ts)[1..][1..] == Roots(ts[2..]);
        assert IsSubsequence(Roots(r), Roots(ts)[1..]);
        SubsequenceOfTail(Roots(r), Roots(ts));
      }
    } else {
      PruneKeepsOrder(ts[1..], markers);
      assert Roots(r)[1..] == Roots(PruneList(ts[1..], markers));
      assert Roots(ts)[1..] == Roots(ts[1..]);
    }
  }

  /** Every subtree whose title is not commented survives, pruned itself or (right after a removal) as it was. */
  lemma {:induction false} PruneKeepsUncommented(ts: seq<Outline>, markers: set<char>, i: int)
    requires 0 <= i < |ts| && !Commented(ts[i], markers)
    ensures Prune(ts[i], markers) in PruneList(ts, markers) || ts[i] in PruneList(ts, markers)
    decreases |ts|
  {
    if i == 0 {
    } else if Commented(ts[0], markers) {
      if i > 1 {
        PruneKeepsUncommented(ts[2..], markers, i - 2);
      }
    } else {
      PruneKeepsUncommented(ts[1..], markers, i - 1);
    }
  }

  /** Of two commented subtrees in a row, the second one is kept. */
  lemma SecondCommentedSurvives(x: Outline, y: Outline, markers: set<char>)
    requires Commented(x, markers) && Commented(y, markers)
    ensures PruneList([x, y], markers) == [y]
    ensures exists k :: 0 <= k < |PruneList([x, y], markers)| && Commented(PruneList([x, y], markers)[k], markers)
  {
    assert [x, y][2..] == [];
    assert PruneList([x, y], markers)[0] == y;
  }

  /** No subtree anywhere below the root is commented. */
  ghost predicate Clear(t: Outline, markers: set<char>)
    decreases t
  {
    forall i :: 0 <= i < |t.children| ==> !Commented(t.children[i], markers) && Clear(t.children[i], markers)
  }

  /** Pruning a tree with nothing commented changes nothing. */
  lemma {:induction false} PruneClear(t: Outline, markers: set<char>)
    requires Clear(t, markers)
    ensures Prune(t, markers) == t
    decreases t, 1
  {
    PruneListClear(t.children, markers);
  }

  lemma {:induction false} PruneListClear(ts: seq<Outline>, markers: set<char>)
    requires forall i :: 0 <= i < |ts| ==> !Commented(ts[i], markers) && Clear(ts[i], markers)
    ensures PruneList(ts, markers) == ts
    decreases ts, 0
  {
    if ts != [] {
      PruneClear(ts[0], markers);
      PruneListClear(ts[1..], markers);
      assert [ts[0]] + ts[1..] == ts;
    }
  }

  /** remove_commented_subtrees as evidently intended: every commented subtree goes. */
  function PruneAll(t: Outline, markers: set<char>): (r: Outline)
    ensures r.text == t.text && r.level == t.level
    decreases t
  {
    t.(children := PruneAllList(t.children, markers))
  }

  function PruneAllList(ts: seq<Outline>, markers: set<char>): (r: seq<Outline>)
    ensures |r| <= |ts|
    decreases ts
  {
    if ts == [] then []
    else if Commented(ts[0], markers) then PruneAllList(ts[1..], markers)
    else [PruneAll(ts[0], markers)] + PruneAllList(ts[1..], markers)
  }

  /** The corrected pruning leaves nothing commented below the root. */
  lemma {:induction false} PruneAllClears(t: Outline, markers: set<char>)
    ensures Clear(PruneAll(t, markers), markers)
    decreases t, 1
  {
    PruneAllListClears(t.children, markers);
    assert PruneAll(t, markers).children == PruneAllList(t.children, markers);
  }

  lemma {:induction false} PruneAllListClears(ts: seq<Outline>, markers: set<char>)
    ensures var r := PruneAllList(ts, markers);
      forall i :: 0 <= i < |r| ==> !Commented(r[i], markers) && Clear(r[i], markers)
    decreases ts, 0
  {
    if ts != [] {
      PruneAllListClears(ts[1..], markers);
      if !Commented(ts[0], markers) {
        PruneAllClears(ts[0], markers);
        var r := PruneAllList(ts, markers);
        forall i | 0 <= i < |r| ensures !Commented(r[i], markers) && Clear(r[i], markers) {
          if i > 0 {
            assert r[i] == PruneAllList(ts[1..], markers)[i - 1];
          }
        }
      }
    }
  }

  /** The two prunings agree on trees with nothing commented: both leave them as they are. */
  lemma {:induction false} PruneAllClear(t: Outline, markers: set<char>)
    requires Clear(t, markers)
    ensures PruneAll(t, markers) == t
    decreases t, 1
  {
    PruneAllListClear(t.children, markers);
  }

  lemma {:induction false} PruneAllListClear(ts: seq<Outline>, markers: set<char>)
    requires forall i :: 0 <= i < |ts| ==> !Commented(ts[i], markers) && Clear(ts[i], markers)
    ensures PruneAllList(ts, markers) == ts
    decreases ts, 0
  {
    if ts != [] {
      PruneAllClear(ts[0], markers);
      PruneAllListClear(ts[1..], markers);
      assert [ts[0]] + ts[1..] == ts;
    }
  }

  // ---------------------------------------------------------------- whole texts

  /** add_hiertext(texts, replace_tab, skip_commented) applied to the tree t. */
  function Hiertext(t: Outline, texts: seq<string>, replaceTab: bool, skipCommented: bool): (r: Outline)
    ensures r.text == t.text && r.level == t.level
  {
    var m := FoldLines(t, SplitAll(texts), replaceTab);
    if skipCommented then Prune(m, SkipMarkers) else m
  }

  /**
   * Tree(text, level): IndexError when the text has no line; otherwise the
   * first line is the title, the level absorbs the whole text's indent, and
   * the other lines are added with tabs replaced and comments pruned.
   */
  function Parse(text: string, level: int): (r: Result<Outline>)
    ensures r.Err? <==> SplitLines(text) == []
    ensures r.Err? ==> r.error == IndexError
    ensures r.Ok? ==> r.value.text == SplitLines(text)[0] && r.value.level == level + Adjust(text).1
  {
    var lines := SplitLines(text);
    if lines == [] then Err(IndexError)
    else Ok(Titled(lines, level + Adjust(text).1))
  }

  /** The first line as the title at the given level, the other lines added below it. */
  function Titled(lines: seq<string>, level: int): (r: Outline)
    requires lines != []
    ensures r.text == lines[0] && r.level == level
  {
    Hiertext(Outline(lines[0], level, []), lines[1..], true, true)
  }

  // ---------------------------------------------------------------- counts

  /** get_lines_count: the title line plus the lines of all subtrees. */
  function LinesOf(t: Outline): nat
    decreases t, 1
  {
    1 + LinesOfList(t.children)
  }

  function LinesOfList(ts: seq<Outline>): nat
    decreases ts, 0
  {
    if ts == [] then 0 else LinesOfList(ts[..|ts| - 1]) + LinesOf(ts[|ts| - 1])
  }

  /** get_depth: -1 for no subtrees, else the deepest subtree, plus one. */
  function DepthOf(t: Outline): (r: int)
    ensures r >= 0
    decreases t, 1
  {
    DepthOfList(t.children) + 1
  }

  function DepthOfList(ts: seq<Outline>): (r: int)
    ensures r >= -1
    ensures ts != [] ==> r >= 0
    decreases ts, 0
  {
    if ts == [] then -1
    else
      var d := DepthOf(ts[|ts| - 1]);
      var m := DepthOfList(ts[..|ts| - 1]);
      if d > m then d else m
  }

  lemma {:induction false} LinesListAppend(ts: seq<Outline>, t: Outline)
    ensures LinesOfList(ts + [t]) == LinesOfList(ts) + LinesOf(t)
  {
    assert (ts + [t])[..|ts|] == ts;
  }

  /** Adding a paragraph adds exactly one line. */
  lemma {:induction false} AddParAddsLine(t: Outline, text: string, level: int)
    requires IsLine(text)
    ensures LinesOf(AddPar(t, text, level)) == LinesOf(t) + 1
    decreases t
  {
    var n := |t.children|;
    if n > 0 && level > t.children[n - 1].level {
      AddParAddsLine(t.children[n - 1], text, level);
      LinesListAppend(t.children[..n - 1], AddPar(t.children[n - 1], text, level));
      assert t.children[..n - 1] + [t.children[n - 1]] == t.children;
      LinesListAppend(t.children[..n - 1], t.children[n - 1]);
    } else {
      LinesListAppend(t.children, NewSubtree(text, level));
    }
  }

  /** Folding n lines into a tree adds n lines. */
  lemma {:induction false} FoldLinesAddsLines(t: Outline, lines: seq<string>, replaceTab: bool)
    requires forall i :: 0 <= i < |lines| ==> IsLine(lines[i])
    ensures LinesOf(FoldLines(t, lines, replaceTab)) == LinesOf(t) + |lines|
    decreases |lines|
  {
    if lines != [] {
      var n := |lines| - 1;
      FoldLinesAddsLines(t, lines[..n], replaceTab);
      var line := PrepareLine(lines[n], replaceTab);
      ParagraphOfLine(line);
      AddParAddsLine(FoldLines(t, lines[..n], replaceTab), Adjust(line).0, Adjust(line).1);
    }
  }

  /**
   * A leaf has depth 0; any other tree is one deeper than its deepest
   * subtree: no subtree reaches its depth and some subtree is one less.
   */
  lemma DepthOfTree(t: Outline)
    ensures t.children == [] ==> DepthOf(t) == 0
    ensures t.children != [] ==>
      (forall i :: 0 <= i < |t.children| ==> DepthOf(t.children[i]) < DepthOf(t))
      && exists i :: 0 <= i < |t.children| && DepthOf(t.children[i]) == DepthOf(t) - 1
  {
    DepthListBounds(t.children);
  }

  lemma {:induction false} DepthListBounds(ts: seq<Outline>)
    ensures forall i :: 0 <= i < |ts| ==> DepthOf(ts[i]) <= DepthOfList(ts)
    ensures ts != [] ==> exists i :: 0 <= i < |ts| && DepthOf(ts[i]) == DepthOfList(ts)
    decreases |ts|
  {
    if ts != [] {
      var n := |ts| - 1;
      DepthListBounds(ts[..n]);
      forall i | 0 <= i < n ensures DepthOf(ts[i]) <= DepthOfList(ts) {
        assert ts[i] == ts[..n][i];
      }
      if DepthOf(ts[n]) <= DepthOfList(ts[..n]) {
        var i :| 0 <= i < n && DepthOf(ts[..n][i]) == DepthOfList(ts[..n]);
        assert ts[i] == ts[..n][i];
      }
    }
  }

  // ---------------------------------------------------------------- texts without comments

  /** A line whose paragraph carries no marker from markers. */
  predicate LineClear(line: string, markers: set<char>)
    requires IsLine(line)
  {
    var m := MarkOf(Adjust(line).0, true);
    !(m.Some? && m.value in markers)
  }

  lemma {:induction false} AddParClear(t: Outline, text: string, level: int, markers: set<char>)
    requires IsLine(text) && Clear(t, markers) && !Commented(NewSubtree(text, level), markers)
    ensures Clear(AddPar(t, text, level), markers)
    decreases t
  {
    var n := |t.children|;
    var r := AddPar(t, text, level);
    if n > 0 && level > t.children[n - 1].level {
      AddParClear(t.children[n - 1], text, level, markers);
      forall i | 0 <= i < |r.children| ensures !Commented(r.children[i], markers) && Clear(r.children[i], markers) {
        if i < n - 1 {
          assert r.children[i] == t.children[i];
        }
      }
    } else {
      forall i | 0 <= i < |r.children| ensures !Commented(r.children[i], markers) && Clear(r.children[i], markers) {
        if i < n {
          assert r.children[i] == t.children[i];
        }
      }
    }
  }

  /** Folding lines none of which is commented keeps a clear tree clear. */
  lemma {:induction false} FoldLinesClear(t: Outline, lines: seq<string>, markers: set<char>)
    requires forall i :: 0 <= i < |lines| ==> IsLine(lines[i])
    requires forall i :: 0 <= i < |lines| ==> LineClear(PrepareLine(lines[i], true), markers)
    requires Clear(t, markers)
    ensures Clear(FoldLines(t, lines, true), markers)
    decreases |lines|
  {
    if lines != [] {
      var n := |lines| - 1;
      FoldLinesClear(t, lines[..n], markers);
      var line := PrepareLine(lines[n], true);
      ParagraphOfLine(line);
      AddParClear(FoldLines(t, lines[..n], true), Adjust(line).0, Adjust(line).1, markers);
    }
  }

  /**
   * Parsing a text whose lines after the first are not commented keeps every
   * line: the tree has one line per non-empty '\n'-separated piece.
   */
  lemma ParseCountsLines(text: string, level: int)
    requires SplitLines(text) != []
    requires var lines := SplitLines(text);
      forall i :: 1 <= i < |lines| ==> LineClear(PrepareLine(lines[i], true), SkipMarkers)
    ensures Parse(text, level).Ok?
    ensures LinesOf(Parse(text, level).value) == |SplitLines(text)|
  {
    var lines := SplitLines(text);
    var rest := lines[1..];
    SplitAllOfLines(rest);
    var root := Outline(lines[0], level + Adjust(text).1, []);
    forall i | 0 <= i < |rest| ensures LineClear(PrepareLine(rest[i], true), SkipMarkers) {
      assert rest[i] == lines[i + 1];
    }
    FoldLinesClear(root, rest, SkipMarkers);
    PruneClear(FoldLines(root, rest, true), SkipMarkers);
    FoldLinesAddsLines(root, rest, true);
    assert LinesOf(root) == 1;
  }

  /** One step of PruneList over a suffix of the subtrees. */
  lemma PruneStep(ts: seq<Outline>, j: int, markers: set<char>)
    requires 0 <= j < |ts|
    ensures Commented(ts[j], markers) && j + 1 == |ts| ==> PruneList(ts[j..], markers) == []
    ensures Commented(ts[j], markers) && j + 1 < |ts| ==>
      PruneList(ts[j..], markers) == [ts[j + 1]] + PruneList(ts[j + 2..], markers)
    ensures !Commented(ts[j], markers) ==>
      PruneList(ts[j..], markers) == [Prune(ts[j], markers)] + PruneList(ts[j + 1..], markers)
  {
    assert ts[j..][0] == ts[j];
    if j + 1 < |ts| {
      assert ts[j..][1] == ts[j + 1];
      assert ts[j..][2..] == ts[j + 2..];
    }
    assert ts[j..][1..] == ts[j + 1..];
  }

  /** The bookkeeping of the pruning loop after removing the commented subtree at index i. */
  lemma DropStep(cs: seq<Outline>, orig: seq<Outline>, i: int, j: int, markers: set<char>)
    requires 0 <= i < |cs| && 0 <= j < |orig| && |cs| - i == |orig| - j
    requires cs[i..] == orig[j..] && Commented(orig[j], markers)
    ensures var c := cs[..i] + cs[i + 1..];
      if i < |c| then
        c[i + 1..] == orig[j + 2..] && c[..i + 1] + PruneList(orig[j + 2..], markers) == cs[..i] + PruneList(orig[j..], markers)
      else
        c[i..] == orig[j + 1..] && c[..i] + PruneList(orig[j + 1..], markers) == cs[..i] + PruneList(orig[j..], markers)
  {
    PruneStep(orig, j, markers);
    var c := cs[..i] + cs[i + 1..];
    assert c[..i] == cs[..i];
    assert c[i..] == cs[i + 1..];
    assert cs[i + 1..] == orig[j + 1..] by {
      assert cs[i..][1..] == cs[i + 1..];
      assert orig[j..][1..] == orig[j + 1..];
    }
    if i < |c| {
      assert c[..i + 1] == cs[..i] + [orig[j + 1]];
      assert orig[j + 1..][1..] == orig[j + 2..];
      assert c[i + 1..] == c[i..][1..];
    }
  }

  /** The bookkeeping of the pruning loop after pruning the subtree at index i in place. */
  lemma KeepStep(cs: seq<Outline>, orig: seq<Outline>, i: int, j: int, markers: set<char>)
    requires 0 <= i < |cs| && 0 <= j < |orig| && |cs| - i == |orig| - j
    requires cs[i..] == orig[j..] && !Commented(orig[j], markers)
    ensures var c := cs[i := Prune(cs[i], markers)];
      c[i + 1..] == orig[j + 1..] && c[..i + 1] + PruneList(orig[j + 1..], markers) == cs[..i] + PruneList(orig[j..], markers)
  {
    PruneStep(orig, j, markers);
    var c := cs[i := Prune(cs[i], markers)];
    assert cs[i] == orig[j];
    assert c[..i + 1] == cs[..i] + [Prune(orig[j], markers)];
    assert c[i + 1..] == cs[i + 1..];
    assert cs[i + 1..] == orig[j + 1..] by {
      assert cs[i..][1..] == cs[i + 1..];
      assert orig[j..][1..] == orig[j + 1..];
    }
  }

  /** Folding one more line is adding it to the tree folded so far. */
  lemma FoldLinesStep(t: Outline, lines: seq<string>, i: int, replaceTab: bool)
    requires 0 <= i < |lines| && forall k :: 0 <= k < |lines| ==> IsLine(lines[k])
    ensures var line := PrepareLine(lines[i], replaceTab);
      IsLine(Adjust(line).0)
      && FoldLines(t, lines[..i + 1], replaceTab) == AddPar(FoldLines(t, lines[..i], replaceTab), Adjust(line).0, 0 + Adjust(line).1)
  {
    assert lines[..i + 1][..i] == lines[..i];
    ParagraphOfLine(PrepareLine(lines[i], replaceTab));
  }

  /** Splitting a list of one text splits that text. */
  lemma SplitOne(text: string)
    ensures SplitAll([text]) == SplitLines(text)
  {
    assert [text][1..] == [];
  }

  /** Parse unfolded: the first line is the title and the others are added below it. */
  lemma ParseOfTitle(text: string, level: int, lines: seq<string>, titleLevel: int)
    requires lines == SplitLines(text) && lines != []
    requires titleLevel == level + Adjust(text).1
    ensures Parse(text, level) == Ok(Titled(lines, titleLevel))
  {
  }

  // ---------------------------------------------------------------- the two outline test cases

  /** A line that starts with neither a space nor a tab and is not commented out. */
  ghost predicate PlainLine(l: string) {
    IsLine(l) && l[0] != ' ' && l[0] != '\t' && LineClear(l, SkipMarkers)
  }

  /** k indent steps in front of a line without indent: adjust_level takes them all off. */
  lemma {:induction false} AdjustIndented(k: nat, l: string)
    requires l != [] && l[0] != ' '
    ensures Adjust(Spaces(IndentStep * k) + l) == (l, k)
    decreases k
  {
    if k == 0 {
      assert Spaces(0) + l == l;
      assert !HasIndent(l) by {
        if |l| > IndentStep {
          assert l[..IndentStep][0] == l[0];
        }
      }
    } else {
      var y := Spaces(IndentStep * (k - 1)) + l;
      IndentMore(k);
      assert Spaces(IndentStep * k) + l == Indent + y;
      AdjustIndented(k - 1, l);
      AdjustOneStep(y);
    }
  }

  /** k indent steps are one indent followed by k - 1 of them. */
  lemma IndentMore(k: nat)
    requires k > 0
    ensures Spaces(IndentStep * k) == Indent + Spaces(IndentStep * (k - 1))
  {
    SpacesAdd(IndentStep, IndentStep * (k - 1));
    assert Spaces(IndentStep) == Indent;
    assert IndentStep * k == IndentStep + IndentStep * (k - 1);
  }

  /** One indent in front of a non-empty text is one more level that adjust_level takes off. */
  lemma AdjustOneStep(y: string)
    requires y != []
    ensures Adjust(Indent + y) == (Adjust(y).0, Adjust(y).1 + 1)
  {
    var x := Indent + y;
    assert x[..IndentStep] == Indent;
    assert x[IndentStep..] == y;
  }

  /** A line with k indent steps in front of a plain line becomes the paragraph (l, k). */
  lemma IndentedLine(k: nat, l: string)
    requires PlainLine(l)
    ensures var x := Spaces(IndentStep * k) + l;
      IsLine(x) && PrepareLine(x, true) == x && Adjust(x) == (l, k)
  {
    var x := Spaces(IndentStep * k) + l;
    AdjustIndented(k, l);
    forall n | 0 <= n < |x| ensures x[n] != '\n' {
      if n >= IndentStep * k {
        assert x[n] == l[n - IndentStep * k];
      }
    }
    assert x[0] != '\t' by {
      if k > 0 {
        assert x[0] == ' ';
      } else {
        assert x[0] == l[0];
      }
    }
  }

  /** Folding one more line at the end. */
  lemma FoldLinesSnoc(t: Outline, lines: seq<string>, x: string)
    requires forall i :: 0 <= i < |lines| ==> IsLine(lines[i])
    requires IsLine(x)
    ensures FoldLines(t, lines + [x], true) == AddLineTo(FoldLines(t, lines, true), PrepareLine(x, true))
  {
    assert (lines + [x])[..|lines|] == lines;
  }

  /** Every paragraph text is a single line. */
  ghost predicate Paragraphs(ps: seq<(string, nat)>) {
    forall i :: 0 <= i < |ps| ==> IsLine(ps[i].0)
  }

  /** Every paragraph text is a plain line. */
  ghost predicate PlainParagraphs(ps: seq<(string, nat)>) {
    Paragraphs(ps) && forall i :: 0 <= i < |ps| ==> PlainLine(ps[i].0)
  }

  /** Paragraphs given as (text, level), added one after another. */
  function FoldParagraphs(t: Outline, ps: seq<(string, nat)>): (r: Outline)
    requires Paragraphs(ps)
    ensures r.text == t.text && r.level == t.level
    decreases |ps|
  {
    if ps == [] then t
    else
      var n := |ps| - 1;
      AddPar(FoldParagraphs(t, ps[..n]), ps[n].0, ps[n].1)
  }

  /** The outline lines of the paragraphs: each text behind four spaces per level. */
  function IndentLines(ps: seq<(string, nat)>): (r: seq<string>)
    ensures |r| == |ps|
    ensures forall i :: 0 <= i < |ps| ==> r[i] == Spaces(IndentStep * ps[i].1) + ps[i].0
  {
    if ps == [] then [] else IndentLines(ps[..|ps| - 1]) + [Spaces(IndentStep * ps[|ps| - 1].1) + ps[|ps| - 1].0]
  }

  /** Lines made of plain texts behind whole indent steps fold into those paragraphs, level by level. */
  lemma {:induction false} FoldIndented(t: Outline, ps: seq<(string, nat)>)
    requires PlainParagraphs(ps)
    ensures forall i :: 0 <= i < |ps| ==> IsLine(IndentLines(ps)[i])
    ensures FoldLines(t, IndentLines(ps), true) == FoldParagraphs(t, ps)
    decreases |ps|
  {
    var lines := IndentLines(ps);
    forall i | 0 <= i < |ps| ensures IsLine(lines[i]) {
      IndentedLine(ps[i].1, ps[i].0);
    }
    if ps != [] {
      var n := |ps| - 1;
      FoldIndented(t, ps[..n]);
      assert lines[..n] == IndentLines(ps[..n]);
      IndentedLine(ps[n].1, ps[n].0);
      FoldLinesSnoc(t, lines[..n], lines[n]);
      assert lines[..n] + [lines[n]] == lines;
    }
  }

  /** Plain paragraphs keep a clear tree clear. */
  lemma {:induction false} FoldParagraphsClear(t: Outline, ps: seq<(string, nat)>)
    requires PlainParagraphs(ps)
    requires Clear(t, SkipMarkers)
    ensures Clear(FoldParagraphs(t, ps), SkipMarkers)
    decreases |ps|
  {
    if ps != [] {
      var n := |ps| - 1;
      FoldParagraphsClear(t, ps[..n]);
      UnindentedText(ps[n].0);
      AddParClear(FoldParagraphs(t, ps[..n]), ps[n].0, ps[n].1, SkipMarkers);
    }
  }

  /** A text whose first character is not a space has no indent to give to the root. */
  lemma UnindentedText(text: string)
    requires text != [] && text[0] != ' '
    ensures Adjust(text) == (text, 0)
  {
    AdjustIndented(0, text);
    assert Spaces(0) + text == text;
  }

  /**
   * A title line followed by plain lines, each behind whole indent steps,
   * parses to the title with those paragraphs added by level; none is pruned.
   */
  lemma ParseIndented(title: string, ps: seq<(string, nat)>)
    requires IsLine(title) && title[0] != ' '
    requires PlainParagraphs(ps)
    ensures Parse(Join([title] + IndentLines(ps), '\n'), 0) == Ok(FoldParagraphs(Outline(title, 0, []), ps))
  {
    var rest := IndentLines(ps);
    FoldIndented(Outline(title, 0, []), ps);
    var lines := [title] + rest;
    var text := Join(lines, '\n');
    assert forall i :: 0 <= i < |lines| ==> IsLine(lines[i]) by {
      forall i | 0 <= i < |lines| ensures IsLine(lines[i]) {
        if i > 0 {
          assert lines[i] == rest[i - 1];
        }
      }
    }
    SplitJoinedLines(lines);
    assert lines[1..] == rest;
    if rest == [] {
      assert text == title;
    } else {
      assert text == title + ['\n'] + Join(rest, '\n');
    }
    assert text[0] == title[0];
    UnindentedText(text);
    ParseOfTitle(text, 0, lines, 0);
    SplitAllOfLines(rest);
    FoldParagraphsClear(Outline(title, 0, []), ps);
    PruneClear(FoldParagraphs(Outline(title, 0, []), ps), SkipMarkers);
  }

  /** The nesting of the first test: the deeper line goes under the first, the last line beside it. */
  lemma FirstTreeShape(title: string, a: string, b: string, c: string)
    requires PlainLine(a) && PlainLine(b) && PlainLine(c)
    ensures FoldParagraphs(Outline(title, 0, []), [(a, 1), (b, 2), (c, 1)])
      == Outline(title, 0, [Outline(a, 1, [Outline(b, 2, [])]), Outline(c, 1, [])])
  {
    UnindentedText(a);
    UnindentedText(b);
    UnindentedText(c);
    var ps := [(a, 1), (b, 2), (c, 1)];
    assert ps[..2] == [(a, 1), (b, 2)];
    assert ps[..2][..1] == [(a, 1)];
    var p0: seq<(string, nat)> := [];
    assert ps[..2][..1][..0] == p0;
    var t1 := Outline(title, 0, [Outline(a, 1, [])]);
    assert FoldParagraphs(Outline(title, 0, []), ps[..2][..1]) == t1;
    assert AddPar(Outline(a, 1, []), b, 2) == Outline(a, 1, [Outline(b, 2, [])]);
  }

  /** The counts of the first test's tree: 2 subtrees, 4 lines, depth 2. */
  lemma FirstTreeCounts(title: string, a: string, b: string, c: string)
    ensures var t := Outline(title, 0, [Outline(a, 1, [Outline(b, 2, [])]), Outline(c, 1, [])]);
      |t.children| == 2 && LinesOf(t) == 4 && DepthOf(t) == 2
  {
    var w := Outline(b, 2, []);
    var u := Outline(a, 1, [w]);
    var v := Outline(c, 1, []);
    assert [u, v][..1] == [u];
    assert [u][..0] == [];
    assert [w][..0] == [];
    assert LinesOf(w) == 1 && DepthOf(w) == 0;
    assert LinesOfList([w]) == 1 && DepthOfList([w]) == 0;
    assert LinesOf(u) == 2 && DepthOf(u) == 1;
    assert LinesOf(v) == 1 && DepthOf(v) == 0;
    assert LinesOfList([u]) == 2 && DepthOfList([u]) == 1;
    assert LinesOfList([u, v]) == 3 && DepthOfList([u, v]) == 1;
  }

  /**
   * The first outline test: a title, a line below it, a deeper line, and a
   * line back at the first level give 2 subtrees, 4 lines and depth 2.
   */
  lemma FirstTreeTest(title: string, a: string, b: string, c: string)
    requires IsLine(title) && title[0] != ' ' && PlainLine(a) && PlainLine(b) && PlainLine(c)
    ensures var text := Join([title] + IndentLines([(a, 1), (b, 2), (c, 1)]), '\n');
      Parse(text, 0).Ok?
      && |Parse(text, 0).value.children| == 2
      && LinesOf(Parse(text, 0).value) == 4
      && DepthOf(Parse(text, 0).value) == 2
  {
    var ps := [(a, 1), (b, 2), (c, 1)];
    assert PlainParagraphs(ps);
    ParseIndented(title, ps);
    FirstTreeShape(title, a, b, c);
    FirstTreeCounts(title, a, b, c);
  }

  /** The nesting of the second test: three lines each one level deeper, then one back at the first level. */
  lemma SecondTreeShape(title: string, a: string, b: string, c: string, d: string)
    requires PlainLine(a) && PlainLine(b) && PlainLine(c) && PlainLine(d)
    ensures FoldParagraphs(Outline(title, 0, []), [(a, 1), (b, 2), (c, 3), (d, 1)])
      == Outline(title, 0, [Outline(a, 1, [Outline(b, 2, [Outline(c, 3, [])])]), Outline(d, 1, [])])
  {
    UnindentedText(a);
    UnindentedText(b);
    UnindentedText(c);
    UnindentedText(d);
    var ps := [(a, 1), (b, 2), (c, 3), (d, 1)];
    var p0: seq<(string, nat)> := [];
    assert ps[..3] == [(a, 1), (b, 2), (c, 3)];
    assert ps[..3][..2] == [(a, 1), (b, 2)];
    assert ps[..3][..2][..1] == [(a, 1)];
    assert ps[..3][..2][..1][..0] == p0;
    var t1 := Outline(title, 0, [Outline(a, 1, [])]);
    assert FoldParagraphs(Outline(title, 0, []), ps[..3][..2][..1]) == t1;
    var t2 := Outline(title, 0, [Outline(a, 1, [Outline(b, 2, [])])]);
    assert AddPar(Outline(a, 1, []), b, 2) == Outline(a, 1, [Outline(b, 2, [])]);
    assert FoldParagraphs(Outline(title, 0, []), ps[..3][..2]) == t2;
    assert AddPar(Outline(b, 2, []), c, 3) == Outline(b, 2, [Outline(c, 3, [])]);
    assert AddPar(Outline(a, 1, [Outline(b, 2, [])]), c, 3) == Outline(a, 1, [Outline(b, 2, [Outline(c, 3, [])])]);
  }

  /** The counts of the second test's tree: 2 subtrees, 5 lines, depth 3. */
  lemma SecondTreeCounts(title: string, a: string, b: string, c: string, d: string)
    ensures var t := Outline(title, 0, [Outline(a, 1, [Outline(b, 2, [Outline(c, 3, [])])]), Outline(d, 1, [])]);
      |t.children| == 2 && LinesOf(t) == 5 && DepthOf(t) == 3
  {
    var x := Outline(c, 3, []);
    var w := Outline(b, 2, [x]);
    var u := Outline(a, 1, [w]);
    var v := Outline(d, 1, []);
    assert [u, v][..1] == [u];
    assert [u][..0] == [];
    assert [w][..0] == [];
    assert [x][..0] == [];
    assert LinesOf(x) == 1 && DepthOf(x) == 0;
    assert LinesOfList([x]) == 1 && DepthOfList([x]) == 0;
    assert LinesOf(w) == 2 && DepthOf(w) == 1;
    assert LinesOfList([w]) == 2 && DepthOfList([w]) == 1;
    assert LinesOf(u) == 3 && DepthOf(u) == 2;
    assert LinesOf(v) == 1 && DepthOf(v) == 0;
    assert LinesOfList([u]) == 3 && DepthOfList([u]) == 2;
    assert LinesOfList([u, v]) == 4 && DepthOfList([u, v]) == 2;
  }

  /**
   * The second outline test: a chain three levels deep and a line back at the
   * first level give 2 subtrees, 5 lines and depth 3.
   */
  lemma SecondTreeTest(title: string, a: string, b: string, c: string, d: string)
    requires IsLine(title) && title[0] != ' ' && PlainLine(a) && PlainLine(b) && PlainLine(c) && PlainLine(d)
    ensures var text := Join([title] + IndentLines([(a, 1), (b, 2), (c, 3), (d, 1)]), '\n');
      Parse(text, 0).Ok?
      && |Parse(text, 0).value.children| == 2
      && LinesOf(Parse(text, 0).value) == 5
      && DepthOf(Parse(text, 0).value) == 3
  {
    var ps := [(a, 1), (b, 2), (c, 3), (d, 1)];
    assert PlainParagraphs(ps);
    ParseIndented(title, ps);
    SecondTreeShape(title, a, b, c, d);
    SecondTreeCounts(title, a, b, c, d);
  }

  // ---------------------------------------------------------------- the Tree class

  /** Tree: a title paragraph (text and level) and the subtrees below it. */
  class Tree {
    var text: string
    var level: int
    var subtrees: seq<Tree>
    ghost var model: Outline
    ghost var Repr: set<Tree>

    /** The fields agree with the model, and the subtrees own disjoint parts of Repr. */
    ghost predicate Valid()
      reads this, Repr
      decreases Repr
    {
      this in Repr
      && model.text == text && model.level == level && |model.children| == |subtrees|
      && (forall i :: 0 <= i < |subtrees| ==>
            subtrees[i] in Repr && subtrees[i].Repr <= Repr && this !in subtrees[i].Repr
            && subtrees[i].Valid() && subtrees[i].model == model.children[i])
      && (forall i, j :: 0 <= i < j < |subtrees| ==> subtrees[i].Repr !! subtrees[j].Repr)
    }

    /** Paragraph.__init__ of a tree: the adjusted text at the adjusted level, no subtrees yet. */
    constructor Init(text: string, level: int)
      ensures Valid() && fresh(Repr)
      ensures model == Outline(Adjust(text).0, level + Adjust(text).1, [])
    {
      var p := new Paragraph(text, level, true);
      this.text := p.text;
      this.level := p.level;
      subtrees := [];
      model := Outline(p.text, p.level, []);
      Repr := {this};
    }

    /** Tree(text, level) for a single line: its indent goes into the level, the title keeps the line. */
    constructor Leaf(text: string, level: int)
      requires IsLine(text)
      ensures Valid() && fresh(Repr)
      ensures model == NewSubtree(text, level)
    {
      var p := new Paragraph(text, level, true);
      this.text := text;
      this.level := p.level;
      subtrees := [];
      model := NewSubtree(text, level);
      Repr := {this};
    }

    /** get_subtrees_count. */
    function SubtreesCount(): (r: nat)
      reads this, Repr
      requires Valid()
      ensures r == |model.children|
    {
      |subtrees|
    }

    /**
     * add_paragraph. A paragraph without text cannot become a subtree:
     * Tree('') fails with IndexError, and the tree is left as it was.
     */
    method AddParagraph(p: Paragraph) returns (o: Outcome)
      requires Valid() && '\n' !in p.text
      modifies Repr
      ensures Valid() && fresh(Repr - old(Repr))
      ensures o == (if p.text == [] then Fail(IndexError) else Pass)
      ensures p.text == [] ==> model == old(model)
      ensures p.text != [] ==> model == AddPar(old(model), p.text, p.level)
      decreases Repr, 1
    {
      var n := |subtrees|;
      if n > 0 && p.level > subtrees[n - 1].level {
        o := AddToLast(p);
      } else if p.text == [] {
        o := Fail(IndexError);
      } else {
        var t := new Tree.Leaf(p.text, p.level);
        AppendSubtree(t);
        o := Pass;
      }
    }

    /** The descending branch of add_paragraph: the last subtree takes the paragraph. */
    method AddToLast(p: Paragraph) returns (o: Outcome)
      requires Valid() && '\n' !in p.text
      requires |subtrees| > 0 && p.level > subtrees[|subtrees| - 1].level
      modifies Repr
      ensures Valid() && fresh(Repr - old(Repr))
      ensures o == (if p.text == [] then Fail(IndexError) else Pass)
      ensures p.text == [] ==> model == old(model)
      ensures p.text != [] ==> model == AddPar(old(model), p.text, p.level)
      decreases Repr, 0
    {
      var n := |subtrees|;
      var last := subtrees[n - 1];
      ghost var lastRepr := last.Repr;
      assert forall i :: 0 <= i < n - 1 ==> subtrees[i].Repr !! lastRepr;
      o := last.AddParagraph(p);
      Repr := Repr + last.Repr;
      model := model.(children := model.children[..n - 1] + [last.model]);
      forall i | 0 <= i < n - 1
        ensures subtrees[i].Repr !! last.Repr && subtrees[i].Valid() && subtrees[i].model == model.children[i]
      {
        assert subtrees[i] in subtrees[i].Repr && subtrees[i].Repr !! lastRepr;
        KeepsValid(subtrees[i]);
      }
      assert this !in last.Repr && last.Valid() && last.model == model.children[n - 1];
      assert forall i, j :: 0 <= i < j < n ==> subtrees[i].Repr !! subtrees[j].Repr;
      if p.text == [] {
        assert model.children == old(model).children;
      } else {
        AddParToLast(old(model), p.text, p.level, last.model);
      }
    }

    /** A tree none of whose objects changed is still valid and holds the same outline. */
    static twostate lemma KeepsValid(t: Tree)
      requires old(t.Valid()) && unchanged(old(t.Repr))
      ensures t.Valid() && t.model == old(t.model) && t.Repr == old(t.Repr)
    {
    }

    /** self.subtrees.append(t) for a tree t that shares nothing with this one. */
    method AppendSubtree(t: Tree)
      requires Valid() && t.Valid() && Repr !! t.Repr
      modifies this
      ensures Valid() && Repr == old(Repr) + t.Repr
      ensures model == old(model).(children := old(model).children + [t.model])
      ensures subtrees == old(subtrees) + [t]
    {
      subtrees := subtrees + [t];
      Repr := Repr + t.Repr;
      model := model.(children := model.children + [t.model]);
      assert subtrees[|subtrees| - 1] == t;
    }
  
    /** add_line(text, level): the paragraph Paragraph(text, level) added to the tree. */
    method AddLine(text: string, level: int) returns (o: Outcome)
      requires Valid() && '\n' !in text
      modifies Repr
      ensures Valid() && fresh(Repr - old(Repr))
      ensures o == (if text == [] then Fail(IndexError) else Pass)
      ensures text == [] ==> model == old(model)
      ensures text != [] ==> model == AddPar(old(model), Adjust(text).0, level + Adjust(text).1)
    {
      var p := new Paragraph(text, level, true);
      o := AddParagraph(p);
    }

    /**
     * remove_commented_subtrees(markers), including its skip: after a removal
     * the loop index moves past the subtree that slid into the removed place.
     */
    method RemoveCommentedSubtrees(markers: set<char>)
      requires Valid()
      modifies Repr
      ensures Valid() && Repr == old(Repr)
      ensures model == Prune(old(model), markers)
      decreases Repr, 3
    {
      ghost var orig := model.children;
      var i := 0;
      ghost var j := 0;
      while i < |subtrees|
        invariant Valid() && Repr == old(Repr)
        invariant model.text == old(model).text && model.level == old(model).level
        invariant 0 <= i <= |subtrees| && 0 <= j <= |orig| && |subtrees| - i == |orig| - j
        invariant model.children[i..] == orig[j..]
        invariant model.children[..i] + PruneList(orig[j..], markers) == PruneList(orig, markers)
        decreases |subtrees| - i
      {
        i, j := PruneAt(i, markers, orig, j);
      }
      assert model.children == model.children[..i];
    }

    /**
     * One pass of remove_commented_subtrees' loop at index i, which holds the
     * original subtree j: remove it when commented (and step over its
     * successor), otherwise prune it.
     */
    method PruneAt(i: int, markers: set<char>, ghost orig: seq<Outline>, ghost j: int) returns (next: int, ghost nextJ: int)
      requires Valid() && 0 <= i < |subtrees| && 0 <= j < |orig| && |subtrees| - i == |orig| - j
      requires model.children[i..] == orig[j..]
      modifies Repr
      ensures Valid() && Repr == old(Repr)
      ensures model.text == old(model).text && model.level == old(model).level
      ensures i <= next <= |subtrees| && j < nextJ <= |orig| && |subtrees| - next == |orig| - nextJ
      ensures model.children[next..] == orig[nextJ..]
      ensures model.children[..next] + PruneList(orig[nextJ..], markers)
        == old(model.children[..i]) + PruneList(orig[j..], markers)
      decreases Repr, 2
    {
      var sub := subtrees[i];
      var title := new Paragraph(sub.text, sub.level, true);
      var mark := title.Mark(true);
      assert sub.model == orig[j];
      if mark.Some? && mark.value in markers {
        next, nextJ := DropCommented(i, markers, orig, j);
      } else {
        next, nextJ := KeepUncommented(i, markers, orig, j);
      }
    }

    /** The loop pass on a commented subtree: it goes, and the one after it is stepped over. */
    method DropCommented(i: int, markers: set<char>, ghost orig: seq<Outline>, ghost j: int) returns (next: int, ghost nextJ: int)
      requires Valid() && 0 <= i < |subtrees| && 0 <= j < |orig| && |subtrees| - i == |orig| - j
      requires model.children[i..] == orig[j..]
      requires Commented(orig[j], markers)
      modifies Repr
      ensures Valid() && Repr == old(Repr)
      ensures model.text == old(model).text && model.level == old(model).level
      ensures i <= next <= |subtrees| && j < nextJ <= |orig| && |subtrees| - next == |orig| - nextJ
      ensures model.children[next..] == orig[nextJ..]
      ensures model.children[..next] + PruneList(orig[nextJ..], markers)
        == old(model.children[..i]) + PruneList(orig[j..], markers)
    {
      ghost var before := model.children;
      DropStep(before, orig, i, j, markers);
      RemoveAt(i);
      if i < |subtrees| {
        next, nextJ := i + 1, j + 2;
      } else {
        next, nextJ := i, j + 1;
      }
    }

    /** The loop pass on a subtree that is not commented: it is pruned in turn. */
    method KeepUncommented(i: int, markers: set<char>, ghost orig: seq<Outline>, ghost j: int) returns (next: int, ghost nextJ: int)
      requires Valid() && 0 <= i < |subtrees| && 0 <= j < |orig| && |subtrees| - i == |orig| - j
      requires model.children[i..] == orig[j..]
      requires !Commented(orig[j], markers)
      modifies Repr
      ensures Valid() && Repr == old(Repr)
      ensures model.text == old(model).text && model.level == old(model).level
      ensures i <= next <= |subtrees| && j < nextJ <= |orig| && |subtrees| - next == |orig| - nextJ
      ensures model.children[next..] == orig[nextJ..]
      ensures model.children[..next] + PruneList(orig[nextJ..], markers)
        == old(model.children[..i]) + PruneList(orig[j..], markers)
      decreases Repr, 1
    {
      ghost var before := model.children;
      PruneChild(i, markers);
      KeepStep(before, orig, i, j, markers);
      next, nextJ := i + 1, j + 1;
    }

    /** self.subtrees.remove(subtree) for the subtree at index k. */
    method RemoveAt(k: int)
      requires Valid() && 0 <= k < |subtrees|
      modifies this
      ensures Valid() && Repr == old(Repr)
      ensures subtrees == old(subtrees[..k] + subtrees[k + 1..])
      ensures model == old(model).(children := old(model.children[..k] + model.children[k + 1..]))
    {
      subtrees := subtrees[..k] + subtrees[k + 1..];
      model := model.(children := model.children[..k] + model.children[k + 1..]);
    }

    /** subtree.remove_commented_subtrees(markers) for the subtree at index k. */
    method PruneChild(k: int, markers: set<char>)
      requires Valid() && 0 <= k < |subtrees|
      modifies Repr
      ensures Valid() && Repr == old(Repr) && subtrees == old(subtrees)
      ensures model == old(model).(children := old(model.children)[k := Prune(old(model.children[k]), markers)])
      decreases Repr, 0
    {
      var sub := subtrees[k];
      sub.RemoveCommentedSubtrees(markers);
      model := model.(children := model.children[k := sub.model]);
      forall i | 0 <= i < |subtrees| && i != k
        ensures subtrees[i].Repr !! sub.Repr && subtrees[i].Valid() && subtrees[i].model == model.children[i]
      {
        assert subtrees[i] in subtrees[i].Repr;
      }
    }
  
    /**
     * add_hiertext(texts, replace_tab, skip_commented): every non-empty line,
     * tabs replaced when it starts with one, added at level 0; then commented
     * subtrees are removed when skipCommented holds.
     */
    method AddHiertext(texts: seq<string>, replaceTab: bool, skipCommented: bool)
      requires Valid()
      modifies Repr
      ensures Valid() && fresh(Repr - old(Repr))
      ensures model == Hiertext(old(model), texts, replaceTab, skipCommented)
    {
      var lines := SplitAll(texts);
      AddLines(lines, replaceTab);
      if skipCommented {
        RemoveCommentedSubtrees(SkipMarkers);
      }
    }

    /** add_hiertext's loop over the split lines. */
    method AddLines(lines: seq<string>, replaceTab: bool)
      requires Valid() && forall k :: 0 <= k < |lines| ==> IsLine(lines[k])
      modifies Repr
      ensures Valid() && fresh(Repr - old(Repr))
      ensures model == FoldLines(old(model), lines, replaceTab)
    {
      var i := 0;
      while i < |lines|
        invariant 0 <= i <= |lines|
        invariant Valid() && fresh(Repr - old(Repr))
        invariant model == FoldLines(old(model), lines[..i], replaceTab)
      {
        FoldLinesStep(old(model), lines, i, replaceTab);
        AddNext(lines[i], replaceTab);
        i := i + 1;
      }
      assert lines[..i] == lines;
    }

    /** One pass of add_hiertext's loop: the line, tabs replaced, added at level 0. */
    method AddNext(line: string, replaceTab: bool)
      requires Valid() && IsLine(line)
      modifies Repr
      ensures Valid() && fresh(Repr - old(Repr))
      ensures model == AddLineTo(old(model), PrepareLine(line, replaceTab))
    {
      var prepared := PrepareLine(line, replaceTab);
      var o := AddLine(prepared, 0);
    }

    /**
     * set_hiertext(texts, including_title): with includingTitle the first line
     * becomes the title (IndexError when there is none, before anything
     * changes); the subtrees are rebuilt from the remaining lines.
     */
    method SetHiertext(texts: seq<string>, includingTitle: bool) returns (o: Outcome)
      requires Valid()
      modifies Repr
      ensures Valid() && fresh(Repr - old(Repr))
      ensures var lines := SplitAll(texts);
        o == (if includingTitle && lines == [] then Fail(IndexError) else Pass)
      ensures includingTitle && o.Pass? ==>
        model == Titled(SplitAll(texts), old(level))
      ensures !includingTitle ==> model == Hiertext(Outline(old(text), old(level), []), SplitAll(texts), true, true)
    {
      var lines := SplitAll(texts);
      if includingTitle {
        if lines == [] {
          return Fail(IndexError);
        }
        text := lines[0];
        lines := lines[1..];
      }
      subtrees := [];
      model := Outline(text, level, []);
      Repr := {this};
      AddHiertext(lines, true, true);
      o := Pass;
    }

    /** Tree(text, level): the outline Parse describes, or IndexError for a text without lines. */
    static method FromText(text: string, level: int) returns (r: Result<Tree>)
      ensures r.Err? <==> Parse(text, level).Err?
      ensures r.Err? ==> r.error == IndexError
      ensures r.Ok? ==> fresh(r.value.Repr) && r.value.Valid() && r.value.model == Parse(text, level).value
    {
      var t := new Tree.Init(text, level);
      ghost var titleLevel := t.level;
      assert titleLevel == level + Adjust(text).1;
      SplitOne(text);
      var o := t.SetHiertext([text], true);
      if o.Fail? {
        return Err(IndexError);
      }
      ParseOfTitle(text, level, SplitAll([text]), titleLevel);
      r := Ok(t);
    }

    /** get_depth: the deepest subtree's depth plus one, and 0 for a leaf. */
    method Depth() returns (d: int)
      requires Valid()
      ensures d == DepthOf(model)
      decreases Repr
    {
      var maxDepth := -1;
      var i := 0;
      while i < |subtrees|
        invariant 0 <= i <= |subtrees|
        invariant maxDepth == DepthOfList(model.children[..i])
      {
        var cur := subtrees[i].Depth();
        assert model.children[..i + 1][..i] == model.children[..i];
        if cur > maxDepth {
          maxDepth := cur;
        }
        i := i + 1;
      }
      assert model.children[..i] == model.children;
      d := maxDepth + 1;
    }

    /** get_lines_count: one for the title plus the lines of every subtree. */
    method LinesCount() returns (n: int)
      requires Valid()
      ensures n == LinesOf(model)
      decreases Repr
    {
      n := 1;
      var i := 0;
      while i < |subtrees|
        invariant 0 <= i <= |subtrees|
        invariant n == 1 + LinesOfList(model.children[..i])
      {
        var cur := subtrees[i].LinesCount();
        assert model.children[..i + 1][..i] == model.children[..i];
        n := n + cur;
        i := i + 1;
      }
      assert model.children[..i] == model.children;
    }
  }
}
