/** What the helpers of `scripts/c_reduce.py` recognise, by the characters and lines
    themselves: braces, ends of items, the cuts between regions, and a pass with an
    oracle that accepts everything. */
module ReducerRegions {
  import opened Text
  import opened Reducer

  // ----- Characters

  lemma {:induction false} CountAppend(a: string, b: string, c: char)
    ensures Count(a + b, c) == Count(a, c) + Count(b, c)
  {
    if a == [] {
      assert a + b == b;
    } else {
      assert (a + b)[1..] == a[1..] + b;
      CountAppend(a[1..], b, c);
    }
  }

  /** An opening brace counts one up, a closing one down, nothing else at all, and
      lines add up: this determines `Net`. */
  lemma NetIs(a: Line, b: Line, c: char)
    ensures Net(a + b) == Net(a) + Net(b) && Net([]) == 0
    ensures Net([c]) == if c == '{' then 1 else if c == '}' then -1 else 0
  {
    CountAppend(a, b, '{');
    CountAppend(a, b, '}');
    assert [c][1..] == [];
  }

  /** The line has a `;` or a `}` with nothing but white space behind it. */
  predicate LastIsEnd(line: Line) {
    exists i :: 0 <= i < |line| && EndAt(line, i)
  }

  predicate EndAt(line: Line, i: nat)
    requires i < |line|
  {
    (line[i] == ';' || line[i] == '}') && forall j :: i < j < |line| ==> Space(line[j])
  }

  lemma {:induction false} EndsItemIff(line: Line)
    ensures EndsItem(line) <==> LastIsEnd(line)
  {
    if line != [] {
      var n := |line| - 1;
      if Space(line[n]) {
        var rest := line[..n];
        EndsItemIff(rest);
        if LastIsEnd(rest) {
          var i :| 0 <= i < |rest| && EndAt(rest, i);
          assert EndAt(line, i);
        }
        if LastIsEnd(line) {
          var i :| 0 <= i < |line| && EndAt(line, i);
          assert EndAt(rest, i);
        }
      } else if LastIsEnd(line) {
        var i :| 0 <= i < |line| && EndAt(line, i);
        assert i == n;
      } else {
        assert !EndAt(line, n);
      }
    }
  }

  // ----- Where regions end

  ghost predicate HasEnd(found: seq<(nat, nat)>, e: nat) { exists k :: 0 <= k < |found| && found[k].1 == e }

  /** After `e` lines the depth is back at zero and the last of them ends an item. */
  predicate CutAt(lines: seq<Line>, e: nat)
    requires 0 < e <= |lines|
  {
    Depth(lines, e) == 0 && LastIsEnd(lines[e - 1])
  }

  lemma BlankEndsNothing(line: Line)
    requires Blank(line)
    ensures !LastIsEnd(line)
  {
    forall i | 0 <= i < |line| ensures !EndAt(line, i) {
      assert Space(line[i]);
    }
  }

  lemma HasEndAppend(found: seq<(nat, nat)>, a: nat, b: nat, e: nat)
    ensures HasEnd(found + [(a, b)], e) <==> HasEnd(found, e) || e == b
  {
    var all := found + [(a, b)];
    if HasEnd(found, e) {
      var k :| 0 <= k < |found| && found[k].1 == e;
      assert all[k].1 == e;
    }
    assert all[|found|] == (a, b);
  }

  lemma {:induction false} RegionsEnd(
    lines: seq<Line>, i: nat, depth: int, start: nat, found: seq<(nat, nat)>, e: nat)
    requires WellNested(lines) && i <= |lines| && depth == Depth(lines, i) && 0 < e < |lines|
    ensures HasEnd(Regions(lines, i, depth, start, found), e) <==> HasEnd(found, e) || (e > i && CutAt(lines, e))
    decreases |lines| - i
  {
    if i == |lines| {
      HasEndAppend(found, start, |lines|, e);
    } else {
      var d := depth + Net(lines[i]);
      assert Depth(lines, i + 1) == d && d >= 0;
      EndsItemIff(lines[i]);
      if depth == 0 && Blank(lines[i]) {
        BlankHasNoBraces(lines[i]);
        BlankEndsNothing(lines[i]);
        RegionsEnd(lines, i + 1, depth, i + 1, found, e);
      } else if d == 0 && EndsItem(lines[i]) {
        HasEndAppend(found, start, i + 1, e);
        RegionsEnd(lines, i + 1, 0, i + 1, found + [(start, i + 1)], e);
      } else {
        RegionsEnd(lines, i + 1, d, start, found, e);
      }
    }
  }

  /** In a well-nested source a region ends before the last line exactly where the
      depth is back at zero and the line ends in `;` or `}`. */
  lemma TopLevelEndsIff(lines: seq<Line>, e: nat)
    requires WellNested(lines) && 0 < e < |lines|
    ensures HasEnd(TopLevel(lines), e) <==> CutAt(lines, e)
  {
    RegionsEnd(lines, 0, 0, 0, [], e);
  }

  // ----- Where regions begin

  /** A region that begins at the start, right after a cut, or right after a blank line
      outside all braces, and holds no such line. */
  ghost predicate BeginsWell(lines: seq<Line>, region: (nat, nat)) {
    && region.0 < region.1 <= |lines|
    && (region.0 == 0 || CutAt(lines, region.0) || SkippedAt(lines, region.0 - 1))
    && forall j :: region.0 <= j < region.1 ==> !SkippedAt(lines, j)
  }

  predicate SkippedAt(lines: seq<Line>, j: nat)
    requires j < |lines|
  {
    Depth(lines, j) == 0 && Blank(lines[j])
  }

  ghost predicate AllBeginWell(lines: seq<Line>, found: seq<(nat, nat)>) {
    forall k :: 0 <= k < |found| ==> BeginsWell(lines, found[k])
  }

  /** What is being collected begins well so far. */
  ghost predicate Collecting(lines: seq<Line>, start: nat, i: nat) {
    && start <= i <= |lines|
    && (start == 0 || CutAt(lines, start) || SkippedAt(lines, start - 1))
    && forall j :: start <= j < i ==> !SkippedAt(lines, j)
  }

  lemma OneMoreBeginsWell(lines: seq<Line>, start: nat, end: nat, found: seq<(nat, nat)>)
    requires AllBeginWell(lines, found) && Collecting(lines, start, end) && start < end
    ensures AllBeginWell(lines, found + [(start, end)])
  {
  }

  lemma {:induction false} RegionsBeginWell(
    lines: seq<Line>, i: nat, depth: int, start: nat, found: seq<(nat, nat)>)
    requires WellNested(lines) && i <= |lines| && depth == Depth(lines, i)
    requires AllBeginWell(lines, found) && Collecting(lines, start, i)
    ensures AllBeginWell(lines, Regions(lines, i, depth, start, found))
    decreases |lines| - i
  {
    if i == |lines| {
      if start < |lines| {
        OneMoreBeginsWell(lines, start, |lines|, found);
      }
    } else {
      var d := depth + Net(lines[i]);
      assert Depth(lines, i + 1) == d && d >= 0;
      EndsItemIff(lines[i]);
      if depth == 0 && Blank(lines[i]) {
        BlankHasNoBraces(lines[i]);
        assert SkippedAt(lines, i);
        RegionsBeginWell(lines, i + 1, depth, i + 1, found);
      } else if d == 0 && EndsItem(lines[i]) {
        OneMoreBeginsWell(lines, start, i + 1, found);
        assert CutAt(lines, i + 1);
        RegionsBeginWell(lines, i + 1, 0, i + 1, found + [(start, i + 1)]);
      } else {
        RegionsBeginWell(lines, i + 1, d, start, found);
      }
    }
  }

  /** In a well-nested source every region begins at the start, right after a cut or
      right after a blank line outside all braces, and holds no such line. */
  lemma TopLevelBeginsWell(lines: seq<Line>)
    requires WellNested(lines)
    ensures AllBeginWell(lines, TopLevel(lines))
  {
    RegionsBeginWell(lines, 0, 0, 0, []);
  }

  // ----- The first question of a round

  lemma {:induction false} DropAsks(oracle: Oracle, regions: seq<(nat, nat)>, k: nat, p: Pass)
    requires k <= |regions|
    ensures p.asked <= DropRegions(oracle, regions, k, p).asked
    decreases k
  {
    if k > 0 {
      DropAsks(oracle, regions, k - 1, Try(oracle, p, regions[k - 1].0, regions[k - 1].1));
    }
  }

  lemma {:induction false} SlideAsks(oracle: Oracle, width: nat, step: nat, index: nat, p: Pass)
    requires width >= 1 && step >= 1
    ensures p.asked <= Slide(oracle, width, step, index, p).asked
    decreases |p.now| - index
  {
    if index + width <= |p.now| {
      var next, q := SlideTurn(oracle, width, step, index, p);
      SlideAsks(oracle, width, step, next, q);
    }
  }

  lemma {:induction false} WindowsAsk(oracle: Oracle, sizes: seq<nat>, k: nat, p: Pass)
    requires k <= |sizes| && forall i :: 0 <= i < |sizes| ==> sizes[i] >= 1
    ensures p.asked <= Windows(oracle, sizes, k, p).asked
    decreases |sizes| - k
  {
    if k < |sizes| {
      SlideAsks(oracle, sizes[k], Stride(sizes[k]), 0, p);
      WindowsAsk(oracle, sizes, k + 1, Slide(oracle, sizes[k], Stride(sizes[k]), 0, p));
    }
  }

  /** A round first asks about deleting the last region. */
  lemma LastRegionFirst(oracle: Oracle, p: Pass, a: nat, b: nat)
    requires TopLevel(p.now) != [] && TopLevel(p.now)[|TopLevel(p.now)| - 1] == (a, b)
    requires Without(p.now, a, b) != []
    ensures var asked := Round(oracle, p).asked; |asked| > |p.asked| && asked[|p.asked|] == Without(p.now, a, b)
  {
    var regions := TopLevel(p.now);
    DropAsks(oracle, regions, |regions| - 1, Try(oracle, p, a, b));
    var r := RegionsOut(oracle, p);
    WindowsAsk(oracle, WidthsOf(|r.now|), 0, r);
  }

  // ----- An oracle that accepts everything

  predicate Braceless(lines: seq<Line>) { forall i :: 0 <= i < |lines| ==> Net(lines[i]) == 0 }

  ghost predicate AcceptsAll(oracle: Oracle) { forall c: seq<Line> :: c in oracle }

  lemma {:induction false} NoBraces(lines: seq<Line>, k: nat)
    requires k <= |lines| && Braceless(lines)
    ensures Depth(lines, k) == 0
  {
    if k > 0 {
      NoBraces(lines, k - 1);
    }
  }

  lemma WithoutFirst(lines: seq<Line>, width: nat)
    requires 0 < width < |lines| && Braceless(lines)
    ensures lines == lines[..width] + Without(lines, 0, width)
    ensures Without(lines, 0, width) != [] && Braceless(Without(lines, 0, width))
    ensures NetSum(lines[0..width]) == 0
  {
    NoBraces(lines[..width], width);
    assert lines[0..width] == lines[..width];
    assert Without(lines, 0, width) == lines[width..];
  }

  lemma FirstWindowGoes(oracle: Oracle, width: nat, step: nat, p: Pass) returns (q: Pass)
    requires width >= 1 && step >= 1 && width < |p.now| && AcceptsAll(oracle) && Braceless(p.now)
    ensures q.now == Without(p.now, 0, width)
    ensures Slide(oracle, width, step, 0, p) == Slide(oracle, width, step, 0, q)
  {
    WithoutFirst(p.now, width);
    assert Accepts(oracle, p.now, 0, width);
    q := Try(oracle, p, 0, width);
  }

  lemma LastWindowStays(oracle: Oracle, width: nat, step: nat, p: Pass)
    requires width >= 1 && step >= 1 && width >= |p.now|
    ensures Slide(oracle, width, step, 0, p).now == p.now
  {
    if width == |p.now| {
      assert Without(p.now, 0, width) == [];
      assert Slide(oracle, width, step, 0, p) == Slide(oracle, width, step, step, p);
    }
  }

  /** Where every candidate is accepted and no line has a brace, one window pass
      leaves no more than a window's lines, the last ones: after a deletion the same
      place is tried again. */
  lemma {:induction false} EverythingGoes(oracle: Oracle, width: nat, step: nat, p: Pass) returns (gone: seq<Line>)
    requires width >= 1 && step >= 1 && p.now != [] && AcceptsAll(oracle) && Braceless(p.now)
    ensures var r := Slide(oracle, width, step, 0, p).now; p.now == gone + r && 1 <= |r| <= width
    decreases |p.now|
  {
    gone := [];
    if width >= |p.now| {
      LastWindowStays(oracle, width, step, p);
    } else {
      var q := FirstWindowGoes(oracle, width, step, p);
      WithoutFirst(p.now, width);
      gone := EverythingGoes(oracle, width, step, q);
      gone := p.now[..width] + gone;
    }
  }
}
