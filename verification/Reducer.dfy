/** The line-deleting reducer of `scripts/c_reduce.py`: `top_level_regions`,
    `balanced`, `widths` and `reduce_source`. The interestingness command is a
    deterministic oracle on the candidate's text. */
module Reducer {
  import opened Text

  type Line = string

  // ----- Lines

  function Count(s: string, c: char): nat {
    if s == [] then 0 else (if s[0] == c then 1 else 0) + Count(s[1..], c)
  }

  /** `line.count("{") - line.count("}")` */
  function Net(line: Line): int { Count(line, '{') - Count(line, '}') }

  /** `not line.strip()` */
  predicate Blank(line: Line) { forall i :: 0 <= i < |line| ==> Space(line[i]) }

  /** `line.rstrip().endswith((";", "}"))` */
  predicate EndsItem(line: Line) {
    var s := StripRight(line);
    s != [] && (s[|s| - 1] == ';' || s[|s| - 1] == '}')
  }

  lemma {:induction false} BlankHasNoBraces(line: Line)
    requires Blank(line)
    ensures Net(line) == 0
  {
    if line != [] {
      assert Space(line[0]);
      BlankHasNoBraces(line[1..]);
    }
  }

  /** The brace depth after the first `k` lines. */
  function Depth(lines: seq<Line>, k: nat): int
    requires k <= |lines|
  {
    if k == 0 then 0 else Depth(lines, k - 1) + Net(lines[k - 1])
  }

  function NetSum(lines: seq<Line>): int { Depth(lines, |lines|) }

  lemma {:induction false} DepthSlice(lines: seq<Line>, a: nat, b: nat, n: nat)
    requires a <= n <= b <= |lines|
    ensures Depth(lines[a..b], n - a) == Depth(lines, n) - Depth(lines, a)
  {
    if a < n {
      DepthSlice(lines, a, b, n - 1);
    }
  }

  lemma NetSumSlice(lines: seq<Line>, a: nat, b: nat)
    requires a <= b <= |lines|
    ensures NetSum(lines[a..b]) == Depth(lines, b) - Depth(lines, a)
  {
    DepthSlice(lines, a, b, b);
  }

  /** The brace depth never goes negative and ends at zero. */
  ghost predicate WellNested(lines: seq<Line>) {
    NeverDips(lines, |lines|) && Depth(lines, |lines|) == 0
  }

  ghost predicate NeverDips(lines: seq<Line>, n: nat)
    requires n <= |lines|
  {
    forall k :: 0 <= k <= n ==> Depth(lines, k) >= 0
  }

  // ----- Regions

  /** The loop of `top_level_regions` from line `i` on, and the region left over. */
  function Regions(lines: seq<Line>, i: nat, depth: int, start: nat, found: seq<(nat, nat)>): seq<(nat, nat)>
    requires i <= |lines|
    decreases |lines| - i
  {
    if i == |lines| then
      if start < |lines| then found + [(start, |lines|)] else found
    else if depth == 0 && Blank(lines[i]) then
      Regions(lines, i + 1, depth, i + 1, found)
    else
      var d := depth + Net(lines[i]);
      if d <= 0 && (EndsItem(lines[i]) || d < 0) then
        Regions(lines, i + 1, 0, i + 1, found + [(start, i + 1)])
      else
        Regions(lines, i + 1, d, start, found)
  }

  function TopLevel(lines: seq<Line>): seq<(nat, nat)> { Regions(lines, 0, 0, 0, []) }

  /** Non-empty, inside the first `n` lines, one after the other. */
  ghost predicate Ordered(found: seq<(nat, nat)>, n: nat) {
    && (forall i :: 0 <= i < |found| ==> found[i].0 < found[i].1 <= n)
    && (forall i, j :: 0 <= i < j < |found| ==> found[i].1 <= found[j].0)
  }

  lemma {:induction false} RegionsAreOrdered(lines: seq<Line>, i: nat, depth: int, start: nat, found: seq<(nat, nat)>)
    requires start <= i <= |lines| && Ordered(found, start)
    ensures Ordered(Regions(lines, i, depth, start, found), |lines|)
    decreases |lines| - i
  {
    if i < |lines| {
      if depth == 0 && Blank(lines[i]) {
        RegionsAreOrdered(lines, i + 1, depth, i + 1, found);
      } else {
        var d := depth + Net(lines[i]);
        if d <= 0 && (EndsItem(lines[i]) || d < 0) {
          RegionsAreOrdered(lines, i + 1, 0, i + 1, found + [(start, i + 1)]);
        } else {
          RegionsAreOrdered(lines, i + 1, d, start, found);
        }
      }
    }
  }

  /** Regions never overlap and come in increasing order, on any input. */
  lemma TopLevelIsOrdered(lines: seq<Line>)
    ensures Ordered(TopLevel(lines), |lines|)
  {
    RegionsAreOrdered(lines, 0, 0, 0, []);
  }

  ghost predicate Balanced(lines: seq<Line>, region: (nat, nat)) {
    region.0 <= region.1 <= |lines| && NetSum(lines[region.0..region.1]) == 0
  }

  ghost predicate AllBalanced(lines: seq<Line>, found: seq<(nat, nat)>) {
    forall i :: 0 <= i < |found| ==> Balanced(lines, found[i])
  }

  /** The loop only ever appends regions. */
  lemma {:induction false} KeepsFound(
    lines: seq<Line>, i: nat, depth: int, start: nat, found: seq<(nat, nat)>, k: nat)
    requires i <= |lines| && k < |found|
    ensures var r := Regions(lines, i, depth, start, found); k < |r| && r[k] == found[k]
    decreases |lines| - i
  {
    if i < |lines| {
      if depth == 0 && Blank(lines[i]) {
        KeepsFound(lines, i + 1, depth, i + 1, found, k);
      } else {
        var d := depth + Net(lines[i]);
        if d <= 0 && (EndsItem(lines[i]) || d < 0) {
          KeepsFound(lines, i + 1, 0, i + 1, found + [(start, i + 1)], k);
        } else {
          KeepsFound(lines, i + 1, d, start, found, k);
        }
      }
    }
  }

  /** What is left over at the end is balanced when the depth is back at zero. */
  lemma LastRegion(lines: seq<Line>, depth: int, start: nat, found: seq<(nat, nat)>)
    requires start <= |lines| && AllBalanced(lines, found)
    requires NeverDips(lines, |lines|) && depth == NetSum(lines) && Depth(lines, start) == 0
    ensures AllBalanced(lines, Regions(lines, |lines|, depth, start, found)) <==> WellNested(lines)
  {
    NetSumSlice(lines, start, |lines|);
    if start < |lines| {
      var r := found + [(start, |lines|)];
      assert r[|found|] == (start, |lines|);
      assert Balanced(lines, r[|found|]) <==> depth == 0;
    }
  }

  /** Where the depth dips, the region cut there is not balanced. */
  lemma DippedRegion(lines: seq<Line>, i: nat, start: nat, found: seq<(nat, nat)>)
    requires start <= i < |lines|
    requires Depth(lines, start) == 0 && Depth(lines, i + 1) < 0
    ensures !AllBalanced(lines, Regions(lines, i + 1, 0, i + 1, found + [(start, i + 1)]))
    ensures !WellNested(lines)
  {
    NetSumSlice(lines, start, i + 1);
    var r := Regions(lines, i + 1, 0, i + 1, found + [(start, i + 1)]);
    KeepsFound(lines, i + 1, 0, i + 1, found + [(start, i + 1)], |found|);
    assert r[|found|] == (start, i + 1);
    assert !Balanced(lines, r[|found|]);
  }

  lemma StillNoDip(lines: seq<Line>, i: nat)
    requires i < |lines| && NeverDips(lines, i) && Depth(lines, i + 1) >= 0
    ensures NeverDips(lines, i + 1)
  {
  }

  lemma OneMoreRegion(lines: seq<Line>, i: nat, start: nat, found: seq<(nat, nat)>)
    requires start <= i < |lines| && AllBalanced(lines, found) && Depth(lines, start) == Depth(lines, i + 1)
    ensures AllBalanced(lines, found + [(start, i + 1)])
  {
    NetSumSlice(lines, start, i + 1);
  }

  lemma {:induction false} RegionsBalancedIff(
    lines: seq<Line>, i: nat, depth: int, start: nat, found: seq<(nat, nat)>)
    requires start <= i <= |lines| && AllBalanced(lines, found)
    requires NeverDips(lines, i) && depth == Depth(lines, i) && Depth(lines, start) == 0
    ensures AllBalanced(lines, Regions(lines, i, depth, start, found)) <==> WellNested(lines)
    decreases |lines| - i
  {
    if i == |lines| {
      LastRegion(lines, depth, start, found);
    } else {
      var d := depth + Net(lines[i]);
      if depth == 0 && Blank(lines[i]) {
        BlankHasNoBraces(lines[i]);
        StillNoDip(lines, i);
        RegionsBalancedIff(lines, i + 1, depth, i + 1, found);
      } else if d < 0 {
        DippedRegion(lines, i, start, found);
      } else if d == 0 && EndsItem(lines[i]) {
        StillNoDip(lines, i);
        OneMoreRegion(lines, i, start, found);
        RegionsBalancedIff(lines, i + 1, 0, i + 1, found + [(start, i + 1)]);
      } else {
        StillNoDip(lines, i);
        RegionsBalancedIff(lines, i + 1, d, start, found);
      }
    }
  }

  /** `top_level_regions` yields only balanced regions exactly when the brace depth
      of the source never goes negative and ends at zero. */
  lemma TopLevelBalancedIff(lines: seq<Line>)
    ensures AllBalanced(lines, TopLevel(lines)) <==> WellNested(lines)
  {
    RegionsBalancedIff(lines, 0, 0, 0, []);
  }

  // ----- Deleting a window

  /** `lines[:a] + lines[b:]` */
  function Without(lines: seq<Line>, a: nat, b: nat): seq<Line> {
    (if a <= |lines| then lines[..a] else lines) + (if b <= |lines| then lines[b..] else [])
  }

  /** A prefix of what is left has the depth of a prefix of the source. */
  lemma {:induction false} WithoutPrefix(lines: seq<Line>, a: nat, b: nat, k: nat)
    requires a <= b <= |lines| && Depth(lines, a) == Depth(lines, b) && k <= |lines| - (b - a)
    ensures |Without(lines, a, b)| == |lines| - (b - a)
    ensures Depth(Without(lines, a, b), k) == Depth(lines, if k <= a then k else k + (b - a))
  {
    if k > 0 {
      WithoutPrefix(lines, a, b, k - 1);
    }
  }

  /** Deleting a balanced window from a well-nested source leaves it well nested. */
  lemma WithoutKeepsNesting(lines: seq<Line>, a: nat, b: nat)
    requires a <= b <= |lines| && WellNested(lines) && NetSum(lines[a..b]) == 0
    ensures WellNested(Without(lines, a, b))
  {
    var r := Without(lines, a, b);
    NetSumSlice(lines, a, b);
    forall k | 0 <= k <= |r|
      ensures Depth(r, k) >= 0
    {
      WithoutPrefix(lines, a, b, k);
    }
    WithoutPrefix(lines, a, b, |r|);
  }

  /** `a` can be had from `b` by deleting lines. */
  ghost predicate Subsequence(a: seq<Line>, b: seq<Line>)
    decreases |b|
  {
    if a == [] then true
    else b != [] && ((a[0] == b[0] && Subsequence(a[1..], b[1..])) || Subsequence(a, b[1..]))
  }

  lemma {:induction false} SubsequenceRefl(a: seq<Line>)
    ensures Subsequence(a, a)
    decreases |a|
  {
    if a != [] {
      SubsequenceRefl(a[1..]);
    }
  }

  lemma {:induction false} SubsequenceTrans(a: seq<Line>, b: seq<Line>, c: seq<Line>)
    requires Subsequence(a, b) && Subsequence(b, c)
    ensures Subsequence(a, c)
    decreases |c|, |b|
  {
    if a == [] {
    } else if b[0] == c[0] && Subsequence(b[1..], c[1..]) {
      if a[0] == b[0] && Subsequence(a[1..], b[1..]) {
        SubsequenceTrans(a[1..], b[1..], c[1..]);
      } else {
        SubsequenceTrans(a, b[1..], c[1..]);
      }
    } else {
      SubsequenceTrans(a, b, c[1..]);
    }
  }

  lemma {:induction false} WithoutIsSubsequence(lines: seq<Line>, a: nat, b: nat)
    requires a <= b <= |lines|
    ensures Subsequence(Without(lines, a, b), lines)
    decreases b
  {
    if b == 0 {
      assert Without(lines, a, b) == lines;
      SubsequenceRefl(lines);
    } else if a == 0 {
      WithoutIsSubsequence(lines[1..], 0, b - 1);
      assert Without(lines, 0, b) == Without(lines[1..], 0, b - 1);
    } else {
      WithoutIsSubsequence(lines[1..], a - 1, b - 1);
      assert Without(lines, a, b)[1..] == Without(lines[1..], a - 1, b - 1);
    }
  }

  // ----- The oracle and what a result promises

  /** The candidates `interesting` says yes to. */
  type Oracle = iset<seq<Line>>

  /** Whether `interesting` is asked about deleting `a..b`, and says yes. */
  predicate Accepts(oracle: Oracle, lines: seq<Line>, a: nat, b: nat) {
    Without(lines, a, b) != [] && Without(lines, a, b) in oracle
  }

  /** `now` came from `start` by deletions, and is `start` or was accepted. */
  ghost predicate ReducedTo(oracle: Oracle, start: seq<Line>, now: seq<Line>) {
    && Subsequence(now, start) && |now| <= |start|
    && (|now| == |start| ==> now == start)
    && (now == start || (now != [] && now in oracle))
    && (WellNested(start) ==> WellNested(now))
  }

  lemma DeletionReduces(oracle: Oracle, start: seq<Line>, now: seq<Line>, a: nat, b: nat)
    requires ReducedTo(oracle, start, now) && a < b <= |now| && Accepts(oracle, now, a, b)
    requires WellNested(start) ==> NetSum(now[a..b]) == 0
    ensures ReducedTo(oracle, start, Without(now, a, b))
  {
    WithoutIsSubsequence(now, a, b);
    SubsequenceTrans(Without(now, a, b), now, start);
    if WellNested(start) {
      WithoutKeepsNesting(now, a, b);
    }
  }

  /** A window of `width` lines the window pass would delete. */
  predicate Deletable(oracle: Oracle, lines: seq<Line>, at: nat, width: nat) {
    at + width <= |lines| && NetSum(lines[at..at + width]) == 0 && Accepts(oracle, lines, at, at + width)
  }

  /** No balanced window of `width` lines below line `n` can go. */
  ghost predicate NoWindow(oracle: Oracle, lines: seq<Line>, width: nat, n: nat) {
    forall at: nat :: at < n ==> !Deletable(oracle, lines, at, width)
  }

  /** `k` times `step`. */
  function Multiple(k: nat, step: nat): nat {
    if k == 0 then 0 else Multiple(k - 1, step) + step
  }

  lemma {:induction false} MultipleIsProduct(k: nat, step: nat)
    ensures Multiple(k, step) == k * step
  {
    if k > 0 {
      MultipleIsProduct(k - 1, step);
      assert k * step == (k - 1) * step + step;
    }
  }

  /** The window of `width` lines at the `k`-th multiple of `step` can go. */
  ghost predicate GoesAt(oracle: Oracle, lines: seq<Line>, width: nat, step: nat, k: nat) {
    Deletable(oracle, lines, Multiple(k, step), width)
  }

  /** `width` is `from`, or its half, or the half of that, and so on. */
  predicate HalvedTo(from: nat, width: nat) { from == width || (from > width && HalvedTo(from / 2, width)) }

  /** Nor can a wider window at a multiple of its width, for any width that halving
      half the source comes to. */
  ghost predicate NoWideWindow(oracle: Oracle, lines: seq<Line>) {
    forall width, k: nat :: width > 4 && HalvedTo(|lines| / 2, width) ==> !GoesAt(oracle, lines, width, width, k)
  }

  /** None of the regions from the `k`-th on can go. */
  ghost predicate NoRegion(oracle: Oracle, lines: seq<Line>, regions: seq<(nat, nat)>, k: nat) {
    forall i :: k <= i < |regions| ==> !Accepts(oracle, lines, regions[i].0, regions[i].1)
  }

  /** Nothing a pass looks for can still be deleted. */
  ghost predicate LocallyMinimal(oracle: Oracle, lines: seq<Line>) {
    && NoRegion(oracle, lines, TopLevel(lines), 0)
    && (forall width :: 1 <= width <= 4 ==> NoWindow(oracle, lines, width, |lines|))
    && NoWideWindow(oracle, lines)
  }

  // ----- What the passes compute

  /** Where a reduction stands: the lines left, and every candidate asked about. */
  datatype Pass = Pass(now: seq<Line>, asked: seq<seq<Line>>)

  /** Ask about deleting `a..b`, and do so if the oracle agrees. */
  function Try(oracle: Oracle, p: Pass, a: nat, b: nat): Pass {
    var candidate := Without(p.now, a, b);
    if candidate == [] then p
    else Pass(if candidate in oracle then candidate else p.now, p.asked + [candidate])
  }

  /** The region pass over the regions below `k`, the last one first. */
  function DropRegions(oracle: Oracle, regions: seq<(nat, nat)>, k: nat, p: Pass): Pass
    requires k <= |regions|
    decreases k
  {
    if k == 0 then p
    else DropRegions(oracle, regions, k - 1, Try(oracle, p, regions[k - 1].0, regions[k - 1].1))
  }

  /** The window pass at one width, from line `index` on. */
  function Slide(oracle: Oracle, width: nat, step: nat, index: nat, p: Pass): Pass
    requires width >= 1 && step >= 1
    decreases |p.now| - index
  {
    if index + width > |p.now| then p
    else if NetSum(p.now[index..index + width]) != 0 then Slide(oracle, width, step, index + step, p)
    else
      var q := Try(oracle, p, index, index + width);
      if Accepts(oracle, p.now, index, index + width) then Slide(oracle, width, step, index, q)
      else Slide(oracle, width, step, index + step, q)
  }

  /** A narrow window slides by one line, a wide one by its own width. */
  function Stride(width: nat): nat { if width <= 4 then 1 else width }

  function Windows(oracle: Oracle, sizes: seq<nat>, k: nat, p: Pass): Pass
    requires k <= |sizes| && forall i :: 0 <= i < |sizes| ==> sizes[i] >= 1
    decreases |sizes| - k
  {
    if k == |sizes| then p
    else Windows(oracle, sizes, k + 1, Slide(oracle, sizes[k], Stride(sizes[k]), 0, p))
  }

  function WidthsFrom(width: nat): (sizes: seq<nat>)
    ensures forall i :: 0 <= i < |sizes| ==> sizes[i] >= 1
  {
    if width > 4 then [width] + WidthsFrom(width / 2) else [4, 3, 2, 1]
  }

  function WidthsOf(count: nat): (sizes: seq<nat>)
    ensures forall i :: 0 <= i < |sizes| ==> sizes[i] >= 1
  {
    WidthsFrom(if count / 2 > 1 then count / 2 else 1)
  }

  /** The four narrow windows always come last. */
  lemma {:induction false} NarrowComeLast(width: nat, narrow: nat)
    requires 1 <= narrow <= 4
    ensures var sizes := WidthsFrom(width); |sizes| >= 4 && sizes[|sizes| - narrow] == narrow
  {
    if width > 4 {
      NarrowComeLast(width / 2, narrow);
    }
  }

  /** The list by itself: half the lines first where that is more than four, every
      other width above four half the one before, and 4, 3, 2, 1 at the end. */
  ghost predicate Halves(count: nat, sizes: seq<nat>) {
    var wide := |sizes| - 4;
    && wide >= 0 && sizes[wide] == 4 && sizes[wide + 1] == 3 && sizes[wide + 2] == 2 && sizes[wide + 3] == 1
    && (count / 2 > 4 <==> wide > 0) && (wide > 0 ==> sizes[0] == count / 2 && sizes[wide - 1] / 2 <= 4)
    && (forall i :: 0 < i < wide ==> sizes[i] == sizes[i - 1] / 2)
    && (forall i :: 0 <= i < wide ==> sizes[i] > 4)
  }

  lemma OneMoreHalf(half: nat, width: nat, count: nat, rest: seq<nat>)
    requires width > 4 && half / 2 == width / 2 && Halves(half, rest) && count / 2 == width
    ensures Halves(count, [width] + rest)
  {
    var sizes := [width] + rest;
    forall i | 0 < i < |sizes| - 4 ensures sizes[i] == sizes[i - 1] / 2 {
      assert sizes[i] == rest[i - 1] && (i > 1 ==> sizes[i - 1] == rest[i - 2]);
    }
  }

  lemma {:induction false} WidthsHalve(width: nat, count: nat)
    requires count / 2 == width || (width <= 4 && count / 2 <= 4)
    ensures Halves(count, WidthsFrom(width))
  {
    if width > 4 {
      WidthsHalve(width / 2, width);
      OneMoreHalf(width, width, count, WidthsFrom(width / 2));
    }
  }

  lemma WidthsAreHalves(count: nat)
    ensures Halves(count, WidthsOf(count))
  {
    WidthsHalve(if count / 2 > 1 then count / 2 else 1, count);
  }

  /** Every width above four that halving comes to is tried. */
  lemma {:induction false} WideIsTried(from: nat, width: nat) returns (i: nat)
    requires width > 4 && HalvedTo(from, width)
    ensures i < |WidthsFrom(from)| && WidthsFrom(from)[i] == width
  {
    if from == width {
      i := 0;
    } else {
      i := WideIsTried(from / 2, width);
      i := i + 1;
    }
  }

  function RegionsOut(oracle: Oracle, p: Pass): Pass {
    DropRegions(oracle, TopLevel(p.now), |TopLevel(p.now)|, p)
  }

  function WindowsOut(oracle: Oracle, p: Pass): Pass {
    Windows(oracle, WidthsOf(|p.now|), 0, p)
  }

  function Round(oracle: Oracle, p: Pass): Pass { WindowsOut(oracle, RegionsOut(oracle, p)) }

  // ----- What every pass keeps

  ghost predicate AllNested(tried: seq<seq<Line>>) {
    forall i :: 0 <= i < |tried| ==> WellNested(tried[i])
  }

  /** A reduction of `start` under way: the lines left are a reduction of it, and
      if it was well nested so was every candidate. */
  ghost predicate Sound(oracle: Oracle, start: seq<Line>, p: Pass) {
    ReducedTo(oracle, start, p.now) && (WellNested(start) ==> AllNested(p.asked))
  }

  lemma TryShrinks(oracle: Oracle, p: Pass, a: nat, b: nat)
    requires a < b <= |p.now|
    ensures var q := Try(oracle, p, a, b).now;
      if Accepts(oracle, p.now, a, b) then q == Without(p.now, a, b) && |q| < |p.now| else q == p.now
  {
  }

  lemma TryIsSound(oracle: Oracle, start: seq<Line>, p: Pass, a: nat, b: nat)
    requires Sound(oracle, start, p) && a < b <= |p.now|
    requires WellNested(start) ==> NetSum(p.now[a..b]) == 0
    ensures Sound(oracle, start, Try(oracle, p, a, b))
  {
    if WellNested(start) {
      WithoutKeepsNesting(p.now, a, b);
    }
    if Accepts(oracle, p.now, a, b) {
      DeletionReduces(oracle, start, p.now, a, b);
    }
  }

  lemma {:induction false} SlideShrinks(oracle: Oracle, width: nat, step: nat, index: nat, p: Pass)
    requires width >= 1 && step >= 1
    ensures var r := Slide(oracle, width, step, index, p).now; r == p.now || |r| < |p.now|
    decreases |p.now| - index
  {
    if index + width <= |p.now| {
      var q := Try(oracle, p, index, index + width);
      TryShrinks(oracle, p, index, index + width);
      if NetSum(p.now[index..index + width]) != 0 {
        SlideShrinks(oracle, width, step, index + step, p);
      } else if Accepts(oracle, p.now, index, index + width) {
        SlideShrinks(oracle, width, step, index, q);
      } else {
        SlideShrinks(oracle, width, step, index + step, q);
      }
    }
  }

  /** One turn of the window loop: where it goes on, and with what. */
  lemma SlideTurn(oracle: Oracle, width: nat, step: nat, index: nat, p: Pass) returns (next: nat, q: Pass)
    requires width >= 1 && step >= 1 && index + width <= |p.now|
    ensures Slide(oracle, width, step, index, p) == Slide(oracle, width, step, next, q)
    ensures index <= next && |q.now| - next < |p.now| - index
    ensures q == p || (NetSum(p.now[index..index + width]) == 0 && q == Try(oracle, p, index, index + width))
  {
    TryShrinks(oracle, p, index, index + width);
    if NetSum(p.now[index..index + width]) != 0 {
      next, q := index + step, p;
    } else {
      q := Try(oracle, p, index, index + width);
      next := if Accepts(oracle, p.now, index, index + width) then index else index + step;
    }
  }

  lemma SoundTurn(oracle: Oracle, start: seq<Line>, width: nat, step: nat, index: nat, p: Pass)
    returns (next: nat, q: Pass)
    requires width >= 1 && step >= 1 && index + width <= |p.now| && Sound(oracle, start, p)
    ensures Slide(oracle, width, step, index, p) == Slide(oracle, width, step, next, q)
    ensures index <= next && |q.now| - next < |p.now| - index && Sound(oracle, start, q)
  {
    next, q := SlideTurn(oracle, width, step, index, p);
    if q != p {
      TryIsSound(oracle, start, p, index, index + width);
    }
  }

  lemma {:induction false} SlideIsSound(oracle: Oracle, start: seq<Line>, width: nat, step: nat, index: nat, p: Pass)
    requires width >= 1 && step >= 1 && Sound(oracle, start, p)
    ensures Sound(oracle, start, Slide(oracle, width, step, index, p))
    decreases |p.now| - index
  {
    if index + width <= |p.now| {
      var next, q := SoundTurn(oracle, start, width, step, index, p);
      SlideIsSound(oracle, start, width, step, next, q);
    }
  }

  /** A window that goes leaves the pass shorter. */
  lemma SlideDeletes(oracle: Oracle, width: nat, step: nat, index: nat, p: Pass)
    requires width >= 1 && step >= 1 && Deletable(oracle, p.now, index, width)
    ensures |Slide(oracle, width, step, index, p).now| < |p.now|
  {
    var q := Try(oracle, p, index, index + width);
    TryShrinks(oracle, p, index, index + width);
    SlideShrinks(oracle, width, step, index, q);
  }

  lemma SlideSkips(oracle: Oracle, width: nat, step: nat, index: nat, p: Pass) returns (q: Pass)
    requires width >= 1 && step >= 1 && index + width <= |p.now| && !Deletable(oracle, p.now, index, width)
    ensures q.now == p.now && Slide(oracle, width, step, index, p) == Slide(oracle, width, step, index + step, q)
  {
    TryShrinks(oracle, p, index, index + width);
    q := if NetSum(p.now[index..index + width]) != 0 then p else Try(oracle, p, index, index + width);
  }

  lemma {:induction false} MultiplesGrow(j: nat, k: nat, step: nat)
    requires k <= j
    ensures Multiple(k, step) <= Multiple(j, step)
  {
    if k < j {
      MultiplesGrow(j - 1, k, step);
    }
  }

  /** A window pass that deletes nothing has found nothing to delete at any multiple
      of its step. */
  lemma {:induction false} SlideFindsAll(oracle: Oracle, width: nat, step: nat, k: nat, p: Pass)
    requires width >= 1 && step >= 1 && forall j: nat :: j < k ==> !GoesAt(oracle, p.now, width, step, j)
    requires |Slide(oracle, width, step, Multiple(k, step), p).now| == |p.now|
    ensures forall j: nat :: !GoesAt(oracle, p.now, width, step, j)
    decreases |p.now| - Multiple(k, step)
  {
    var index := Multiple(k, step);
    if index + width > |p.now| {
      forall j: nat ensures !GoesAt(oracle, p.now, width, step, j) {
        if j >= k {
          MultiplesGrow(j, k, step);
        }
      }
    } else if Deletable(oracle, p.now, index, width) {
      SlideDeletes(oracle, width, step, index, p);
    } else {
      var q := SlideSkips(oracle, width, step, index, p);
      assert Multiple(k + 1, step) == index + step;
      SlideFindsAll(oracle, width, step, k + 1, q);
    }
  }

  lemma NarrowFindsAll(oracle: Oracle, width: nat, p: Pass)
    requires width >= 1 && |Slide(oracle, width, 1, 0, p).now| == |p.now|
    ensures NoWindow(oracle, p.now, width, |p.now|)
  {
    SlideFindsAll(oracle, width, 1, 0, p);
    forall at: nat | at < |p.now| ensures !Deletable(oracle, p.now, at, width) {
      MultipleIsProduct(at, 1);
      assert !GoesAt(oracle, p.now, width, 1, at);
    }
  }

  lemma {:induction false} WindowsShrink(oracle: Oracle, sizes: seq<nat>, k: nat, p: Pass)
    requires k <= |sizes| && (forall i :: 0 <= i < |sizes| ==> sizes[i] >= 1)
    ensures var r := Windows(oracle, sizes, k, p).now; r == p.now || |r| < |p.now|
    decreases |sizes| - k
  {
    if k < |sizes| {
      SlideShrinks(oracle, sizes[k], Stride(sizes[k]), 0, p);
      WindowsShrink(oracle, sizes, k + 1, Slide(oracle, sizes[k], Stride(sizes[k]), 0, p));
    }
  }

  lemma {:induction false} WindowsAreSound(oracle: Oracle, start: seq<Line>, sizes: seq<nat>, k: nat, p: Pass)
    requires k <= |sizes| && (forall i :: 0 <= i < |sizes| ==> sizes[i] >= 1) && Sound(oracle, start, p)
    ensures Sound(oracle, start, Windows(oracle, sizes, k, p))
    decreases |sizes| - k
  {
    if k < |sizes| {
      SlideIsSound(oracle, start, sizes[k], Stride(sizes[k]), 0, p);
      WindowsAreSound(oracle, start, sizes, k + 1, Slide(oracle, sizes[k], Stride(sizes[k]), 0, p));
    }
  }

  /** What a pass at one width rules out when it deletes nothing. */
  ghost predicate NothingGoes(oracle: Oracle, lines: seq<Line>, width: nat) {
    if width <= 4 then NoWindow(oracle, lines, width, |lines|)
    else forall k: nat :: !GoesAt(oracle, lines, width, width, k)
  }

  lemma {:induction false} WindowsFindAll(oracle: Oracle, sizes: seq<nat>, k: nat, p: Pass, i: nat)
    requires k <= i < |sizes| && (forall j :: 0 <= j < |sizes| ==> sizes[j] >= 1)
    requires |Windows(oracle, sizes, k, p).now| == |p.now|
    ensures NothingGoes(oracle, p.now, sizes[i])
    decreases |sizes| - k
  {
    var q := Slide(oracle, sizes[k], Stride(sizes[k]), 0, p);
    SlideShrinks(oracle, sizes[k], Stride(sizes[k]), 0, p);
    WindowsShrink(oracle, sizes, k + 1, q);
    if k < i {
      WindowsFindAll(oracle, sizes, k + 1, q, i);
    } else if sizes[k] <= 4 {
      NarrowFindsAll(oracle, sizes[k], p);
    } else {
      SlideFindsAll(oracle, sizes[k], sizes[k], 0, p);
    }
  }

  // ----- The region pass and its offsets

  /** The source from the end of region `k - 1` on, with region `k + j` cut out at
      its original offsets where `gone[j]`. */
  ghost function Cut(lines: seq<Line>, regions: seq<(nat, nat)>, k: nat, gone: seq<bool>): seq<Line>
    requires Ordered(regions, |lines|) && k + |gone| == |regions|
    decreases |gone|
  {
    if gone == [] then lines[EndOf(regions, k)..]
    else
      OffsetsStayInside(regions, |lines|, k);
      lines[EndOf(regions, k)..regions[k].0]
      + (if gone[0] then [] else lines[regions[k].0..regions[k].1])
      + Cut(lines, regions, k + 1, gone[1..])
  }

  ghost function EndOf(regions: seq<(nat, nat)>, k: nat): (end: nat)
    requires k <= |regions|
  {
    if k == 0 then 0 else regions[k - 1].1
  }

  /** One step of the region pass: the offsets of a region still point at its own
      lines, and dropping them there is dropping them from the original. */
  lemma OffsetsStayValid(lines: seq<Line>, rest: seq<Line>, e: nat, a: nat, b: nat)
    requires e <= a < b <= |lines|
    ensures var now := lines[..b] + rest;
      && now[a..b] == lines[a..b]
      && now == lines[..e] + (lines[e..a] + lines[a..b] + rest)
      && Without(now, a, b) == lines[..e] + (lines[e..a] + [] + rest)
  {
  }

  lemma OffsetsStayInside(regions: seq<(nat, nat)>, n: nat, k: nat)
    requires Ordered(regions, n) && k < |regions|
    ensures EndOf(regions, k) <= regions[k].0 < regions[k].1 <= n
    ensures EndOf(regions, k + 1) == regions[k].1
  {
  }

  lemma CutStep(lines: seq<Line>, regions: seq<(nat, nat)>, k: nat, g: bool, gone: seq<bool>)
    requires Ordered(regions, |lines|) && k + 1 + |gone| == |regions|
    ensures EndOf(regions, k) <= regions[k].0 < regions[k].1 <= |lines|
    ensures Cut(lines, regions, k, [g] + gone)
      == lines[EndOf(regions, k)..regions[k].0] + (if g then [] else lines[regions[k].0..regions[k].1])
         + Cut(lines, regions, k + 1, gone)
  {
    assert ([g] + gone)[1..] == gone;
  }

  /** After regions `k` on were tried, `gone` says which of them went. */
  ghost predicate Laid(lines: seq<Line>, regions: seq<(nat, nat)>, k: nat, gone: seq<bool>, now: seq<Line>) {
    && Ordered(regions, |lines|) && k + |gone| == |regions|
    && now == lines[..EndOf(regions, k)] + Cut(lines, regions, k, gone)
  }

  lemma StepOffsets(lines: seq<Line>, regions: seq<(nat, nat)>, k: nat, gone: seq<bool>, now: seq<Line>)
    requires Laid(lines, regions, k + 1, gone, now)
    ensures var (a, b) := regions[k];
      && a < b <= |now| && b <= |lines| && now[a..b] == lines[a..b]
      && Laid(lines, regions, k, [false] + gone, now)
      && Laid(lines, regions, k, [true] + gone, Without(now, a, b))
  {
    OffsetsStayInside(regions, |lines|, k);
    CutStep(lines, regions, k, false, gone);
    CutStep(lines, regions, k, true, gone);
    OffsetsStayValid(lines, Cut(lines, regions, k + 1, gone), EndOf(regions, k), regions[k].0, regions[k].1);
  }

  lemma TryRegion(oracle: Oracle, lines: seq<Line>, regions: seq<(nat, nat)>, k: nat, gone: seq<bool>, p: Pass)
    requires Laid(lines, regions, k + 1, gone, p.now)
    ensures var (a, b) := regions[k]; var q := Try(oracle, p, a, b);
      && a < b <= |p.now| && b <= |lines| && p.now[a..b] == lines[a..b]
      && (if Accepts(oracle, p.now, a, b) then |q.now| < |p.now| else q.now == p.now)
      && Laid(lines, regions, k, [Accepts(oracle, p.now, a, b)] + gone, q.now)
  {
    var (a, b) := regions[k];
    StepOffsets(lines, regions, k, gone, p.now);
    TryShrinks(oracle, p, a, b);
  }

  /** Which regions went: each was tried with the fate of all later ones decided, and
      went exactly if the oracle agreed. */
  ghost predicate Chosen(oracle: Oracle, lines: seq<Line>, regions: seq<(nat, nat)>, k: nat, gone: seq<bool>)
    requires Ordered(regions, |lines|) && k + |gone| == |regions|
    decreases |gone|
  {
    gone == []
    || (&& gone[0] == Accepts(oracle, lines[..regions[k].1] + Cut(lines, regions, k + 1, gone[1..]),
                              regions[k].0, regions[k].1)
        && Chosen(oracle, lines, regions, k + 1, gone[1..]))
  }

  lemma ChosenStep(
    oracle: Oracle, lines: seq<Line>, regions: seq<(nat, nat)>, k: nat, gone: seq<bool>, now: seq<Line>)
    requires Laid(lines, regions, k + 1, gone, now) && Chosen(oracle, lines, regions, k + 1, gone)
    ensures Chosen(oracle, lines, regions, k, [Accepts(oracle, now, regions[k].0, regions[k].1)] + gone)
  {
    var g := Accepts(oracle, now, regions[k].0, regions[k].1);
    assert ([g] + gone)[1..] == gone;
  }

  /** What every decision of the region pass keeps holds of all of them. */
  lemma {:induction false} DropDecides(
    keep: iset<(nat, seq<bool>)>, oracle: Oracle, lines: seq<Line>, regions: seq<(nat, nat)>, k: nat, gone: seq<bool>,
    p: Pass)
    returns (all: seq<bool>)
    requires Laid(lines, regions, k, gone, p.now) && (k, gone) in keep
    requires forall j: nat, g, now :: (j + 1, g) in keep && Laid(lines, regions, j + 1, g, now) ==>
               (j, [Accepts(oracle, now, regions[j].0, regions[j].1)] + g) in keep
    ensures Laid(lines, regions, 0, all, DropRegions(oracle, regions, k, p).now) && (0, all) in keep
    decreases k
  {
    if k == 0 {
      all := gone;
    } else {
      var (a, b) := regions[k - 1];
      TryRegion(oracle, lines, regions, k - 1, gone, p);
      var j: nat := k - 1;
      assert (j + 1, gone) in keep && Laid(lines, regions, j + 1, gone, p.now);
      var more := [Accepts(oracle, p.now, a, b)] + gone;
      all := DropDecides(keep, oracle, lines, regions, j, more, Try(oracle, p, a, b));
    }
  }

  lemma DropChooses(oracle: Oracle, lines: seq<Line>, regions: seq<(nat, nat)>, p: Pass) returns (all: seq<bool>)
    requires Ordered(regions, |lines|) && p.now == lines
    ensures Laid(lines, regions, 0, all, DropRegions(oracle, regions, |regions|, p).now)
    ensures Chosen(oracle, lines, regions, 0, all)
  {
    var keep := iset k: nat, g: seq<bool> | k + |g| == |regions| && Chosen(oracle, lines, regions, k, g) :: (k, g);
    forall j: nat, g, now | (j + 1, g) in keep && Laid(lines, regions, j + 1, g, now)
      ensures (j, [Accepts(oracle, now, regions[j].0, regions[j].1)] + g) in keep
    {
      ChosenStep(oracle, lines, regions, j, g, now);
    }
    NothingGone(lines, regions);
    all := DropDecides(keep, oracle, lines, regions, |regions|, [], p);
  }

  /** The region pass leaves the source with exactly some of its regions cut out
      at their original offsets. */
  lemma {:induction false} DropCutsRegions(
    oracle: Oracle, lines: seq<Line>, regions: seq<(nat, nat)>, k: nat, gone: seq<bool>, p: Pass)
    returns (all: seq<bool>)
    requires Laid(lines, regions, k, gone, p.now)
    ensures var r := DropRegions(oracle, regions, k, p).now;
      Laid(lines, regions, 0, all, r) && (r == p.now || |r| < |p.now|)
    decreases k
  {
    if k == 0 {
      all := gone;
    } else {
      var (a, b) := regions[k - 1];
      TryRegion(oracle, lines, regions, k - 1, gone, p);
      var more := [Accepts(oracle, p.now, a, b)] + gone;
      all := DropCutsRegions(oracle, lines, regions, k - 1, more, Try(oracle, p, a, b));
    }
  }

  lemma {:induction false} DropIsSound(
    oracle: Oracle, start: seq<Line>, lines: seq<Line>, regions: seq<(nat, nat)>, k: nat, gone: seq<bool>, p: Pass)
    requires Laid(lines, regions, k, gone, p.now) && Sound(oracle, start, p)
    requires WellNested(start) ==> AllBalanced(lines, regions)
    ensures Sound(oracle, start, DropRegions(oracle, regions, k, p))
    decreases k
  {
    if k > 0 {
      var (a, b) := regions[k - 1];
      TryRegion(oracle, lines, regions, k - 1, gone, p);
      assert WellNested(start) ==> Balanced(lines, regions[k - 1]);
      TryIsSound(oracle, start, p, a, b);
      DropIsSound(oracle, start, lines, regions, k - 1, [Accepts(oracle, p.now, a, b)] + gone, Try(oracle, p, a, b));
    }
  }

  lemma {:induction false} DropShrinks(oracle: Oracle, regions: seq<(nat, nat)>, k: nat, p: Pass)
    requires k <= |regions| && forall i :: 0 <= i < |regions| ==> regions[i].0 < regions[i].1
    ensures |DropRegions(oracle, regions, k, p).now| <= |p.now|
    decreases k
  {
    if k > 0 {
      var (a, b) := regions[k - 1];
      DropShrinks(oracle, regions, k - 1, Try(oracle, p, a, b));
    }
  }

  /** A region pass that deletes nothing has found nothing to delete. */
  lemma {:induction false} DropFindsAll(oracle: Oracle, regions: seq<(nat, nat)>, k: nat, p: Pass)
    requires k <= |regions| && Ordered(regions, |p.now|) && NoRegion(oracle, p.now, regions, k)
    requires |DropRegions(oracle, regions, k, p).now| == |p.now|
    ensures NoRegion(oracle, p.now, regions, 0)
    decreases k
  {
    if k > 0 {
      var (a, b) := regions[k - 1];
      var q := Try(oracle, p, a, b);
      TryShrinks(oracle, p, a, b);
      DropShrinks(oracle, regions, k - 1, q);
      OneMoreStays(oracle, p.now, regions, k - 1);
      DropFindsAll(oracle, regions, k - 1, q);
    }
  }

  lemma OneMoreStays(oracle: Oracle, lines: seq<Line>, regions: seq<(nat, nat)>, k: nat)
    requires k < |regions| && NoRegion(oracle, lines, regions, k + 1)
    requires !Accepts(oracle, lines, regions[k].0, regions[k].1)
    ensures NoRegion(oracle, lines, regions, k)
  {
  }

  lemma NothingGone(lines: seq<Line>, regions: seq<(nat, nat)>)
    requires Ordered(regions, |lines|)
    ensures Laid(lines, regions, |regions|, [], lines)
  {
    var e := EndOf(regions, |regions|);
    assert lines == lines[..e] + lines[e..];
  }

  /** What the region pass of a round does. */
  lemma RegionsOutIsSound(oracle: Oracle, start: seq<Line>, p: Pass) returns (gone: seq<bool>)
    requires Sound(oracle, start, p)
    ensures var r := RegionsOut(oracle, p);
      && Sound(oracle, start, r) && (r.now == p.now || |r.now| < |p.now|)
      && Ordered(TopLevel(p.now), |p.now|) && |gone| == |TopLevel(p.now)|
      && r.now == Cut(p.now, TopLevel(p.now), 0, gone)
      && (|r.now| == |p.now| ==> NoRegion(oracle, p.now, TopLevel(p.now), 0))
  {
    var regions := TopLevel(p.now);
    TopLevelIsOrdered(p.now);
    TopLevelBalancedIff(p.now);
    NothingGone(p.now, regions);
    gone := DropCutsRegions(oracle, p.now, regions, |regions|, [], p);
    DropIsSound(oracle, start, p.now, regions, |regions|, [], p);
    if |DropRegions(oracle, regions, |regions|, p).now| == |p.now| {
      DropFindsAll(oracle, regions, |regions|, p);
    }
  }

  /** And exactly which regions are cut out. */
  lemma RegionsOutChooses(oracle: Oracle, p: Pass) returns (gone: seq<bool>)
    ensures Ordered(TopLevel(p.now), |p.now|) && |gone| == |TopLevel(p.now)|
    ensures RegionsOut(oracle, p).now == Cut(p.now, TopLevel(p.now), 0, gone)
    ensures Chosen(oracle, p.now, TopLevel(p.now), 0, gone)
  {
    TopLevelIsOrdered(p.now);
    gone := DropChooses(oracle, p.now, TopLevel(p.now), p);
  }

  /** What the window passes of a round do. */
  lemma WindowsOutIsSound(oracle: Oracle, start: seq<Line>, p: Pass)
    requires Sound(oracle, start, p)
    ensures var r := WindowsOut(oracle, p);
      && Sound(oracle, start, r) && (r.now == p.now || |r.now| < |p.now|)
      && (|r.now| == |p.now| ==> forall width :: 1 <= width <= 4 ==> NoWindow(oracle, p.now, width, |p.now|))
      && (|r.now| == |p.now| ==> NoWideWindow(oracle, p.now))
  {
    var sizes := WidthsOf(|p.now|);
    WindowsAreSound(oracle, start, sizes, 0, p);
    WindowsShrink(oracle, sizes, 0, p);
    if |WindowsOut(oracle, p).now| == |p.now| {
      NarrowStays(oracle, p);
      WideStays(oracle, p);
    }
  }

  lemma NarrowStays(oracle: Oracle, p: Pass)
    requires |WindowsOut(oracle, p).now| == |p.now|
    ensures forall width :: 1 <= width <= 4 ==> NoWindow(oracle, p.now, width, |p.now|)
  {
    var sizes := WidthsOf(|p.now|);
    forall width | 1 <= width <= 4 ensures NoWindow(oracle, p.now, width, |p.now|) {
      NarrowComeLast(if |p.now| / 2 > 1 then |p.now| / 2 else 1, width);
      WindowsFindAll(oracle, sizes, 0, p, |sizes| - width);
    }
  }

  lemma WideStays(oracle: Oracle, p: Pass)
    requires |WindowsOut(oracle, p).now| == |p.now|
    ensures NoWideWindow(oracle, p.now)
  {
    var sizes := WidthsOf(|p.now|);
    forall width, k: nat | width > 4 && HalvedTo(|p.now| / 2, width) ensures !GoesAt(oracle, p.now, width, width, k) {
      var i := WideIsTried(|p.now| / 2, width);
      WindowsFindAll(oracle, sizes, 0, p, i);
    }
  }

  /** A round that leaves the length leaves the lines, and nothing a pass looks for. */
  lemma UnchangedIsMinimal(oracle: Oracle, lines: seq<Line>, regioned: Pass)
    requires regioned.now == lines && |WindowsOut(oracle, regioned).now| == |lines|
    requires NoRegion(oracle, lines, TopLevel(lines), 0)
    ensures LocallyMinimal(oracle, lines)
  {
    NarrowStays(oracle, regioned);
    WideStays(oracle, regioned);
  }

  lemma RoundShrinks(oracle: Oracle, start: seq<Line>, p: Pass)
    requires Sound(oracle, start, p)
    ensures var q := RegionsOut(oracle, p); var r := WindowsOut(oracle, q);
      && Sound(oracle, start, r) && |r.now| <= |q.now| <= |p.now|
      && (|q.now| == |p.now| ==> q.now == p.now && NoRegion(oracle, p.now, TopLevel(p.now), 0))
      && (|r.now| == |q.now| ==> r.now == q.now)
  {
    var _ := RegionsOutIsSound(oracle, start, p);
    WindowsOutIsSound(oracle, start, RegionsOut(oracle, p));
  }

  /** One round: it reduces, and if it deletes nothing nothing can be deleted. */
  lemma RoundIsSound(oracle: Oracle, start: seq<Line>, p: Pass)
    requires Sound(oracle, start, p)
    ensures var r := Round(oracle, p);
      && Sound(oracle, start, r)
      && (if |r.now| == |p.now| then r.now == p.now && LocallyMinimal(oracle, p.now) else |r.now| < |p.now|)
  {
    RoundShrinks(oracle, start, p);
    if |Round(oracle, p).now| == |p.now| {
      UnchangedIsMinimal(oracle, p.now, RegionsOut(oracle, p));
    }
  }

  // ----- The loops

  method TopLevelRegions(lines: seq<Line>) returns (regions: seq<(nat, nat)>)
    ensures regions == TopLevel(lines) && Ordered(regions, |lines|)
  {
    regions := [];
    var depth, start, index := 0, 0, 0;
    while index < |lines|
      invariant start <= index <= |lines|
      invariant Regions(lines, index, depth, start, regions) == TopLevel(lines)
    {
      var line := lines[index];
      if depth == 0 && Blank(line) {
        start := index + 1;
        index := index + 1;
        continue;
      }
      depth := depth + Net(line);
      if depth <= 0 && (EndsItem(line) || depth < 0) {
        depth := 0;
        regions := regions + [(start, index + 1)];
        start := index + 1;
      }
      index := index + 1;
    }
    if start < |lines| {
      regions := regions + [(start, |lines|)];
    }
    TopLevelIsOrdered(lines);
  }

  method IsBalanced(lines: seq<Line>) returns (yes: bool)
    ensures yes <==> NetSum(lines) == 0
  {
    var sum, i := 0, 0;
    while i < |lines|
      invariant 0 <= i <= |lines| && sum == Depth(lines, i)
    {
      sum := sum + Net(lines[i]);
      i := i + 1;
    }
    yes := sum == 0;
  }

  method Widths(count: nat) returns (sizes: seq<nat>)
    ensures sizes == WidthsOf(count)
  {
    sizes := [];
    var width: nat := if count / 2 > 1 then count / 2 else 1;
    while width > 4
      invariant sizes + WidthsFrom(width) == WidthsOf(count)
    {
      assert sizes + WidthsFrom(width) == sizes + [width] + WidthsFrom(width / 2);
      sizes := sizes + [width];
      width := width / 2;
    }
    sizes := sizes + [4, 3, 2, 1];
  }

  method RegionPass(oracle: Oracle, lines: seq<Line>, ghost asked: seq<seq<Line>>)
    returns (now: seq<Line>, ghost more: seq<seq<Line>>)
    ensures now == RegionsOut(oracle, Pass(lines, asked)).now
    ensures more == RegionsOut(oracle, Pass(lines, asked)).asked
  {
    var regions := TopLevelRegions(lines);
    now, more := DropEach(oracle, lines, regions, asked);
  }

  method DropEach(oracle: Oracle, lines: seq<Line>, regions: seq<(nat, nat)>, ghost asked: seq<seq<Line>>)
    returns (now: seq<Line>, ghost more: seq<seq<Line>>)
    ensures now == DropRegions(oracle, regions, |regions|, Pass(lines, asked)).now
    ensures more == DropRegions(oracle, regions, |regions|, Pass(lines, asked)).asked
  {
    now, more := lines, asked;
    var k := |regions|;
    while k > 0
      invariant 0 <= k <= |regions|
      invariant DropRegions(oracle, regions, k, Pass(now, more))
             == DropRegions(oracle, regions, |regions|, Pass(lines, asked))
    {
      k := k - 1;
      var (start, end) := regions[k];
      ghost var next := Try(oracle, Pass(now, more), start, end);
      var candidate := Without(now, start, end);
      if candidate != [] && candidate in oracle {
        now := candidate;
      }
      more := next.asked;
      assert Pass(now, more) == next;
    }
  }

  method WindowPass(oracle: Oracle, lines: seq<Line>, width: nat, ghost asked: seq<seq<Line>>)
    returns (now: seq<Line>, ghost more: seq<seq<Line>>)
    requires width >= 1
    ensures now == Slide(oracle, width, Stride(width), 0, Pass(lines, asked)).now
    ensures more == Slide(oracle, width, Stride(width), 0, Pass(lines, asked)).asked
  {
    now, more := lines, asked;
    var step := if width <= 4 then 1 else width;
    var index: nat := 0;
    while index + width <= |now|
      invariant Slide(oracle, width, step, index, Pass(now, more)) == Slide(oracle, width, step, 0, Pass(lines, asked))
      decreases |now| - index
    {
      var candidate := Without(now, index, index + width);
      var even := IsBalanced(now[index..index + width]);
      if even {
        more := Try(oracle, Pass(now, more), index, index + width).asked;
        if candidate != [] && candidate in oracle {
          now := candidate;
          continue;
        }
      }
      index := index + step;
    }
  }

  method WindowPasses(oracle: Oracle, lines: seq<Line>, ghost asked: seq<seq<Line>>)
    returns (now: seq<Line>, ghost more: seq<seq<Line>>)
    ensures now == WindowsOut(oracle, Pass(lines, asked)).now
    ensures more == WindowsOut(oracle, Pass(lines, asked)).asked
  {
    now, more := lines, asked;
    var sizes := Widths(|lines|);
    var k := 0;
    while k < |sizes|
      invariant 0 <= k <= |sizes|
      invariant Windows(oracle, sizes, k, Pass(now, more)) == WindowsOut(oracle, Pass(lines, asked))
    {
      now, more := WindowPass(oracle, now, sizes[k], more);
      k := k + 1;
    }
  }

  /** `reduce_source` on the lines of the text. `converged` says that the last
      round changed nothing; a round for each line is always enough for that. */
  method ReduceSource(oracle: Oracle, lines: seq<Line>, passes: int)
    returns (now: seq<Line>, converged: bool, ghost asked: seq<seq<Line>>)
    ensures ReducedTo(oracle, lines, now)
    ensures converged ==> LocallyMinimal(oracle, now)
    ensures passes >= 1 && passes >= |lines| ==> converged
    ensures !converged && passes >= 0 ==> |now| + passes <= |lines|
    ensures WellNested(lines) ==> AllNested(asked)
  {
    now, converged, asked := lines, false, [];
    SubsequenceRefl(lines);
    var round := 0;
    while round < passes
      invariant 0 <= round && |now| + round <= |lines| && (passes >= 0 ==> round <= passes)
      invariant !converged && Sound(oracle, lines, Pass(now, asked))
    {
      var before := |now|;
      RoundIsSound(oracle, lines, Pass(now, asked));
      now, asked := RegionPass(oracle, now, asked);
      now, asked := WindowPasses(oracle, now, asked);
      if |now| == before {
        converged := true;
        break;
      }
      round := round + 1;
    }
  }
}
