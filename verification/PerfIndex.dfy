/** The published index of `scripts/perf_publish.py`: what filing a run does to it,
    and what it holds after any history of publishes. */
module PerfIndex {

  /** `rest` stands for the fields of a record that neither the filter nor the sort
      looks at. */
  datatype Entry = Entry(sha: string, runner: string, taken: string, rest: string)

  predicate SameRun(a: Entry, b: Entry) { a.sha == b.sha && a.runner == b.runner }

  // ----- Order

  /** `a < b` on strings. */
  predicate Less(a: string, b: string) {
    b != [] && (a == [] || a[0] < b[0] || (a[0] == b[0] && Less(a[1..], b[1..])))
  }

  lemma {:induction false} LessIsTotal(a: string, b: string)
    ensures Less(a, b) || a == b || Less(b, a)
    ensures !(Less(a, b) && Less(b, a)) && !(a == b && Less(a, b))
  {
    if a != [] && b != [] {
      LessIsTotal(a[1..], b[1..]);
      assert a == [a[0]] + a[1..] && b == [b[0]] + b[1..];
    }
  }

  lemma {:induction false} LessTrans(a: string, b: string, c: string)
    requires Less(a, b) && Less(b, c)
    ensures Less(a, c)
  {
    if a != [] && a[0] == b[0] == c[0] {
      LessTrans(a[1..], b[1..], c[1..]);
    }
  }

  /** The key of `a`, `(taken, sha, runner)`, is greater than that of `b`. */
  predicate Newer(a: Entry, b: Entry) {
    || Less(b.taken, a.taken)
    || (a.taken == b.taken && Less(b.sha, a.sha))
    || (a.taken == b.taken && a.sha == b.sha && Less(b.runner, a.runner))
  }

  lemma NewerIsTotal(a: Entry, b: Entry)
    ensures !(Newer(a, b) && Newer(b, a))
    ensures SameRun(a, b) || Newer(a, b) || Newer(b, a)
    ensures a == b ==> !Newer(a, b)
  {
    LessIsTotal(a.taken, b.taken);
    LessIsTotal(a.sha, b.sha);
    LessIsTotal(a.runner, b.runner);
  }

  lemma NewerTrans(a: Entry, b: Entry, c: Entry)
    requires Newer(a, b) && Newer(b, c)
    ensures Newer(a, c)
  {
    if Less(b.taken, a.taken) && Less(c.taken, b.taken) {
      LessTrans(c.taken, b.taken, a.taken);
    }
    if Less(b.sha, a.sha) && Less(c.sha, b.sha) {
      LessTrans(c.sha, b.sha, a.sha);
    }
    if Less(b.runner, a.runner) && Less(c.runner, b.runner) {
      LessTrans(c.runner, b.runner, a.runner);
    }
  }

  // ----- Sorting

  function Insert(e: Entry, s: seq<Entry>): seq<Entry> {
    if s == [] || !Newer(s[0], e) then [e] + s else [s[0]] + Insert(e, s[1..])
  }

  /** `sort(key=.., reverse=True)`: greatest key first, entries with equal keys in
      the order they had. */
  function Sorted(s: seq<Entry>): seq<Entry> {
    if s == [] then [] else Insert(s[0], Sorted(s[1..]))
  }

  /** Strictly descending in `(taken, sha, runner)`. */
  ghost predicate Descending(s: seq<Entry>) {
    forall i, j :: 0 <= i < j < |s| ==> Newer(s[i], s[j])
  }

  ghost predicate OneEach(s: seq<Entry>) {
    forall i, j :: 0 <= i < j < |s| ==> !SameRun(s[i], s[j])
  }

  ghost predicate Comparable(e: Entry, s: seq<Entry>) {
    forall x :: x in s ==> Newer(e, x) || Newer(x, e)
  }

  lemma {:induction false} InsertMembers(e: Entry, s: seq<Entry>, x: Entry)
    ensures x in Insert(e, s) <==> x == e || x in s
  {
    if s != [] && Newer(s[0], e) {
      InsertMembers(e, s[1..], x);
      assert s == [s[0]] + s[1..];
    }
  }

  /** What stands before a descending list and is newer than all of it. */
  lemma Prepend(e: Entry, s: seq<Entry>)
    requires Descending(s) && forall x :: x in s ==> Newer(e, x)
    ensures Descending([e] + s)
  {
    var r := [e] + s;
    forall i, j | 0 <= i < j < |r| ensures Newer(r[i], r[j]) {
      assert r[j] == s[j - 1];
      assert r[j] in s;
    }
  }

  lemma HeadIsNewest(s: seq<Entry>, x: Entry)
    requires Descending(s) && s != [] && x in s[1..]
    ensures Newer(s[0], x)
  {
    var i :| 0 <= i < |s[1..]| && s[1..][i] == x;
    assert s[i + 1] == x;
  }

  lemma {:induction false} InsertDescends(e: Entry, s: seq<Entry>)
    requires Descending(s) && Comparable(e, s)
    ensures Descending(Insert(e, s))
  {
    if s == [] {
    } else if !Newer(s[0], e) {
      forall x | x in s ensures Newer(e, x) {
        if x != s[0] {
          assert s == [s[0]] + s[1..];
          HeadIsNewest(s, x);
          assert s[0] in s;
          NewerTrans(e, s[0], x);
        } else {
          assert s[0] in s;
        }
      }
      Prepend(e, s);
    } else {
      InsertDescends(e, s[1..]);
      forall x | x in Insert(e, s[1..]) ensures Newer(s[0], x) {
        InsertMembers(e, s[1..], x);
        if x != e {
          HeadIsNewest(s, x);
        }
      }
      Prepend(s[0], Insert(e, s[1..]));
    }
  }

  lemma {:induction false} SortedMembers(s: seq<Entry>, x: Entry)
    ensures x in Sorted(s) <==> x in s
  {
    if s != [] {
      SortedMembers(s[1..], x);
      InsertMembers(s[0], Sorted(s[1..]), x);
      assert s == [s[0]] + s[1..];
    }
  }

  /** With one entry a run no two keys are equal, so the sort is strict. */
  lemma {:induction false} SortedDescends(s: seq<Entry>)
    requires OneEach(s)
    ensures Descending(Sorted(s))
  {
    if s != [] {
      SortedDescends(s[1..]);
      forall x | x in Sorted(s[1..]) ensures Newer(s[0], x) || Newer(x, s[0]) {
        SortedMembers(s[1..], x);
        var i :| 0 <= i < |s[1..]| && s[1..][i] == x;
        assert s[i + 1] == x;
        NewerIsTotal(s[0], x);
      }
      InsertDescends(s[0], Sorted(s[1..]));
    }
  }

  /** A strictly descending list is determined by its members. */
  lemma {:induction false} DescendingIsUnique(a: seq<Entry>, b: seq<Entry>)
    requires Descending(a) && Descending(b) && forall x :: x in a <==> x in b
    ensures a == b
  {
    assert a != [] ==> a[0] in b;
    assert b != [] ==> b[0] in a;
    if a != [] {
      assert a == [a[0]] + a[1..] && b == [b[0]] + b[1..];
      SameHead(a, b);
      forall x ensures x in a[1..] <==> x in b[1..] {
        TailMembers(a, x);
        TailMembers(b, x);
      }
      DescendingIsUnique(a[1..], b[1..]);
    }
  }

  lemma SameHead(a: seq<Entry>, b: seq<Entry>)
    requires Descending(a) && Descending(b) && a != [] && b != [] && forall x :: x in a <==> x in b
    ensures a[0] == b[0]
  {
    assert a[0] in a && b[0] in b;
    assert a == [a[0]] + a[1..] && b == [b[0]] + b[1..];
    if a[0] != b[0] {
      HeadIsNewest(a, b[0]);
      HeadIsNewest(b, a[0]);
      NewerIsTotal(a[0], b[0]);
    }
  }

  lemma TailMembers(s: seq<Entry>, x: Entry)
    requires Descending(s) && s != []
    ensures x in s[1..] <==> x in s && x != s[0]
  {
    assert s == [s[0]] + s[1..];
    if x in s[1..] {
      HeadIsNewest(s, x);
      NewerIsTotal(x, x);
    }
  }

  // ----- Publishing

  /** The entries of other runs, in their order. */
  function Others(runs: seq<Entry>, e: Entry): seq<Entry> {
    if runs == [] then []
    else (if SameRun(runs[0], e) then [] else [runs[0]]) + Others(runs[1..], e)
  }

  /** What `main` leaves in the index. */
  function Published(runs: seq<Entry>, e: Entry): seq<Entry> { Sorted(Others(runs, e) + [e]) }

  /** The index after the first `n` publishes of a history. */
  function Index(history: seq<Entry>, n: nat): seq<Entry>
    requires n <= |history|
  {
    if n == 0 then [] else Published(Index(history, n - 1), history[n - 1])
  }

  lemma {:induction false} OthersMembers(runs: seq<Entry>, e: Entry, x: Entry)
    ensures x in Others(runs, e) <==> x in runs && !SameRun(x, e)
  {
    if runs != [] {
      OthersMembers(runs[1..], e, x);
      assert runs == [runs[0]] + runs[1..];
    }
  }

  lemma {:induction false} OthersOneEach(runs: seq<Entry>, e: Entry)
    requires OneEach(runs)
    ensures OneEach(Others(runs, e))
  {
    if runs != [] {
      var rest := Others(runs[1..], e);
      OthersOneEach(runs[1..], e);
      forall x | x in rest ensures !SameRun(runs[0], x) {
        OthersMembers(runs[1..], e, x);
        var i :| 0 <= i < |runs[1..]| && runs[1..][i] == x;
        assert runs[i + 1] == x;
      }
    }
  }

  /** Strictly descending and one entry a run: what every publish leaves. */
  ghost predicate Proper(runs: seq<Entry>) { Descending(runs) && OneEach(runs) }

  lemma PublishedMembers(runs: seq<Entry>, e: Entry, x: Entry)
    ensures x in Published(runs, e) <==> x == e || (x in runs && !SameRun(x, e))
  {
    SortedMembers(Others(runs, e) + [e], x);
    OthersMembers(runs, e, x);
  }

  lemma AppendOneEach(runs: seq<Entry>, e: Entry)
    requires OneEach(runs)
    ensures OneEach(Others(runs, e) + [e])
  {
    var all := Others(runs, e) + [e];
    OthersOneEach(runs, e);
    forall i, j | 0 <= i < j < |all| ensures !SameRun(all[i], all[j]) {
      OthersMembers(runs, e, all[i]);
    }
  }

  lemma {:induction false} InsertOneEach(e: Entry, s: seq<Entry>)
    requires OneEach(s) && forall x :: x in s ==> !SameRun(e, x)
    ensures OneEach(Insert(e, s))
  {
    if s != [] && Newer(s[0], e) {
      InsertOneEach(e, s[1..]);
      var rest := Insert(e, s[1..]);
      forall x | x in rest ensures !SameRun(s[0], x) {
        InsertMembers(e, s[1..], x);
        if x != e {
          var i :| 0 <= i < |s[1..]| && s[1..][i] == x;
          assert s[i + 1] == x;
        } else {
          assert s[0] in s;
        }
      }
    }
  }

  lemma {:induction false} SortedOneEach(s: seq<Entry>)
    requires OneEach(s)
    ensures OneEach(Sorted(s))
  {
    if s != [] {
      SortedOneEach(s[1..]);
      forall x | x in Sorted(s[1..]) ensures !SameRun(s[0], x) {
        SortedMembers(s[1..], x);
        var i :| 0 <= i < |s[1..]| && s[1..][i] == x;
        assert s[i + 1] == x;
      }
      InsertOneEach(s[0], Sorted(s[1..]));
    }
  }

  lemma PublishedIsProper(runs: seq<Entry>, e: Entry)
    requires OneEach(runs)
    ensures Proper(Published(runs, e))
  {
    AppendOneEach(runs, e);
    SortedDescends(Others(runs, e) + [e]);
    SortedOneEach(Others(runs, e) + [e]);
  }

  /** Publish `k` is of `x`, and no later one among the first `n` is of its run. */
  ghost predicate LastAt(history: seq<Entry>, n: nat, k: nat, x: Entry)
    requires n <= |history|
  {
    k < n && history[k] == x && forall j :: k < j < n ==> !SameRun(history[j], x)
  }

  /** `x` is the last publish of its run among the first `n`. */
  ghost predicate LastOfRun(history: seq<Entry>, n: nat, x: Entry)
    requires n <= |history|
  {
    exists k :: LastAt(history, n, k, x)
  }

  /** After any history the index holds exactly the last publish of every run, one
      entry a run, strictly descending. */
  lemma {:induction false} IndexIsLastWrites(history: seq<Entry>, n: nat)
    requires n <= |history|
    ensures Proper(Index(history, n))
    ensures forall x :: x in Index(history, n) <==> LastOfRun(history, n, x)
  {
    if n > 0 {
      var e := history[n - 1];
      IndexIsLastWrites(history, n - 1);
      PublishedIsProper(Index(history, n - 1), e);
      forall x ensures x in Index(history, n) <==> LastOfRun(history, n, x) {
        PublishedMembers(Index(history, n - 1), e, x);
        LastStep(history, n, x);
      }
    }
  }

  lemma LastStep(history: seq<Entry>, n: nat, x: Entry)
    requires 0 < n <= |history|
    ensures LastOfRun(history, n, x) <==>
      x == history[n - 1] || (LastOfRun(history, n - 1, x) && !SameRun(x, history[n - 1]))
  {
    if x == history[n - 1] {
      assert LastAt(history, n, n - 1, x);
    } else if LastOfRun(history, n, x) {
      var k :| LastAt(history, n, k, x);
      assert LastAt(history, n - 1, k, x);
    }
    if LastOfRun(history, n - 1, x) && !SameRun(x, history[n - 1]) {
      var k :| LastAt(history, n - 1, k, x);
      assert LastAt(history, n, k, x);
    }
  }

  /** `Less` is the order of the first character in which two strings differ; a
      string comes before what it begins. */
  lemma {:induction false} LessIsLexicographic(p: string, c: char, d: char, x: string, y: string)
    ensures Less(p + [c] + x, p + [d] + y) <==> c < d || (c == d && Less(x, y))
    ensures Less(p, p + [c] + x) && !Less(p + [c] + x, p)
  {
    var a, b := p + [c] + x, p + [d] + y;
    if p == [] {
      assert a[1..] == x && b[1..] == y;
    } else {
      LessIsLexicographic(p[1..], c, d, x, y);
      assert a[1..] == p[1..] + [c] + x && b[1..] == p[1..] + [d] + y;
    }
  }

  /** The newest run comes first: the times taken never increase along the index. */
  lemma NewestFirst(history: seq<Entry>, n: nat, i: nat, j: nat)
    requires n <= |history| && i < j < |Index(history, n)|
    ensures var runs := Index(history, n); runs[i].taken == runs[j].taken || Less(runs[j].taken, runs[i].taken)
  {
    IndexIsLastWrites(history, n);
    assert Newer(Index(history, n)[i], Index(history, n)[j]);
  }

  /** Two histories that agree on the last publish of every run leave the same
      index, entry for entry. */
  lemma HistoriesAgree(a: seq<Entry>, b: seq<Entry>)
    requires forall x :: LastOfRun(a, |a|, x) <==> LastOfRun(b, |b|, x)
    ensures Index(a, |a|) == Index(b, |b|)
  {
    IndexIsLastWrites(a, |a|);
    IndexIsLastWrites(b, |b|);
    DescendingIsUnique(Index(a, |a|), Index(b, |b|));
  }

  /** The lanes of one CI run may finish in either order. */
  lemma PublishesCommute(runs: seq<Entry>, a: Entry, b: Entry)
    requires OneEach(runs) && !SameRun(a, b)
    ensures Published(Published(runs, a), b) == Published(Published(runs, b), a)
  {
    PublishedIsProper(runs, a);
    PublishedIsProper(runs, b);
    PublishedIsProper(Published(runs, a), b);
    PublishedIsProper(Published(runs, b), a);
    forall x ensures x in Published(Published(runs, a), b) <==> x in Published(Published(runs, b), a) {
      PublishedMembers(runs, a, x);
      PublishedMembers(runs, b, x);
      PublishedMembers(Published(runs, a), b, x);
      PublishedMembers(Published(runs, b), a, x);
    }
    DescendingIsUnique(Published(Published(runs, a), b), Published(Published(runs, b), a));
  }

  /** The index file; `None` while there is none. */
  datatype File = Absent | Runs(runs: seq<Entry>)

  class Repository {
    var index: File
    /** Every publish so far. */
    ghost var history: seq<Entry>

    constructor ()
      ensures Valid() && history == []
    {
      index := Absent;
      history := [];
    }

    ghost predicate Valid()
      reads this
    {
      Loaded(index) == Index(history, |history|) && (index == Absent ==> history == [])
    }

    /** The index part of `main`: load, drop this run's entry, append, sort, write. */
    method Publish(e: Entry)
      requires Valid()
      modifies this
      ensures Valid() && history == old(history) + [e] && index.Runs?
      ensures index.runs == Published(Loaded(old(index)), e) && Proper(index.runs)
      ensures forall x :: x in index.runs <==> LastOfRun(history, |history|, x)
    {
      var runs := Kept(Loaded(index), e);
      runs := Sorted(runs + [e]);
      IndexGrows(history, e);
      index := Runs(runs);
      history := history + [e];
      assert |history| == |old(history)| + 1;
      IndexIsLastWrites(history, |history|);
    }
  }

  /** The list comprehension that drops this run's earlier entry. */
  method Kept(loaded: seq<Entry>, e: Entry) returns (runs: seq<Entry>)
    ensures runs == Others(loaded, e)
  {
    runs := [];
    var i := 0;
    assert loaded[0..] == loaded;
    while i < |loaded|
      invariant 0 <= i <= |loaded| && runs + Others(loaded[i..], e) == Others(loaded, e)
    {
      assert loaded[i..][1..] == loaded[i + 1..];
      if !SameRun(loaded[i], e) {
        runs := runs + [loaded[i]];
      }
      i := i + 1;
    }
  }

  /** `load_index`, on a file that parses. */
  function Loaded(f: File): seq<Entry> { if f.Absent? then [] else f.runs }

  lemma IndexGrows(history: seq<Entry>, e: Entry)
    ensures Index(history + [e], |history| + 1) == Published(Index(history, |history|), e)
  {
    SamePrefix(history, history + [e], |history|);
  }

  lemma {:induction false} SamePrefix(a: seq<Entry>, b: seq<Entry>, n: nat)
    requires n <= |a| <= |b| && forall i :: 0 <= i < n ==> a[i] == b[i]
    ensures Index(a, n) == Index(b, n)
  {
    if n > 0 {
      SamePrefix(a, b, n - 1);
    }
  }
}
