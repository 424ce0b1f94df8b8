/** The windowed marker scan of `serial_until` in `demos/edk2/qemu_efi.py`. A batch
    is what one turn of the loop found unread; batches are arbitrary, so a marker
    may be split across any number of them. */
module MarkerScan {

  /** `.replace("\r", "")` */
  function WithoutReturns(s: string): string {
    if s == [] then [] else (if s[0] == '\r' then [] else [s[0]]) + WithoutReturns(s[1..])
  }

  /** Carriage returns go, everything else stays, in order. */
  lemma WithoutReturnsIs(a: string, b: string, c: char)
    ensures WithoutReturns(a + b) == WithoutReturns(a) + WithoutReturns(b) && WithoutReturns([]) == []
    ensures WithoutReturns([c]) == if c == '\r' then [] else [c]
  {
    ReturnsAppend(a, b);
    assert [c][1..] == [];
  }

  /** What is left keeps the order and the repetitions of what was wanted. */
  lemma {:induction false} MissingIsFilter(a: seq<string>, b: seq<string>, w: string, text: string)
    ensures Missing(a + b, text) == Missing(a, text) + Missing(b, text)
    ensures Missing([w], text) == if Occurs(w, text) then [] else [w]
  {
    assert [w][1..] == [];
    if a == [] {
      assert a + b == b;
    } else {
      assert (a + b)[1..] == a[1..] + b;
      MissingIsFilter(a[1..], b, w, text);
    }
  }

  /** Everything in the first `n` batches, as `serial` would show it. */
  function Shown(batches: seq<string>, n: nat): string
    requires n <= |batches|
  {
    if n == 0 then [] else Shown(batches, n - 1) + WithoutReturns(batches[n - 1])
  }

  /** The first `n` batches, joined. */
  function Joined(batches: seq<string>, n: nat): string
    requires n <= |batches|
  {
    if n == 0 then [] else Joined(batches, n - 1) + batches[n - 1]
  }

  predicate At(w: string, text: string, i: nat) { i + |w| <= |text| && text[i..i + |w|] == w }

  /** `w in text` */
  predicate Occurs(w: string, text: string) { exists i :: 0 <= i <= |text| && At(w, text, i) }

  /** `[w for w in wants if w not in text]` */
  function Missing(wants: seq<string>, text: string): (left: seq<string>)
    ensures forall w :: w in left <==> w in wants && !Occurs(w, text)
  {
    if wants == [] then []
    else
      var rest := Missing(wants[1..], text);
      if Occurs(wants[0], text) then rest else [wants[0]] + rest
  }

  /** `window[-keep:]`, which is all of it when `keep` is 0. */
  function Tail(window: string, keep: nat): string {
    if keep == 0 || |window| <= keep then window else window[|window| - keep..]
  }

  /** `max((len(w) for w in wants), default=1)` */
  function Keep(wants: seq<string>): (keep: nat)
    ensures forall w :: w in wants ==> |w| <= keep
    ensures wants != [] ==> exists w :: w in wants && |w| == keep
  {
    if wants == [] then 1
    else if |wants| == 1 then
      assert wants[0] in wants;
      |wants[0]|
    else
      var rest := Keep(wants[1..]);
      assert wants == [wants[0]] + wants[1..];
      if |wants[0]| > rest then |wants[0]| else rest
  }

  lemma {:induction false} ReturnsAppend(a: string, b: string)
    ensures WithoutReturns(a + b) == WithoutReturns(a) + WithoutReturns(b)
  {
    if a == [] {
      assert a + b == b;
    } else {
      assert (a + b)[1..] == a[1..] + b;
      ReturnsAppend(a[1..], b);
    }
  }

  /** Stripping batch by batch is stripping the whole: `Shown` is what `serial`
      returns. */
  lemma {:induction false} ShownIsSerial(batches: seq<string>, n: nat)
    requires n <= |batches|
    ensures Shown(batches, n) == WithoutReturns(Joined(batches, n))
  {
    if n > 0 {
      ShownIsSerial(batches, n - 1);
      ReturnsAppend(Joined(batches, n - 1), batches[n - 1]);
    }
  }

  /** The window is the end of the text, and long enough. */
  ghost predicate Window(window: string, text: string, keep: nat) {
    && |window| <= |text| && window == text[|text| - |window|..]
    && (|window| >= keep || window == text)
  }

  lemma WindowMoves(window: string, text: string, keep: nat, more: string)
    requires Window(window, text, keep)
    ensures Window(Tail(window + more, keep), text + more, keep)
  {
    var all := text + more;
    var wide := window + more;
    assert wide == all[|all| - |wide|..];
  }

  /** Where a text is cut out of a longer one, an occurrence moves with it. */
  lemma Shift(w: string, part: string, all: string, off: nat, i: nat)
    requires off + |part| <= |all| && part == all[off..off + |part|] && i + |w| <= |part|
    ensures At(w, part, i) <==> At(w, all, off + i)
  {
    var a, b := part[i..i + |w|], all[off + i..off + i + |w|];
    forall k | 0 <= k < |w| ensures a[k] == b[k] {
      assert part[i + k] == all[off..off + |part|][i + k];
    }
    assert a == b;
  }

  lemma OccursInPart(w: string, part: string, all: string, off: nat)
    requires off + |part| <= |all| && part == all[off..off + |part|] && Occurs(w, part)
    ensures Occurs(w, all)
  {
    var i :| 0 <= i <= |part| && At(w, part, i);
    Shift(w, part, all, off, i);
  }

  lemma OccursInAll(w: string, window: string, text: string, keep: nat, more: string)
    requires Window(window, text, keep) && |w| <= keep && Occurs(w, text + more)
    ensures Occurs(w, text) || Occurs(w, window + more)
  {
    var all, wide, off := text + more, window + more, |text| - |window|;
    var i :| 0 <= i <= |all| && At(w, all, i);
    if i + |w| <= |text| {
      Shift(w, text, all, 0, i);
      assert At(w, text, i);
    } else {
      WideIsPart(window, text, keep, more);
      Shift(w, wide, all, off, i - off);
      assert At(w, wide, i - off);
    }
  }

  /** The window and what was added are the end of the longer text. */
  lemma WideIsPart(window: string, text: string, keep: nat, more: string)
    requires Window(window, text, keep)
    ensures var all, wide, off := text + more, window + more, |text| - |window|;
      off + |wide| == |all| && wide == all[off..off + |wide|]
      && text == all[0..0 + |text|]
  {
  }

  /** A marker no longer than the window's promise occurs in the longer text exactly
      when it already did or occurs in the window and what was added. */
  lemma OccursInWindow(w: string, window: string, text: string, keep: nat, more: string)
    requires Window(window, text, keep) && |w| <= keep
    ensures Occurs(w, text + more) <==> Occurs(w, text) || Occurs(w, window + more)
  {
    WideIsPart(window, text, keep, more);
    if Occurs(w, text + more) {
      OccursInAll(w, window, text, keep, more);
    } else if Occurs(w, text) {
      OccursInPart(w, text, text + more, 0);
    } else if Occurs(w, window + more) {
      OccursInPart(w, window + more, text + more, |text| - |window|);
    }
  }

  /** Filtering what was missing by the window is filtering everything by the text. */
  lemma {:induction false} MissingInWindow(wants: seq<string>, window: string, text: string, keep: nat, more: string)
    requires Window(window, text, keep) && forall w :: w in wants ==> |w| <= keep
    ensures Missing(Missing(wants, text), window + more) == Missing(wants, text + more)
  {
    if wants != [] {
      assert wants[0] in wants;
      OccursInWindow(wants[0], window, text, keep, more);
      MissingInWindow(wants[1..], window, text, keep, more);
      var rest := Missing(wants[1..], text);
      assert ([wants[0]] + rest)[1..] == rest;
    }
  }

  /** The first scan starts from all markers and an empty window. */
  lemma {:induction false} MissingAtAll(wants: seq<string>)
    ensures Missing(wants, "") == wants <==> "" !in wants
    ensures forall w :: w in wants && w != "" ==> !Occurs(w, "")
  {
    if wants != [] {
      MissingAtAll(wants[1..]);
      assert wants == [wants[0]] + wants[1..];
      assert At("", "", 0);
      MissingIsShorter(wants[1..], "");
    }
  }

  lemma {:induction false} MissingIsShorter(wants: seq<string>, text: string)
    ensures |Missing(wants, text)| <= |wants|
  {
    if wants != [] {
      MissingIsShorter(wants[1..], text);
    }
  }

  /** Filtering all of them by a text is filtering the ones a prefix lacks. */
  lemma {:induction false} FirstScan(wants: seq<string>, text: string)
    ensures Missing(Missing(wants, ""), text) == Missing(wants, text)
  {
    if wants != [] {
      FirstScan(wants[1..], text);
      if Occurs(wants[0], "") {
        assert At(wants[0], text, 0);
      } else {
        var rest := Missing(wants[1..], "");
        assert ([wants[0]] + rest)[1..] == rest;
      }
    }
  }

  /** Some batch among the first `n` held something. */
  predicate Heard(batches: seq<string>, n: nat)
    requires n <= |batches|
  {
    exists k :: 0 <= k < n && batches[k] != []
  }

  /** What holds between two turns of the loop. */
  ghost predicate Scanned(wants: seq<string>, text: string, heard: bool, left: seq<string>, window: string) {
    && Window(window, text, Keep(wants))
    && left == (if heard then Missing(wants, text) else wants)
    && (!heard ==> text == [])
  }

  lemma ScanStep(wants: seq<string>, text: string, heard: bool, left: seq<string>, window: string, more: string)
    requires Scanned(wants, text, heard, left, window)
    ensures Scanned(wants, text + more, true, Missing(left, window + more), Tail(window + more, Keep(wants)))
  {
    WindowMoves(window, text, Keep(wants), more);
    MissingInWindow(wants, window, text, Keep(wants), more);
    if !heard {
      FirstScan(wants, window + more);
    }
  }

  lemma EmptyBatch(batches: seq<string>, n: nat)
    requires n < |batches| && batches[n] == []
    ensures Shown(batches, n + 1) == Shown(batches, n) && (Heard(batches, n + 1) <==> Heard(batches, n))
  {
  }

  lemma FullBatch(batches: seq<string>, n: nat)
    requires n < |batches| && batches[n] != []
    ensures Shown(batches, n + 1) == Shown(batches, n) + WithoutReturns(batches[n]) && Heard(batches, n + 1)
  {
  }

  /** What is left after the first `n` batches. */
  ghost function Left(wants: seq<string>, batches: seq<string>, n: nat): seq<string>
    requires n <= |batches|
  {
    if Heard(batches, n) then Missing(wants, Shown(batches, n)) else wants
  }

  /** However the text was split, exactly the markers absent from all of it are
      left, but for one case: nothing was read and an empty marker was asked for. */
  lemma ScanIsExact(wants: seq<string>, batches: seq<string>, n: nat)
    requires n <= |batches|
    ensures Left(wants, batches, n) == Missing(wants, WithoutReturns(Joined(batches, n)))
            <==> Heard(batches, n) || "" !in wants
  {
    ShownIsSerial(batches, n);
    if !Heard(batches, n) {
      NothingShown(batches, n);
      MissingAtAll(wants);
    }
  }

  lemma {:induction false} NothingShown(batches: seq<string>, n: nat)
    requires n <= |batches| && !Heard(batches, n)
    ensures Shown(batches, n) == []
  {
    if n > 0 {
      EmptyBatch(batches, n - 1);
      NothingShown(batches, n - 1);
    }
  }

  /** What holds once `n` batches were looked at. */
  ghost predicate Looked(wants: seq<string>, batches: seq<string>, n: nat, left: seq<string>, window: string)
    requires n <= |batches|
  {
    Scanned(wants, Shown(batches, n), Heard(batches, n), left, window)
  }

  lemma LookedStep(wants: seq<string>, batches: seq<string>, n: nat, left: seq<string>, window: string)
    requires n < |batches| && batches[n] != [] && Looked(wants, batches, n, left, window)
    ensures var wide := window + WithoutReturns(batches[n]);
      Looked(wants, batches, n + 1, Missing(left, wide), Tail(wide, Keep(wants)))
  {
    FullBatch(batches, n);
    ScanStep(wants, Shown(batches, n), Heard(batches, n), left, window, WithoutReturns(batches[n]));
  }

  /** One turn: scan the window with the new text, then cut the window down. */
  method Turn(wants: seq<string>, batches: seq<string>, n: nat, left: seq<string>, window: string, keep: nat)
    returns (left': seq<string>, window': string)
    requires n < |batches| && Looked(wants, batches, n, left, window) && keep == Keep(wants)
    ensures Looked(wants, batches, n + 1, left', window')
  {
    left', window' := left, window;
    if batches[n] == [] {
      EmptyBatch(batches, n);
      return;
    }
    LookedStep(wants, batches, n, left, window);
    window' := window + WithoutReturns(batches[n]);
    left' := Missing(left, window');
    window' := Tail(window', keep);
  }

  /** The scan loop, stopped by success or by running out of batches. */
  method Scan(wants: seq<string>, batches: seq<string>) returns (left: seq<string>, used: nat)
    ensures used <= |batches| && (used < |batches| ==> left == [])
    ensures left == Left(wants, batches, used)
  {
    left, used := wants, 0;
    var window, keep := "", Keep(wants);
    while left != [] && used < |batches|
      invariant used <= |batches| && Looked(wants, batches, used, left, window)
      decreases |batches| - used
    {
      left, window := Turn(wants, batches, used, left, window, keep);
      used := used + 1;
    }
  }
}
