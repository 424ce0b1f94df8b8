/** The select loop of `demos/hello_server.c` as a state machine. The kernel is an
    environment: what `select`, `accept`, `recv` and `send` answer in one pass is an
    arbitrary value, constrained only by what those calls promise. Descriptors are
    reused, so a log gives every accepted connection an identity of its own. */
module HelloModel {

  datatype Phase = Idle | Reading | Writing

  datatype Slot = Slot(fd: int, phase: Phase, written: int)

  const VACANT := Slot(-1, Idle, 0)

  /** How a connection stands: in a slot, dropped for want of a slot, closed after
      an error or a hang-up, closed after the last byte. */
  datatype End = Open | Refused | Failed | Served

  datatype Conn = Conn(fd: int, sent: string, end: End)

  /** `owner[i]` is the connection in slot `i` while it is busy; `closes` lists the
      connection behind every call of `sock_close`, and `fds` the descriptor it got. */
  datatype World = World(slots: seq<Slot>, owner: seq<nat>, conns: seq<Conn>, closes: seq<nat>, fds: seq<int>)

  /** One pass: the sets `select` leaves, what `accept` returns, and what `recv` or
      `send` returns for each slot. */
  datatype Answers = Answers(readable: set<int>, writable: set<int>, client: int, recv: seq<int>, send: seq<int>)

  // ----- One slot

  predicate Busy(s: Slot) { s.phase != Idle }

  /** The slot is one the service loop turns to. */
  predicate Ready(s: Slot, a: Answers) {
    (s.phase == Reading && s.fd in a.readable) || (s.phase == Writing && s.fd in a.writable)
  }

  /** What the service loop makes of a ready slot. */
  function NextSlot(response: string, s: Slot, recv: int, send: int): Slot {
    if s.phase == Reading then
      if recv <= 0 then VACANT else s.(phase := Writing)
    else
      if send <= 0 || s.written + send >= |response| then VACANT else s.(written := s.written + send)
  }

  /** What the peer of a ready slot has received, and whether it is closed on. */
  function NextConn(response: string, s: Slot, c: Conn, recv: int, send: int): Conn {
    if s.phase == Reading then
      if recv <= 0 then c.(end := Failed) else c
    else if send <= 0 then c.(end := Failed)
    else
      var got := if 0 <= s.written && s.written + send <= |response| then response[s.written..s.written + send] else [];
      c.(sent := c.sent + got, end := if s.written + send >= |response| then Served else c.end)
  }

  // ----- One pass

  /** `find_free_slot` from slot `i` on; the number of slots when there is none. */
  function FirstFree(slots: seq<Slot>, i: nat): (r: nat)
    requires i <= |slots|
    ensures i <= r <= |slots|
    ensures forall j :: i <= j < r ==> Busy(slots[j])
    ensures r < |slots| ==> !Busy(slots[r])
    decreases |slots| - i
  {
    if i == |slots| then i else if !Busy(slots[i]) then i else FirstFree(slots, i + 1)
  }

  /** A connection on `fd` was accepted. */
  function Admit(w: World, fd: int): World
    requires |w.owner| == |w.slots|
  {
    var idx := FirstFree(w.slots, 0);
    if idx == |w.slots| then
      w.(conns := w.conns + [Conn(fd, [], Refused)], closes := w.closes + [|w.conns|], fds := w.fds + [fd])
    else
      w.(slots := w.slots[idx := Slot(fd, Reading, 0)],
         owner := w.owner[idx := |w.conns|],
         conns := w.conns + [Conn(fd, [], Open)])
  }

  function Accepting(listener: int, w: World, a: Answers): World
    requires |w.owner| == |w.slots|
  {
    if listener in a.readable && a.client >= 0 then Admit(w, a.client) else w
  }

  function Replace(w: World, i: nat, s: Slot, c: Conn): World
    requires i < |w.slots| == |w.owner| && w.owner[i] < |w.conns|
  {
    w.(slots := w.slots[i := s], conns := w.conns[w.owner[i] := c],
       closes := if c.end == Open then w.closes else w.closes + [w.owner[i]],
       fds := if c.end == Open then w.fds else w.fds + [w.slots[i].fd])
  }

  predicate Shaped(w: World, a: Answers) {
    && |w.owner| == |w.slots| == |a.recv| == |a.send|
    && forall i :: 0 <= i < |w.slots| && Busy(w.slots[i]) ==> w.owner[i] < |w.conns|
  }

  function Service(response: string, w: World, a: Answers, i: nat): World
    requires Shaped(w, a) && i < |w.slots|
  {
    var s := w.slots[i];
    if !Ready(s, a) then w
    else Replace(w, i, NextSlot(response, s, a.recv[i], a.send[i]),
                 NextConn(response, s, w.conns[w.owner[i]], a.recv[i], a.send[i]))
  }

  function ServiceFrom(response: string, w: World, a: Answers, i: nat): World
    requires Shaped(w, a) && i <= |w.slots|
    decreases |w.slots| - i
  {
    if i == |w.slots| then w else ServiceFrom(response, Service(response, w, a, i), a, i + 1)
  }

  /** One pass of the loop after a `select` that did not fail. */
  function Pass(response: string, listener: int, w: World, a: Answers): World
    requires Shaped(w, a)
  {
    ServiceFrom(response, Accepting(listener, w, a), a, 0)
  }

  // ----- The environment

  /** What the pass asks `select` to watch. */
  function ReadSet(listener: int, slots: seq<Slot>, n: nat): set<int>
    requires n <= |slots|
  {
    if n == 0 then {listener}
    else ReadSet(listener, slots, n - 1) + (if slots[n - 1].phase == Reading then {slots[n - 1].fd} else {})
  }

  function WriteSet(slots: seq<Slot>, n: nat): set<int>
    requires n <= |slots|
  {
    if n == 0 then {}
    else WriteSet(slots, n - 1) + (if slots[n - 1].phase == Writing then {slots[n - 1].fd} else {})
  }

  /** `accept` hands out a descriptor that is not open. */
  ghost predicate FreshFd(listener: int, w: World, fd: int) {
    fd != listener && forall i :: 0 <= i < |w.slots| && Busy(w.slots[i]) ==> w.slots[i].fd != fd
  }

  /** `select` only clears descriptors, `accept` hands out one that is not open, and
      `send` takes no more bytes than it was given. */
  ghost predicate Allowed(response: string, listener: int, w: World, a: Answers) {
    && Shaped(w, a)
    && a.readable <= ReadSet(listener, w.slots, |w.slots|)
    && a.writable <= WriteSet(w.slots, |w.slots|)
    && (a.client >= 0 ==> FreshFd(listener, w, a.client))
    && forall i :: 0 <= i < |w.slots| && w.slots[i].phase == Writing ==> a.send[i] <= |response| - w.slots[i].written
  }

  lemma {:induction false} ReadSetIs(listener: int, slots: seq<Slot>, n: nat, fd: int)
    requires n <= |slots|
    ensures fd in ReadSet(listener, slots, n) <==>
      fd == listener || exists i :: 0 <= i < n && slots[i].phase == Reading && slots[i].fd == fd
  {
    if n > 0 {
      ReadSetIs(listener, slots, n - 1, fd);
    }
  }

  lemma {:induction false} WriteSetIs(slots: seq<Slot>, n: nat, fd: int)
    requires n <= |slots|
    ensures fd in WriteSet(slots, n) <==> exists i :: 0 <= i < n && slots[i].phase == Writing && slots[i].fd == fd
  {
    if n > 0 {
      WriteSetIs(slots, n - 1, fd);
    }
  }

  // ----- The invariant

  /** An error before the last byte: what arrived is a proper start of the response. */
  predicate Partial(response: string, sent: string) {
    |sent| <= |response| && sent == response[..|sent|] && (sent == [] || |sent| < |response|)
  }

  /** A busy slot and the connection in it. */
  predicate Matches(response: string, listener: int, s: Slot, c: Conn) {
    && Busy(s) && s.fd >= 0 && s.fd != listener && s.fd == c.fd
    && c.end == Open && s.written == |c.sent| && Partial(response, c.sent)
    && (s.phase == Reading ==> c.sent == [])
  }

  predicate Settled(response: string, c: Conn) {
    match c.end
    case Open => false
    case Refused => c.sent == []
    case Failed => Partial(response, c.sent)
    case Served => c.sent == response
  }

  ghost predicate SlotOk(response: string, listener: int, w: World, i: nat)
    requires i < |w.slots| == |w.owner|
  {
    if Busy(w.slots[i]) then w.owner[i] < |w.conns| && Matches(response, listener, w.slots[i], w.conns[w.owner[i]])
    else w.slots[i] == VACANT
  }

  ghost predicate Apart(w: World, i: nat, j: nat)
    requires i < |w.slots| == |w.owner| && j < |w.slots|
  {
    Busy(w.slots[i]) && Busy(w.slots[j]) ==> w.owner[i] != w.owner[j] && w.slots[i].fd != w.slots[j].fd
  }

  ghost predicate Holds(w: World, i: nat, c: nat)
    requires |w.slots| == |w.owner|
  {
    i < |w.slots| && Busy(w.slots[i]) && w.owner[i] == c
  }

  ghost predicate ConnOk(response: string, w: World, c: nat)
    requires c < |w.conns| && |w.slots| == |w.owner|
  {
    && (w.conns[c].end == Open ==> exists i :: Holds(w, i, c))
    && (w.conns[c].end != Open ==> Settled(response, w.conns[c]))
    && multiset(w.closes)[c] == (if w.conns[c].end == Open then 0 else 1)
  }

  ghost predicate Inv(response: string, listener: int, w: World) {
    && |w.slots| == |w.owner|
    && (forall i :: 0 <= i < |w.slots| ==> SlotOk(response, listener, w, i))
    && (forall i, j :: 0 <= i < j < |w.slots| ==> Apart(w, i, j))
    && (forall c :: 0 <= c < |w.conns| ==> ConnOk(response, w, c))
    && |w.closes| == |w.fds|
    && (forall k :: 0 <= k < |w.closes| ==> w.closes[k] < |w.conns| && w.fds[k] == w.conns[w.closes[k]].fd)
  }

  function Start(clients: nat): World {
    World(seq(clients, _ => VACANT), seq(clients, _ => 0), [], [], [])
  }

  lemma StartInv(response: string, listener: int, clients: nat)
    ensures Inv(response, listener, Start(clients))
  {
  }

  /** What the service loop does to one slot keeps slot and connection in step, or
      empties the slot and settles the connection. */
  lemma NextIsOk(response: string, listener: int, s: Slot, c: Conn, recv: int, send: int)
    requires Matches(response, listener, s, c)
    requires s.phase == Writing ==> send <= |response| - s.written
    ensures var t, d := NextSlot(response, s, recv, send), NextConn(response, s, c, recv, send);
      d.fd == c.fd && c.sent <= d.sent &&
      (if d.end == Open then Matches(response, listener, t, d) else t == VACANT && Settled(response, d))
  {
    if s.phase == Writing && send > 0 {
      var got := response[s.written..s.written + send];
      assert c.sent + got == response[..s.written + send];
    }
  }

  lemma ClosesCount(closes: seq<nat>, x: nat, c: nat)
    ensures multiset(closes + [x])[c] == multiset(closes)[c] + (if c == x then 1 else 0)
  {
  }

  /** Slot `i` is busy with a logged connection. */
  ghost predicate Seated(w: World, i: nat) {
    i < |w.slots| == |w.owner| && Busy(w.slots[i]) && w.owner[i] < |w.conns|
  }

  lemma ReplaceSlots(response: string, listener: int, w: World, i: nat, s: Slot, c: Conn, j: nat)
    requires Inv(response, listener, w) && Seated(w, i) && j < |w.slots|
    requires c.fd == w.slots[i].fd
    requires if c.end == Open then Matches(response, listener, s, c) else s == VACANT
    ensures SlotOk(response, listener, Replace(w, i, s, c), j)
  {
    assert SlotOk(response, listener, w, j) && SlotOk(response, listener, w, i);
    if i < j {
      assert Apart(w, i, j);
    } else if j < i {
      assert Apart(w, j, i);
    }
  }

  lemma ReplaceApart(response: string, listener: int, w: World, i: nat, s: Slot, c: Conn, j: nat, k: nat)
    requires Inv(response, listener, w) && Seated(w, i) && j < k < |w.slots|
    requires Busy(s) ==> s.fd == w.slots[i].fd
    ensures Apart(Replace(w, i, s, c), j, k)
  {
    assert SlotOk(response, listener, w, i);
    assert Apart(w, j, k);
  }

  lemma ReplaceConns(response: string, listener: int, w: World, i: nat, s: Slot, c: Conn, d: nat)
    requires Inv(response, listener, w) && Seated(w, i) && d < |w.conns|
    requires if c.end == Open then Busy(s) else !Busy(s) && Settled(response, c)
    ensures ConnOk(response, Replace(w, i, s, c), d)
  {
    var r := Replace(w, i, s, c);
    assert SlotOk(response, listener, w, i) && ConnOk(response, w, d);
    ClosesCount(w.closes, w.owner[i], d);
    if d == w.owner[i] {
      assert c.end == Open ==> Holds(r, i, d);
    } else if w.conns[d].end == Open {
      var j :| Holds(w, j, d);
      assert Holds(r, j, d);
    }
  }

  lemma ReplaceKeepsInv(response: string, listener: int, w: World, i: nat, s: Slot, c: Conn)
    requires Inv(response, listener, w) && Seated(w, i) && c.fd == w.slots[i].fd
    requires if c.end == Open then Matches(response, listener, s, c) else s == VACANT && Settled(response, c)
    ensures Inv(response, listener, Replace(w, i, s, c))
  {
    var r := Replace(w, i, s, c);
    assert SlotOk(response, listener, w, i);
    forall j | 0 <= j < |r.slots| ensures SlotOk(response, listener, r, j) {
      ReplaceSlots(response, listener, w, i, s, c, j);
    }
    forall j, k | 0 <= j < k < |r.slots| ensures Apart(r, j, k) {
      ReplaceApart(response, listener, w, i, s, c, j, k);
    }
    forall d | 0 <= d < |r.conns| ensures ConnOk(response, r, d) {
      ReplaceConns(response, listener, w, i, s, c, d);
    }
  }

  lemma AdmitConns(response: string, listener: int, w: World, fd: int, d: nat)
    requires Inv(response, listener, w) && d <= |w.conns|
    ensures |w.conns| + 1 == |Admit(w, fd).conns| && ConnOk(response, Admit(w, fd), d)
  {
    var r := Admit(w, fd);
    var idx := FirstFree(w.slots, 0);
    ClosesCount(w.closes, |w.conns|, d);
    if d == |w.conns| {
      assert idx < |w.slots| ==> Holds(r, idx, d);
      NeverClosed(w.closes, d);
    } else {
      assert ConnOk(response, w, d);
      if w.conns[d].end == Open {
        var j :| Holds(w, j, d);
        assert Holds(r, j, d);
      }
    }
  }

  lemma NeverClosed(closes: seq<nat>, d: nat)
    requires forall k :: 0 <= k < |closes| ==> closes[k] < d
    ensures multiset(closes)[d] == 0
  {
    assert d !in closes;
  }

  lemma AdmitKeepsInv(response: string, listener: int, w: World, fd: int)
    requires Inv(response, listener, w) && fd >= 0 && FreshFd(listener, w, fd)
    ensures Inv(response, listener, Admit(w, fd))
  {
    var r := Admit(w, fd);
    var idx := FirstFree(w.slots, 0);
    forall j | 0 <= j < |r.slots| ensures SlotOk(response, listener, r, j) {
      assert SlotOk(response, listener, w, j);
    }
    forall j, k | 0 <= j < k < |r.slots| ensures Apart(r, j, k) {
      assert SlotOk(response, listener, w, j) && SlotOk(response, listener, w, k) && Apart(w, j, k);
    }
    forall d | 0 <= d < |r.conns| ensures ConnOk(response, r, d) {
      AdmitConns(response, listener, w, fd, d);
    }
  }

  // ----- What one pass does

  /** The answers still fit a world in which slots before `i` may have been served. */
  ghost predicate StillAllowed(response: string, w: World, a: Answers, i: nat) {
    && |a.recv| == |a.send| == |w.slots| && i <= |w.slots|
    && forall j :: i <= j < |w.slots| && Ready(w.slots[j], a) && w.slots[j].phase == Writing ==>
         a.send[j] <= |response| - w.slots[j].written
  }

  lemma InvIsShaped(response: string, listener: int, w: World, a: Answers)
    requires Inv(response, listener, w) && |a.recv| == |a.send| == |w.slots|
    ensures Shaped(w, a)
  {
    forall i | 0 <= i < |w.slots| && Busy(w.slots[i]) ensures w.owner[i] < |w.conns| {
      assert SlotOk(response, listener, w, i);
    }
  }

  lemma ServiceKeepsInv(response: string, listener: int, w: World, a: Answers, i: nat)
    requires Inv(response, listener, w) && StillAllowed(response, w, a, i) && i < |w.slots| && Shaped(w, a)
    ensures Inv(response, listener, Service(response, w, a, i))
    ensures StillAllowed(response, Service(response, w, a, i), a, i + 1)
    ensures Later(w, Service(response, w, a, i))
  {
    var s := w.slots[i];
    if Ready(s, a) {
      assert SlotOk(response, listener, w, i);
      var c := w.conns[w.owner[i]];
      var t, d := NextSlot(response, s, a.recv[i], a.send[i]), NextConn(response, s, c, a.recv[i], a.send[i]);
      NextIsOk(response, listener, s, c, a.recv[i], a.send[i]);
      ReplaceKeepsInv(response, listener, w, i, t, d);
    }
  }

  /** How a connection may change: bytes are only added, and a closed connection
      never changes again. */
  predicate Follows(c: Conn, d: Conn) {
    c.fd == d.fd && c.sent <= d.sent && (c.end != Open ==> c == d)
  }

  ghost predicate Later(w: World, r: World) {
    |w.conns| <= |r.conns| && forall c :: 0 <= c < |w.conns| ==> Follows(w.conns[c], r.conns[c])
  }

  lemma LaterTrans(w: World, x: World, r: World)
    requires Later(w, x) && Later(x, r)
    ensures Later(w, r)
  {
    forall c | 0 <= c < |w.conns| ensures Follows(w.conns[c], r.conns[c]) {
      assert Follows(w.conns[c], x.conns[c]) && Follows(x.conns[c], r.conns[c]);
    }
  }

  lemma {:induction false} ServiceFromKeepsInv(response: string, listener: int, w: World, a: Answers, i: nat)
    requires Inv(response, listener, w) && StillAllowed(response, w, a, i) && Shaped(w, a)
    ensures Inv(response, listener, ServiceFrom(response, w, a, i)) && Later(w, ServiceFrom(response, w, a, i))
    decreases |w.slots| - i
  {
    if i < |w.slots| {
      var x := Service(response, w, a, i);
      ServiceKeepsInv(response, listener, w, a, i);
      ServiceFromKeepsInv(response, listener, x, a, i + 1);
      LaterTrans(w, x, ServiceFrom(response, x, a, i + 1));
    }
  }

  /** The connection `accept` just handed out is in neither set of this pass. */
  lemma NewcomerIsNotReady(response: string, listener: int, w: World, a: Answers, fd: int)
    requires Inv(response, listener, w) && Allowed(response, listener, w, a) && FreshFd(listener, w, fd)
    ensures fd !in a.readable && fd !in a.writable
  {
    ReadSetIs(listener, w.slots, |w.slots|, fd);
    WriteSetIs(w.slots, |w.slots|, fd);
  }

  lemma AcceptingKeeps(response: string, listener: int, w: World, a: Answers)
    requires Inv(response, listener, w) && Allowed(response, listener, w, a)
    ensures var x := Accepting(listener, w, a);
      Inv(response, listener, x) && StillAllowed(response, x, a, 0) && Shaped(x, a) && Later(w, x)
  {
    var x := Accepting(listener, w, a);
    if listener in a.readable && a.client >= 0 {
      AdmitKeepsInv(response, listener, w, a.client);
    }
    InvIsShaped(response, listener, x, a);
  }

  /** Every pass keeps the invariant, whatever the environment answers. */
  lemma PassKeepsInv(response: string, listener: int, w: World, a: Answers)
    requires Inv(response, listener, w) && Allowed(response, listener, w, a)
    ensures Inv(response, listener, Pass(response, listener, w, a)) && Later(w, Pass(response, listener, w, a))
  {
    var x := Accepting(listener, w, a);
    AcceptingKeeps(response, listener, w, a);
    ServiceFromKeepsInv(response, listener, x, a, 0);
    LaterTrans(w, x, ServiceFrom(response, x, a, 0));
  }

  // ----- Each connection on its own

  /** Slot `i` and its connection after being looked at once. */
  ghost predicate Looked(response: string, w: World, a: Answers, i: nat, r: World)
    requires Shaped(w, a) && i < |w.slots| && |r.slots| == |w.slots| && |r.conns| >= |w.conns|
  {
    var s := w.slots[i];
    if !Ready(s, a) then r.slots[i] == s && (Busy(s) ==> r.conns[w.owner[i]] == w.conns[w.owner[i]])
    else
      && r.slots[i] == NextSlot(response, s, a.recv[i], a.send[i])
      && r.conns[w.owner[i]] == NextConn(response, s, w.conns[w.owner[i]], a.recv[i], a.send[i])
  }

  /** The service loop leaves the slots before `i`, the connections no later slot
      holds, and the seating, alone. */
  lemma {:induction false} ServiceFromFrame(response: string, listener: int, w: World, a: Answers, i: nat)
    requires Inv(response, listener, w) && StillAllowed(response, w, a, i) && Shaped(w, a)
    ensures var r := ServiceFrom(response, w, a, i);
      && r.owner == w.owner && |r.slots| == |w.slots| && |r.conns| == |w.conns|
      && (forall j :: 0 <= j < i ==> r.slots[j] == w.slots[j])
      && (forall c :: 0 <= c < |w.conns| && (forall j :: i <= j < |w.slots| ==> !Holds(w, j, c)) ==>
            r.conns[c] == w.conns[c])
    decreases |w.slots| - i
  {
    if i < |w.slots| {
      var x := Service(response, w, a, i);
      ServiceKeepsInv(response, listener, w, a, i);
      ServiceFromFrame(response, listener, x, a, i + 1);
      forall c | 0 <= c < |w.conns| && (forall j :: i <= j < |w.slots| ==> !Holds(w, j, c))
        ensures ServiceFrom(response, w, a, i).conns[c] == w.conns[c]
      {
        assert !Holds(w, i, c);
        forall j | i + 1 <= j < |w.slots| ensures !Holds(x, j, c) {
          assert !Holds(w, j, c);
        }
      }
    }
  }

  /** Every slot from `i` on is looked at exactly once, as it stood, whatever the
      other slots do: one client cannot hold up another. */
  lemma {:induction false} ServiceLooksOnce(response: string, listener: int, w: World, a: Answers, i: nat, k: nat)
    requires Inv(response, listener, w) && StillAllowed(response, w, a, i) && Shaped(w, a) && i <= k < |w.slots|
    ensures var r := ServiceFrom(response, w, a, i);
      |r.slots| == |w.slots| && |r.conns| == |w.conns| && Looked(response, w, a, k, r)
    decreases |w.slots| - i
  {
    var x := Service(response, w, a, i);
    ServiceKeepsInv(response, listener, w, a, i);
    ServiceFromFrame(response, listener, w, a, i);
    ServiceFromFrame(response, listener, x, a, i + 1);
    if k == i {
      if Busy(w.slots[i]) {
        forall j | i + 1 <= j < |w.slots| ensures !Holds(x, j, w.owner[i]) {
          assert Apart(w, i, j);
        }
      }
    } else {
      assert Apart(w, i, k) && SlotOk(response, listener, w, k);
      ServiceLooksOnce(response, listener, x, a, i + 1, k);
    }
  }

  /** The exact effect of a pass on every connection that was in a slot: it moves
      by one `recv` or `send` if the kernel reported it ready, and not at all
      otherwise, independently of every other connection. */
  lemma PassServesEachOnce(response: string, listener: int, w: World, a: Answers, i: nat)
    requires Inv(response, listener, w) && Allowed(response, listener, w, a) && i < |w.slots| && Busy(w.slots[i])
    ensures var r := Pass(response, listener, w, a);
      |r.slots| == |w.slots| && |r.conns| >= |w.conns| && Looked(response, w, a, i, r)
  {
    var x := Accepting(listener, w, a);
    AcceptingKeeps(response, listener, w, a);
    assert SlotOk(response, listener, w, i);
    ServiceLooksOnce(response, listener, x, a, 0, i);
  }

  /** The descriptors `sock_close` got for connection `c`. */
  ghost predicate ClosedOnce(w: World, c: nat) {
    && multiset(w.closes)[c] == 1 && |w.fds| == |w.closes| && c < |w.conns|
    && forall j :: 0 <= j < |w.closes| && w.closes[j] == c ==> w.fds[j] == w.conns[c].fd
  }

  /** A pass on a slot waiting for its request, by what `recv` returned: nothing or an
      error closes it with nothing sent, anything else lets it be written to. */
  lemma PassOnReader(response: string, listener: int, w: World, a: Answers, i: nat)
    requires Inv(response, listener, w) && Allowed(response, listener, w, a) && i < |w.slots|
    requires w.slots[i].phase == Reading && w.slots[i].fd in a.readable
    ensures var r := Pass(response, listener, w, a); var c, fd := w.owner[i], w.slots[i].fd;
      && i < |r.slots| && c < |r.conns|
      && (a.recv[i] <= 0 ==> r.slots[i] == Slot(-1, Idle, 0) && r.conns[c] == Conn(fd, "", Failed) && ClosedOnce(r, c))
      && (a.recv[i] > 0 ==>
            r.slots[i] == Slot(fd, Writing, 0) && r.conns[c] == Conn(fd, "", Open) && multiset(r.closes)[c] == 0)
  {
    PassServesEachOnce(response, listener, w, a, i);
    PassKeepsInv(response, listener, w, a);
    assert SlotOk(response, listener, w, i);
    assert ConnOk(response, Pass(response, listener, w, a), w.owner[i]);
  }

  /** A pass on a slot being written to, by what `send` returned: nothing or an error
      closes it as it stands; fewer bytes than are left are added to what was sent;
      all that is left ends it with the whole response sent. */
  lemma PassOnWriter(response: string, listener: int, w: World, a: Answers, i: nat)
    requires Inv(response, listener, w) && Allowed(response, listener, w, a) && i < |w.slots|
    requires w.slots[i].phase == Writing && w.slots[i].fd in a.writable
    ensures var r := Pass(response, listener, w, a); var c, fd := w.owner[i], w.slots[i].fd;
      var written, n := w.slots[i].written, a.send[i];
      && i < |r.slots| && c < |r.conns| && 0 <= written <= |response| && n <= |response| - written
      && (n <= 0 ==>
            r.slots[i] == Slot(-1, Idle, 0) && r.conns[c] == Conn(fd, response[..written], Failed) && ClosedOnce(r, c))
      && (0 < n < |response| - written ==>
            && r.slots[i] == Slot(fd, Writing, written + n)
            && r.conns[c] == Conn(fd, response[..written + n], Open) && multiset(r.closes)[c] == 0)
      && (0 < n == |response| - written ==>
            r.slots[i] == Slot(-1, Idle, 0) && r.conns[c] == Conn(fd, response, Served) && ClosedOnce(r, c))
  {
    PassServesEachOnce(response, listener, w, a, i);
    PassKeepsInv(response, listener, w, a);
    assert SlotOk(response, listener, w, i);
    assert ConnOk(response, Pass(response, listener, w, a), w.owner[i]);
    var written, n := w.slots[i].written, a.send[i];
    if n > 0 {
      assert response[..written] + response[written..written + n] == response[..written + n];
    }
    assert response[..|response|] == response;
  }

  /** A pass on a busy slot the kernel did not report leaves it as it was. */
  lemma PassOnOther(response: string, listener: int, w: World, a: Answers, i: nat)
    requires Inv(response, listener, w) && Allowed(response, listener, w, a) && i < |w.slots|
    requires w.slots[i].phase == Reading ==> w.slots[i].fd !in a.readable
    requires w.slots[i].phase == Writing ==> w.slots[i].fd !in a.writable
    requires w.slots[i].phase != Idle
    ensures var r := Pass(response, listener, w, a); var c := w.owner[i];
      i < |r.slots| && c < |r.conns| && c < |w.conns| && r.slots[i] == w.slots[i] && r.conns[c] == w.conns[c]
  {
    PassServesEachOnce(response, listener, w, a, i);
    assert SlotOk(response, listener, w, i);
  }

  /** A connection accepted in a pass is not served in it: it is the last of the
      log, with nothing sent, and either waits in a slot that was free to be read
      from or, when every slot was busy, has been closed. */
  lemma NewcomerWaits(response: string, listener: int, w: World, a: Answers)
    requires Inv(response, listener, w) && Allowed(response, listener, w, a)
    ensures var r := Pass(response, listener, w, a); var id := |w.conns|;
      if listener in a.readable && a.client >= 0 then
        && |r.conns| == id + 1
        && (AllBusy(w) ==> r.conns[id] == Conn(a.client, [], Refused))
        && (!AllBusy(w) ==>
              && r.conns[id] == Conn(a.client, [], Open)
              && exists i :: 0 <= i < |w.slots| && FirstIdle(w, i) && Seat(r, i, id, Slot(a.client, Reading, 0)))
      else |r.conns| == id
  {
    var x := Accepting(listener, w, a);
    var r := Pass(response, listener, w, a);
    AcceptingKeeps(response, listener, w, a);
    ServiceFromFrame(response, listener, x, a, 0);
    if listener in a.readable && a.client >= 0 {
      var idx := FirstFree(w.slots, 0);
      if idx < |w.slots| {
        NewcomerIsNotReady(response, listener, w, a, a.client);
        ServiceLooksOnce(response, listener, x, a, 0, idx);
        assert FirstIdle(w, idx) && Seat(r, idx, |w.conns|, Slot(a.client, Reading, 0));
      } else {
        RefusedIsLeft(response, listener, w, x, a);
      }
    }
  }

  ghost predicate AllBusy(w: World) { forall i :: 0 <= i < |w.slots| ==> Busy(w.slots[i]) }

  /** The free slot with the lowest number. */
  ghost predicate FirstIdle(w: World, i: nat) {
    i < |w.slots| && w.slots[i].phase == Idle && forall j :: 0 <= j < i ==> w.slots[j].phase != Idle
  }

  ghost predicate Seat(w: World, i: nat, c: nat, s: Slot) {
    i < |w.slots| == |w.owner| && w.slots[i] == s && w.owner[i] == c
  }

  lemma RefusedIsLeft(response: string, listener: int, w: World, x: World, a: Answers)
    requires Inv(response, listener, w) && Inv(response, listener, x) && StillAllowed(response, x, a, 0) && Shaped(x, a)
    requires x.slots == w.slots && x.owner == w.owner && |x.conns| == |w.conns| + 1
    ensures var r := ServiceFrom(response, x, a, 0);
      |r.conns| == |x.conns| && r.conns[|w.conns|] == x.conns[|w.conns|]
  {
    ServiceFromFrame(response, listener, x, a, 0);
    forall j | 0 <= j < |x.slots| ensures !Holds(x, j, |w.conns|) {
      assert SlotOk(response, listener, w, j);
    }
  }

  /** How many more times a connection can be served. */
  function Left(response: string, s: Slot): int {
    match s.phase
    case Idle => 0
    case Reading => |response| + 2
    case Writing => |response| + 1 - s.written
  }

  /** Every pass brings exactly the ready connections closer to their end. */
  lemma ReadyMeansProgress(response: string, listener: int, w: World, a: Answers, i: nat)
    requires Inv(response, listener, w) && Allowed(response, listener, w, a) && i < |w.slots| && Busy(w.slots[i])
    ensures var r := Pass(response, listener, w, a);
      && |r.slots| == |w.slots|
      && (if Ready(w.slots[i], a) then 0 <= Left(response, r.slots[i]) < Left(response, w.slots[i])
          else r.slots[i] == w.slots[i])
  {
    PassServesEachOnce(response, listener, w, a, i);
    assert SlotOk(response, listener, w, i);
  }

  // ----- Whole runs

  /** The environment answers lawfully at every pass of the run. */
  ghost predicate Lawful(response: string, listener: int, w: World, run: seq<Answers>, k: nat)
    requires k <= |run|
    decreases |run| - k
  {
    k < |run| ==>
      && Allowed(response, listener, w, run[k])
      && Lawful(response, listener, Pass(response, listener, w, run[k]), run, k + 1)
  }

  function Run(response: string, listener: int, w: World, run: seq<Answers>, k: nat): World
    requires k <= |run| && Lawful(response, listener, w, run, k)
    decreases |run| - k
  {
    if k == |run| then w else Run(response, listener, Pass(response, listener, w, run[k]), run, k + 1)
  }

  lemma {:induction false} RunKeepsInv(response: string, listener: int, w: World, run: seq<Answers>, k: nat)
    requires k <= |run| && Lawful(response, listener, w, run, k) && Inv(response, listener, w)
    ensures Inv(response, listener, Run(response, listener, w, run, k))
    ensures Later(w, Run(response, listener, w, run, k))
    decreases |run| - k
  {
    if k < |run| {
      var x := Pass(response, listener, w, run[k]);
      PassKeepsInv(response, listener, w, run[k]);
      RunKeepsInv(response, listener, x, run, k + 1);
      LaterTrans(w, x, Run(response, listener, x, run, k + 1));
    }
  }

  /** After any run, every connection ever accepted is either open, never closed,
      and in exactly one busy slot, or closed exactly once and in none; and a close
      that was not an error had sent the whole response. */
  lemma DescriptorsAreConserved(response: string, listener: int, clients: nat, run: seq<Answers>, c: nat)
    requires Lawful(response, listener, Start(clients), run, 0)
    requires c < |Run(response, listener, Start(clients), run, 0).conns|
    ensures var w := Run(response, listener, Start(clients), run, 0); var conn := w.conns[c];
      && |w.slots| == |w.owner|
      && multiset(w.closes)[c] == (if conn.end == Open then 0 else 1)
      && |w.fds| == |w.closes| && (forall j :: 0 <= j < |w.closes| && w.closes[j] == c ==> w.fds[j] == conn.fd)
      && (conn.end == Open <==> exists i :: Holds(w, i, c))
      && (forall i, j :: Holds(w, i, c) && Holds(w, j, c) ==> i == j)
      && (conn.end == Served ==> conn.sent == response)
      && conn.sent <= response
  {
    var w := Run(response, listener, Start(clients), run, 0);
    StartInv(response, listener, clients);
    RunKeepsInv(response, listener, Start(clients), run, 0);
    assert ConnOk(response, w, c);
    forall i | Holds(w, i, c) ensures w.conns[c].end == Open && Partial(response, w.conns[c].sent) {
      assert SlotOk(response, listener, w, i);
    }
    forall i, j | Holds(w, i, c) && Holds(w, j, c) ensures i == j {
      assert i < j ==> Apart(w, i, j);
      assert j < i ==> Apart(w, j, i);
    }
  }

  /** After any run, a slot is free exactly when its descriptor is -1, and then
      nothing is written; the bytes sent on a busy slot are the first `written`
      of the response, and no two busy slots share a descriptor. */
  lemma SlotsAreConsistent(response: string, listener: int, clients: nat, run: seq<Answers>, i: nat, j: nat)
    requires Lawful(response, listener, Start(clients), run, 0) && listener >= 0
    requires i < |Run(response, listener, Start(clients), run, 0).slots|
    requires j < |Run(response, listener, Start(clients), run, 0).slots|
    ensures var w := Run(response, listener, Start(clients), run, 0); var s := w.slots[i];
      && |w.slots| == |w.owner|
      && (s.phase == Idle <==> s.fd == -1) && (s.phase == Idle ==> s.written == 0)
      && (Busy(s) ==>
            0 <= s.written <= |response| && w.owner[i] < |w.conns| && w.conns[w.owner[i]].sent == response[..s.written])
      && (i != j && Busy(s) && Busy(w.slots[j]) ==> s.fd != w.slots[j].fd)
  {
    var w := Run(response, listener, Start(clients), run, 0);
    StartInv(response, listener, clients);
    RunKeepsInv(response, listener, Start(clients), run, 0);
    assert SlotOk(response, listener, w, i);
    if i < j {
      assert Apart(w, i, j);
    } else if j < i {
      assert Apart(w, j, i);
    }
  }
}
