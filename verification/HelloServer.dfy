/** The slot arrays of `demos/hello_server.c` and the loops that change them in
    place, proved against the state machine of `HelloModel`. */
module HelloServer {
  import opened HelloModel

  class Server {
    const listener: int
    const slotFd: array<int>
    const slotPhase: array<Phase>
    const slotWritten: array<int>
    /** The slots as records, and the log of connections. */
    ghost var world: World

    ghost predicate Valid()
      reads this, slotFd, slotPhase, slotWritten
    {
      && slotFd.Length == slotPhase.Length == slotWritten.Length == |world.slots| && slotFd != slotWritten
      && forall i :: 0 <= i < |world.slots| ==> world.slots[i] == Slot(slotFd[i], slotPhase[i], slotWritten[i])
    }

    constructor (listener: int, clients: nat)
      ensures Valid() && this.listener == listener && world == Start(clients)
      ensures fresh(slotFd) && fresh(slotPhase) && fresh(slotWritten)
    {
      this.listener := listener;
      slotFd := new int[clients];
      slotPhase := new Phase[clients](_ => Idle);
      slotWritten := new int[clients];
      world := Start(clients);
      new;
      var i := 0;
      while i < clients
        invariant 0 <= i <= clients && world == Start(clients)
        invariant forall j :: 0 <= j < i ==> Slot(slotFd[j], slotPhase[j], slotWritten[j]) == VACANT
      {
        slotFd[i] := -1;
        slotPhase[i] := Idle;
        slotWritten[i] := 0;
        i := i + 1;
      }
    }

    method FindFreeSlot() returns (i: int)
      requires Valid()
      ensures i == if FirstFree(world.slots, 0) == |world.slots| then -1 else FirstFree(world.slots, 0)
    {
      i := 0;
      while i < slotPhase.Length
        invariant 0 <= i <= slotPhase.Length && FirstFree(world.slots, i) == FirstFree(world.slots, 0)
      {
        if slotPhase[i] == Idle {
          return;
        }
        i := i + 1;
      }
      i := -1;
    }

    /** Write one slot; the log follows. */
    method SetSlot(i: nat, fd: int, phase: Phase, written: int, ghost next: World)
      requires Valid() && i < |world.slots| && next.slots == world.slots[i := Slot(fd, phase, written)]
      modifies this, slotFd, slotPhase, slotWritten
      ensures Valid() && world == next
    {
      slotFd[i] := fd;
      slotPhase[i] := phase;
      slotWritten[i] := written;
      world := next;
    }

    /** `sock_close` on the slot's descriptor, and the slot is free. */
    method CloseSlot(i: nat, ghost conn: Conn)
      requires Valid() && i < |world.slots| == |world.owner| && world.owner[i] < |world.conns| && conn.end != Open
      modifies this, slotFd, slotPhase, slotWritten
      ensures Valid() && world == Replace(old(world), i, VACANT, conn)
      ensures world.closes == old(world.closes) + [old(world.owner[i])]
      ensures world.fds == old(world.fds) + [old(slotFd[i])]
    {
      SetSlot(i, -1, Idle, 0, Replace(world, i, VACANT, conn));
    }

    /** The sets handed to `select`, and the largest descriptor in them. */
    method Watch() returns (rfds: set<int>, wfds: set<int>, nfds: int)
      requires Valid()
      ensures rfds == ReadSet(listener, world.slots, |world.slots|) && wfds == WriteSet(world.slots, |world.slots|)
      ensures nfds in rfds + wfds && forall fd :: fd in rfds + wfds ==> fd <= nfds
    {
      rfds, wfds, nfds := {listener}, {}, listener;
      var i := 0;
      while i < slotFd.Length
        invariant 0 <= i <= slotFd.Length
        invariant rfds == ReadSet(listener, world.slots, i) && wfds == WriteSet(world.slots, i)
        invariant nfds in rfds + wfds && forall fd :: fd in rfds + wfds ==> fd <= nfds
      {
        if slotPhase[i] == Reading {
          rfds := rfds + {slotFd[i]};
          if slotFd[i] > nfds { nfds := slotFd[i]; }
        } else if slotPhase[i] == Writing {
          wfds := wfds + {slotFd[i]};
          if slotFd[i] > nfds { nfds := slotFd[i]; }
        }
        i := i + 1;
      }
    }

    method Accept(a: Answers)
      requires Valid() && |world.owner| == |world.slots|
      modifies this, slotFd, slotPhase, slotWritten
      ensures Valid() && world == Accepting(listener, old(world), a)
    {
      if listener in a.readable && a.client >= 0 {
        var idx := FindFreeSlot();
        if idx < 0 {
          world := Admit(world, a.client);
        } else {
          SetSlot(idx, a.client, Reading, 0, Admit(world, a.client));
        }
      }
    }

    /** One iteration of the service loop. */
    method ServeSlot(response: string, a: Answers, i: nat)
      requires Valid() && Shaped(world, a) && i < |world.slots|
      modifies this, slotFd, slotPhase, slotWritten
      ensures Valid() && world == Service(response, old(world), a, i)
    {
      ghost var s := world.slots[i];
      ghost var conn :=
        if Busy(s) then NextConn(response, s, world.conns[world.owner[i]], a.recv[i], a.send[i])
        else Conn(-1, [], Open);
      if slotPhase[i] == Reading && slotFd[i] in a.readable {
        var n := a.recv[i];
        if n <= 0 {
          CloseSlot(i, conn);
        } else {
          SetSlot(i, slotFd[i], Writing, slotWritten[i], Replace(world, i, s.(phase := Writing), conn));
        }
      } else if slotPhase[i] == Writing && slotFd[i] in a.writable {
        var n := a.send[i];
        if n <= 0 {
          CloseSlot(i, conn);
        } else if slotWritten[i] + n >= |response| {
          CloseSlot(i, conn);
        } else {
          SetSlot(i, slotFd[i], Writing, slotWritten[i] + n, Replace(world, i, s.(written := s.written + n), conn));
        }
      }
    }

    /** The body of the `while (1)` loop after a `select` that did not fail. */
    method OnePass(response: string, a: Answers)
      requires Valid() && Inv(response, listener, world) && Allowed(response, listener, world, a)
      modifies this, slotFd, slotPhase, slotWritten
      ensures Valid() && world == Pass(response, listener, old(world), a)
      ensures Inv(response, listener, world) && Later(old(world), world)
    {
      PassKeepsInv(response, listener, world, a);
      AcceptingKeeps(response, listener, world, a);
      Accept(a);
      ghost var accepted := world;
      var i := 0;
      while i < slotFd.Length
        invariant 0 <= i <= slotFd.Length && Valid() && |world.slots| == |accepted.slots|
        invariant Inv(response, listener, world) && StillAllowed(response, world, a, i) && Shaped(world, a)
        invariant ServiceFrom(response, world, a, i) == ServiceFrom(response, accepted, a, 0)
      {
        ServiceKeepsInv(response, listener, world, a, i);
        InvIsShaped(response, listener, Service(response, world, a, i), a);
        ServeSlot(response, a, i);
        i := i + 1;
      }
    }

    /** The loop of `main`: the passes of the run, and then a `select` that fails. */
    method Serve(response: string, run: seq<Answers>)
      requires Valid() && Inv(response, listener, world) && Lawful(response, listener, world, run, 0)
      modifies this, slotFd, slotPhase, slotWritten
      ensures Valid() && world == Run(response, listener, old(world), run, 0)
      ensures Inv(response, listener, world) && Later(old(world), world)
    {
      RunKeepsInv(response, listener, world, run, 0);
      var k := 0;
      while k < |run|
        invariant 0 <= k <= |run| && Valid() && Inv(response, listener, world)
        invariant Lawful(response, listener, world, run, k)
        invariant Run(response, listener, world, run, k) == Run(response, listener, old(world), run, 0)
      {
        var rfds, wfds, _ := Watch();
        assert run[k].readable <= rfds && run[k].writable <= wfds;
        OnePass(response, run[k]);
        k := k + 1;
      }
    }
  }
}
