/** What the invariant means: statements about every run of the receive pipeline. */
module RxTheorems {
  import opened Bytes
  import opened Rings
  import opened MidiParser
  import opened Packets
  import opened RxPipeline
  import opened RxInvariant

  /** In every reachable state and for each port, the bytes kept from the UART are, in order, those
      the parser has taken and those in the queue, and the packets of that cable shipped to the
      host or waiting in the shared ring are exactly what the parser makes of the bytes taken. */
  lemma PipelineDelivers(s: System, acts: seq<Action>, p: nat)
    requires Initial(s) && p < PORTS
    ensures var r := Run(s, acts);
            && Kept(r.trace.log[p]) == r.trace.taken[p] + r.dev.fifo[p].Contents()
            && Cable(Unpack(Upstream(r)), p) == Out(s.dev.parser[p], Parsed(r, p))
            && Parsed(r, p) + (if r.pc.Parse? && r.pc.port == p then [r.pc.b] else []) == r.trace.taken[p]
  {
    hide Run, Inv, Parsed, After, Out, Cable, Unpack, Kept, Ring.Contents, Ring.Count;
    InitialInv(s);
    RunInv(s, s.dev.parser, acts);
    InvDelivers(Run(s, acts), s.dev.parser, p);
  }

  lemma InvDelivers(r: System, boot: seq<Parser>, p: nat)
    requires Inv(r, boot) && p < PORTS
    ensures Kept(r.trace.log[p]) == r.trace.taken[p] + r.dev.fifo[p].Contents()
    ensures Cable(Unpack(Upstream(r)), p) == Out(boot[p], Parsed(r, p))
    ensures Parsed(r, p) + (if r.pc.Parse? && r.pc.port == p then [r.pc.b] else []) == r.trace.taken[p]
  {
    hide After, Out, Cable, Unpack, Kept, Ring.Contents, Ring.Count, CountInv, At;
    assert PortInv(r, boot, p);
  }

  /** The shared ring never confuses full with empty: its indices are whole packets apart, the
      true number of queued bytes is at most 252 and equals the 8-bit difference of the indices,
      and what the host has not yet been given is still in the ring, unbroken. */
  lemma SharedRingSafe(s: System, acts: seq<Action>)
    requires Initial(s)
    ensures var r := Run(s, acts);
            && r.dev.ring.head % 4 == 0 && r.dev.ring.tail % 4 == 0
            && r.dev.ring.Count() == |r.trace.emitted| - |r.trace.shipped| <= 252
            && r.trace.emitted == Upstream(r)
            && r.trace.shipped == r.trace.read + InEndpoint(r.dev)
            && |r.dev.inBuf| <= 64 && |r.dev.inBuf| % 4 == 0
  {
    hide Run, PortInv, At, Ring.Count, Ring.Contents;
    InitialInv(s);
    RunInv(s, s.dev.parser, acts);
    var r := Run(s, acts);
    RingCount(r);
    AtWhole(|r.trace.emitted|);
    AtWhole(|r.trace.shipped|);
  }

  lemma AtWhole(count: nat)
    requires count % 4 == 0
    ensures At(count) % 4 == 0
  {
  }

  /** Everything the interrupt read was kept or counted as dropped, and the diagnostic counter is
      the number of drops on all ports since it was last cleared, saturated at 255. */
  lemma OverflowConservation(s: System, acts: seq<Action>, p: nat)
    requires Initial(s) && p < PORTS
    ensures var r := Run(s, acts);
            && |r.trace.log[p]| == |Kept(r.trace.log[p])| + Dropped(r.trace.log[p])
            && CountInv(r)
  {
    InitialInv(s);
    RunInv(s, s.dev.parser, acts);
    KeptOrDropped(Run(s, acts).trace.log[p]);
  }

  lemma {:induction false} KeptOrDropped(log: seq<Capture>)
    ensures |log| == |Kept(log)| + Dropped(log)
  {
    if log == [] {
    } else {
      KeptOrDropped(log[..|log| - 1]);
    }
  }

  lemma {:induction false} RunConcat(s: System, a: seq<Action>, b: seq<Action>)
    requires Shape(s)
    ensures Run(s, a + b) == Run(Run(s, a), b)
    decreases |a|
  {
    hide Next;
    if a == [] {
      assert a + b == b;
    } else {
      RunConcat(Next(s, a[0]), a[1..], b);
      assert (a + b)[1..] == a[1..] + b;
    }
  }

  lemma RunSnoc(s: System, acts: seq<Action>, a: Action)
    requires Shape(s)
    ensures Run(s, acts + [a]) == Next(Run(s, acts), a)
  {
    RunConcat(s, acts, [a]);
  }

  lemma RunOne(s: System, a: Action)
    requires Shape(s)
    ensures Run(s, [a]) == Next(s, a)
  {
    hide Next;
    assert [a][1..] == [];
  }

  // ---- One queue, preempted consumer ------------------------------------------------------

  /** What one sweep does to one port's queue and log. */
  ghost predicate SweptPort(s: System, r: System, line: Option<byte>, o: nat)
    requires Shape(s) && Shape(r) && o < PORTS
  {
    var q := s.dev.fifo[o].Contents();
    match line
    case None =>
      r.dev.fifo[o] == s.dev.fifo[o] && r.trace.log[o] == s.trace.log[o]
    case Some(b) =>
      && |q| <= 15
      && r.trace.log[o] == s.trace.log[o] + [Capture(b, |q| < 15)]
      && r.dev.fifo[o] == if |q| < 15 then s.dev.fifo[o].Put(b) else s.dev.fifo[o]
  }

  lemma {:induction false} SweepPort(s: System, lines: seq<Option<byte>>, p: nat, o: nat)
    requires Shape(s) && p <= PORTS && o < PORTS
    ensures SweptPort(s, Sweep(s, lines, p), if o < p then None else Line(lines, o), o)
    ensures Sweep(s, lines, p).trace.taken == s.trace.taken && Sweep(s, lines, p).dev.prescale == s.dev.prescale
    decreases PORTS - p
  {
    hide Store, Shape, Line, SweptPort;
    if p == PORTS {
      NotSwept(s, o);
    } else {
      match Line(lines, p) {
        case None =>
          SweepPort(s, lines, p + 1, o);
        case Some(b) =>
          var m := Store(s, p, b);
          StorePortOnly(s, p, b, o);
          SweepPort(m, lines, p + 1, o);
          SweptTwice(s, m, Sweep(m, lines, p + 1), if o == p then Some(b) else None,
                     if o < p + 1 then None else Line(lines, o), o);
      }
    }
  }

  lemma NotSwept(s: System, o: nat)
    requires Shape(s) && o < PORTS
    ensures SweptPort(s, s, None, o)
  {
  }

  /** A store is one port's sweep. */
  lemma StorePortOnly(s: System, p: nat, b: byte, o: nat)
    requires Shape(s) && p < PORTS && o < PORTS
    ensures SweptPort(s, Store(s, p, b), if o == p then Some(b) else None, o)
    ensures Store(s, p, b).trace.taken == s.trace.taken && Store(s, p, b).dev.prescale == s.dev.prescale
  {
    hide Store, Ring.Contents, Ring.Put;
    StoreEnqueues(s, p, b);
  }

  lemma SweptTwice(s: System, m: System, r: System, line: Option<byte>, line': Option<byte>, o: nat)
    requires Shape(s) && Shape(m) && Shape(r) && o < PORTS && (line.None? || line'.None?)
    requires SweptPort(s, m, line, o) && SweptPort(m, r, line', o)
    ensures SweptPort(s, r, if line.Some? then line else line', o)
  {
    hide Ring.Contents, Ring.Put;
  }

  /** Actions that are not the main loop's leave the main loop's view alone: it keeps its place,
      and the first queued byte of every port keeps its slot and its value. */
  lemma {:induction false} PreemptionKeepsHead(s: System, acts: seq<Action>, p: nat)
    requires Shape(s) && p < PORTS && s.dev.fifo[p].Contents() != []
    requires forall i :: 0 <= i < |acts| ==> !acts[i].MainStep?
    ensures var r := Run(s, acts);
            && r.pc == s.pc && r.trace.taken == s.trace.taken && r.dev.fifo[p].tail == s.dev.fifo[p].tail
            && r.dev.fifo[p].Peek() == s.dev.fifo[p].Peek()
            && s.dev.fifo[p].Contents() <= r.dev.fifo[p].Contents()
    decreases |acts|
  {
    hide Ring.Contents, Ring.Count, Sweep;
    if acts == [] {
    } else {
      var m := Next(s, acts[0]);
      if acts[0].Timer? && U8(s.dev.prescale - 1) == 0 {
        var s' := s.(dev := s.dev.(prescale := PRESCALE));
        SweepPort(s', acts[0].lines, 0, p);
        PutKeepsHead(s, m, Line(acts[0].lines, p), p);
      }
      PreemptionKeepsHead(m, acts[1..], p);
    }
  }

  lemma PutKeepsHead(s: System, r: System, line: Option<byte>, p: nat)
    requires Shape(s) && Shape(r) && p < PORTS && SweptPort(s, r, line, p) && s.dev.fifo[p].Contents() != []
    ensures r.dev.fifo[p].tail == s.dev.fifo[p].tail && r.dev.fifo[p].Peek() == s.dev.fifo[p].Peek()
    ensures s.dev.fifo[p].Contents() <= r.dev.fifo[p].Contents()
    ensures line.Some? && |s.dev.fifo[p].Contents()| < 15 ==> r.dev.fifo[p].Contents() == s.dev.fifo[p].Contents() + [line.value]
  {
    var f := s.dev.fifo[p];
    if line.Some? && |f.Contents()| < 15 {
      PutContents(f, line.value);
      PopContents(f);
      PopContents(r.dev.fifo[p]);
    }
  }

  /** uart_rx_dequeue linearises: with any interrupts between reading the slot and advancing the
      index, it delivers the byte that headed the queue and removes exactly that byte from the
      queue as the interrupts left it, to which they have only appended. */
  lemma DequeueLinearises(s: System, acts: seq<Action>, p: nat)
    requires Shape(s) && s.pc == Read(p) && s.dev.fifo[p].Contents() != []
    requires forall i :: 0 <= i < |acts| ==> !acts[i].MainStep?
    ensures var q := s.dev.fifo[p].Contents();
            var m := Run(s, [MainStep] + acts);
            var r := Run(s, [MainStep] + acts + [MainStep]);
            && q <= m.dev.fifo[p].Contents()
            && r.dev.fifo[p].Contents() == m.dev.fifo[p].Contents()[1..]
            && r.trace.taken[p] == s.trace.taken[p] + [q[0]] && r.pc == Parse(p, q[0])
  {
    hide Ring.Contents, Ring.Count, Ring.Peek, Ring.Pop, Run;
    var a, m := Next(s, MainStep), Run(s, [MainStep] + acts);
    RunOne(s, MainStep);
    RunConcat(s, [MainStep], acts);
    PreemptionKeepsHead(a, acts, p);
    RunSnoc(s, [MainStep] + acts, MainStep);
    PopContents(s.dev.fifo[p]);
    PopContents(m.dev.fifo[p]);
  }

  // ---- Sweeps, and when the counter stays at zero ------------------------------------------

  function Timers(acts: seq<Action>): nat {
    if acts == [] then 0 else Timers(acts[..|acts| - 1]) + if acts[|acts| - 1].Timer? then 1 else 0
  }

  /** The prescaler after n ticks: 1, 3, 2, 1, 3, 2, ... */
  function Cycle(n: nat): byte {
    if n % 3 == 0 then 1 else if n % 3 == 1 then 3 else 2
  }

  /** Whether the tick after n others is a sweep. */
  predicate Sweeps(n: nat) {
    n % 3 == 0
  }

  lemma CycleNext(n: nat)
    ensures Sweeps(n) <==> Cycle(n) == 1
    ensures Cycle(0) == 1
    ensures 1 <= Cycle(n) <= 3 && Cycle(n + 1) == if Cycle(n) == 1 then 3 else Cycle(n) - 1
  {
  }

  lemma {:induction false} PrescaleCycle(s: System, acts: seq<Action>)
    requires Shape(s) && s.dev.prescale == 1
    ensures Run(s, acts).dev.prescale == Cycle(Timers(acts))
    decreases |acts|
  {
    hide Next, Cycle;
    CycleNext(Timers(acts[..if acts == [] then 0 else |acts| - 1]));
    if acts == [] {
    } else {
      hide Run, Timers;
      var before, a := acts[..|acts| - 1], acts[|acts| - 1];
      assert acts == before + [a];
      PrescaleCycle(s, before);
      RunSnoc(s, before, a);
      TimersSnoc(before, a);
      PrescaleStep(Run(s, before), a);
    }
  }

  lemma TimersSnoc(acts: seq<Action>, a: Action)
    ensures Timers(acts + [a]) == Timers(acts) + if a.Timer? then 1 else 0
  {
    assert (acts + [a])[..|acts|] == acts;
  }

  lemma PrescaleStep(s: System, a: Action)
    requires Shape(s) && 1 <= s.dev.prescale <= 3
    ensures Next(s, a).dev.prescale == if !a.Timer? then s.dev.prescale else if s.dev.prescale == 1 then 3 else s.dev.prescale - 1
  {
    hide Sweep, Ring.PutAll, ShipLoop, Step;
    if a.Timer? && s.dev.prescale == 1 {
      SweepPort(s.(dev := s.dev.(prescale := PRESCALE)), a.lines, 0, 0);
    }
  }

  /** The first tick reads every UART that shows a byte, and from then on exactly every third
      tick does; the ticks between capture nothing. */
  lemma SweepEveryThirdTick(s: System, acts: seq<Action>, lines: seq<Option<byte>>, p: nat)
    requires Initial(s) && p < PORTS
    ensures var m, r := Run(s, acts), Run(s, acts + [Timer(lines)]);
            SweptPort(m, r, if Timers(acts) % 3 == 0 && p < |lines| then lines[p] else None, p)
  {
    hide Run, Sweep, Timers, Cycle;
    var m := Run(s, acts);
    PrescaleCycle(s, acts);
    CycleNext(Timers(acts));
    RunSnoc(s, acts, Timer(lines));
    SweepPort(m.(dev := m.dev.(prescale := PRESCALE)), lines, 0, p);
  }

  /** Sweeps since the queue of port p was last seen empty. */
  function Unserved(s: System, acts: seq<Action>, p: nat): nat
    requires Shape(s) && p < PORTS
    decreases |acts|
  {
    if acts == [] then 0
    else
      var before, a := acts[..|acts| - 1], acts[|acts| - 1];
      var f := Run(s, acts).dev.fifo[p];
      if f.head == f.tail then 0
      else Unserved(s, before, p) + if a.Timer? && Sweeps(Timers(before)) then 1 else 0
  }

  /** Only a sweep can lengthen a queue, by one byte, and only a sweep of a queue of 15 drops one. */
  lemma QueueStep(s: System, a: Action, p: nat, sweeps: bool)
    requires Shape(s) && p < PORTS && (s.pc.Advance? ==> s.dev.fifo[s.pc.port].Contents() != [])
    requires sweeps <==> a.Timer? && s.dev.prescale == 1
    ensures var q, r := s.dev.fifo[p].Contents(), Next(s, a);
            && |r.dev.fifo[p].Contents()| <= |q| + (if sweeps then 1 else 0)
            && |q| <= 15
            && Dropped(r.trace.log[p]) <= Dropped(s.trace.log[p]) + (if sweeps && |q| == 15 then 1 else 0)
            && (Dropped(r.trace.log[p]) != Dropped(s.trace.log[p]) ==> |q| == 15 && r.dev.fifo[p] == s.dev.fifo[p])
  {
    hide Ring.Contents, Ring.Count, Sweep, Ring.PutAll, ShipLoop, Step, Dropped, Ring.Put, Ring.Pop, Ring.Peek;
    var f := s.dev.fifo[p];
    assert |f.Contents()| <= 15 by {
      IndexTests(f);
      CountBound(f);
    }
    if sweeps {
      var s', line := s.(dev := s.dev.(prescale := PRESCALE)), Line(a.lines, p);
      SweepPort(s', a.lines, 0, p);
      if line.Some? {
        DroppedSnoc(s.trace.log[p], Capture(line.value, |f.Contents()| < 15));
        if |f.Contents()| < 15 {
          PutContents(f, line.value);
        }
      }
    } else if a.MainStep? && s.pc.Advance? && s.pc.port == p {
      PopContents(f);
    }
  }

  lemma UnservedSnoc(s: System, before: seq<Action>, a: Action, p: nat)
    requires Shape(s) && p < PORTS
    ensures var acts := before + [a];
            var f := Run(s, acts).dev.fifo[p];
            Unserved(s, acts, p) == if f.head == f.tail then 0
                                    else Unserved(s, before, p) + if a.Timer? && Sweeps(Timers(before)) then 1 else 0
  {
    hide Run, Timers, Sweeps;
    assert (before + [a])[..|before|] == before;
  }

  lemma CountBound(f: Ring)
    requires f.Valid()
    ensures |f.Contents()| < |f.buf|
  {
    CountValue(f);
  }

  /** A queue is never longer than the number of sweeps since it was last empty. */
  lemma {:induction false} UnservedBoundsQueue(s: System, acts: seq<Action>, p: nat)
    requires Initial(s) && p < PORTS
    ensures |Run(s, acts).dev.fifo[p].Contents()| <= Unserved(s, acts, p)
    decreases |acts|
  {
    if acts == [] {
      IndexTests(s.dev.fifo[p]);
    } else {
      hide Run, Next, Ring.Contents, Ring.Count, Unserved, Initial;
      var before, a := acts[..|acts| - 1], acts[|acts| - 1];
      assert acts == before + [a];
      UnservedBoundsQueue(s, before, p);
      UnservedStep(s, before, a, p);
    }
  }

  lemma UnservedStep(s: System, before: seq<Action>, a: Action, p: nat)
    requires Initial(s) && p < PORTS
    requires |Run(s, before).dev.fifo[p].Contents()| <= Unserved(s, before, p)
    ensures |Run(s, before + [a]).dev.fifo[p].Contents()| <= Unserved(s, before + [a], p)
    ensures Unserved(s, before + [a], p) <= 15 ==>
              Dropped(Run(s, before + [a]).trace.log[p]) <= Dropped(Run(s, before).trace.log[p])
  {
    hide Run, Next, Timers, Dropped, Ring.Contents, Ring.Count, Unserved, Inv, Cycle, Sweeps;
    UnservedSnoc(s, before, a, p);
    RunSnoc(s, before, a);
    PrescaleCycle(s, before);
    CycleNext(Timers(before));
    InitialInv(s);
    RunInv(s, s.dev.parser, before);
    hide Initial;
    var m := Run(s, before);
    AdvanceHasByte(m, s.dev.parser);
    QueueStep(m, a, p, a.Timer? && Sweeps(Timers(before)));
    IndexTests(Run(s, before + [a]).dev.fifo[p]);
  }

  /** A queue that is seen empty at least once in any 15 sweeps drops nothing. */
  lemma {:induction false} ServedDropsNothing(s: System, acts: seq<Action>, p: nat)
    requires Initial(s) && p < PORTS
    requires forall k :: 0 <= k <= |acts| ==> Unserved(s, acts[..k], p) <= 15
    ensures Dropped(Run(s, acts).trace.log[p]) == 0
    decreases |acts|
  {
    if acts == [] {
    } else {
      hide Run, Next, Dropped, Ring.Contents, Ring.Count, Unserved, Initial;
      var before, a := acts[..|acts| - 1], acts[|acts| - 1];
      assert acts == before + [a] && acts[..|acts|] == acts;
      assert forall k :: 0 <= k <= |before| ==> before[..k] == acts[..k];
      ServedDropsNothing(s, before, p);
      UnservedBoundsQueue(s, before, p);
      UnservedStep(s, before, a, p);
    }
  }

  lemma AdvanceHasByte(s: System, boot: seq<Parser>)
    requires Inv(s, boot)
    ensures s.pc.Advance? ==> s.dev.fifo[s.pc.port].Contents() != []
  {
    if s.pc.Advance? {
      assert PortInv(s, boot, s.pc.port);
    }
  }

  /** If every port's queue is emptied at least once in any 15 sweeps, no byte is ever dropped
      and the overflow counter stays zero. */
  lemma NoOverflow(s: System, acts: seq<Action>)
    requires Initial(s)
    requires forall p, k :: 0 <= p < PORTS && 0 <= k <= |acts| ==> Unserved(s, acts[..k], p) <= 15
    ensures var r := Run(s, acts);
            && r.dev.overflows == 0
            && forall p :: 0 <= p < PORTS ==> Dropped(r.trace.log[p]) == 0
  {
    hide Unserved, Run, PortInv, RingInv, Dropped, AllDropped;
    var r := Run(s, acts);
    forall p | 0 <= p < PORTS
      ensures Dropped(r.trace.log[p]) == 0
    {
      ServedDropsNothing(s, acts, p);
    }
    NoneDropped(r.trace.log);
    InitialInv(s);
    RunInv(s, s.dev.parser, acts);
  }
}
