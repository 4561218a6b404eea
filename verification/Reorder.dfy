/** The reorder buffer as it is meant: packets keyed by unbounded sequence numbers. The ring of
    raop_buffer.c refines it. */
module Reorder {
  import opened Bytes
  import opened Options

  datatype Packet = Packet(payload: seq<byte>, rtp: nat, ntp: nat)

  const SLOTS := 32

  /** Numbers from `base` up to `top` are in the window; those in `held` have arrived. `started`
      is the negation of the source's `is_empty`. */
  datatype Window = Window(started: bool, base: int, top: int, held: map<int, Packet>)

  const NEW := Window(false, 0, 0, map[])

  ghost predicate Ok(w: Window) {
    && w.base - 1 <= w.top < w.base + SLOTS
    && (forall n :: n in w.held ==> w.base <= n <= w.top)
    && (!w.started ==> w.held == map[])
    && (w.started && w.base <= w.top ==> w.top in w.held)
  }

  /** A packet arrives: late ones and copies are ignored, one beyond the window empties it. */
  function Put(w: Window, n: int, p: Packet): (r: (Window, bool))
    ensures Ok(w) ==> Ok(r.0)
  {
    if !w.started then (Window(true, n, n, map[n := p]), true)
    else if n < w.base then (w, false)
    else if n >= w.base + SLOTS then (Window(true, n, n, map[n := p]), true)
    else if n in w.held then (w, false)
    else (w.(top := if n > w.top then n else w.top, held := w.held[n := p]), true)
  }

  /** The next packet is taken, waited for, or given up. */
  function Take(w: Window, noResend: bool): (r: (Window, Option<(int, Packet)>))
    ensures Ok(w) ==> Ok(r.0)
    ensures r.1.Some? ==> |r.0.held| < |w.held|
  {
    if !w.started || w.top < w.base then (w, None)
    else if w.base in w.held then (w.(base := w.base + 1, held := w.held - {w.base}), Some((w.base, w.held[w.base])))
    else if !noResend && w.top - w.base + 1 < SLOTS then (w, None)
    else (w.(base := w.base + 1), None)
  }

  /** Everything held is dropped; the buffer starts anew, or goes on at `next`. */
  function Drop(w: Window, next: Option<int>): (r: Window)
    ensures Ok(w) ==> Ok(r)
  {
    match next
    case None => w.(started := false, held := map[])
    case Some(n) => Window(w.started, n, n - 1, map[])
  }

  /** Packets are taken until there is none to take. */
  function Drain(w: Window, noResend: bool): (r: (Window, seq<(int, Packet)>))
    ensures Ok(w) ==> Ok(r.0)
    decreases |w.held|
  {
    var (w', got) := Take(w, noResend);
    if got.None? then (w', [])
    else
      var (w'', rest) := Drain(w', noResend);
      (w'', [got.value] + rest)
  }

  /** One round of draining hands over a gapless run of numbers from the first one on, and stops
      only where the next number is missing or nothing is left. */
  lemma {:induction false} DrainIsGapless(w: Window, noResend: bool)
    requires Ok(w)
    ensures var (w', out) := Drain(w, noResend);
      && (forall i :: 0 <= i < |out| ==> out[i].0 == w.base + i && out[i].0 in w.held && out[i].1 == w.held[out[i].0])
      && w.base + |out| !in w.held
      && (forall n :: n in w'.held <==> n in w.held && n >= w.base + |out|)
      && w.base + |out| <= w'.base <= w.base + |out| + 1
      && (w'.base == w.base + |out| + 1 <==>
            w.started && w.base + |out| <= w.top && (noResend || w.top - (w.base + |out|) + 1 == SLOTS))
    decreases |w.held|
  {
    hide Drain;
    DrainOnce(w, noResend);
    var (w', got) := Take(w, noResend);
    if got.Some? {
      DrainIsGapless(w', noResend);
      hide Take;
      assert w'.held.Keys == w.held.Keys - {w.base};
    }
  }

  lemma DrainOnce(w: Window, noResend: bool)
    ensures var (w', got) := Take(w, noResend);
      Drain(w, noResend) == if got.None? then (w', []) else (Drain(w', noResend).0, [got.value] + Drain(w', noResend).1)
  {
  }

  // ---- What comes out ----

  /** After a flush to a number, a started buffer holds nothing and goes on exactly there: earlier
      numbers are late, and that one is the next to be handed over, as soon as it comes. After a
      flush without a number it is as good as new. */
  lemma FlushGoesOn(w: Window, next: int, n: int, p: Packet, noResend: bool)
    requires Ok(w) && w.started
    ensures Take(Drop(w, Some(next)), noResend) == (Drop(w, Some(next)), None)
    ensures n < next ==> Put(Drop(w, Some(next)), n, p) == (Drop(w, Some(next)), false)
    ensures Put(Drop(w, Some(next)), next, p).1 && Take(Put(Drop(w, Some(next)), next, p).0, noResend).1 == Some((next, p))
    ensures next < n < next + SLOTS ==>
      var w' := Put(Drop(w, Some(next)), n, p).0; w'.base == next && w'.held == map[n := p] && Asks(w', n - next)
    ensures Take(Drop(w, None), noResend).1 == None && Put(Drop(w, None), n, p) == Put(NEW, n, p)
  {
  }

  /** A first packet, or one beyond the window, starts anew: nothing else is held, nothing is asked
      for, and the very next delivery hands it over, whether or not there are resends. */
  lemma FreshStart(w: Window, n: int, p: Packet, noResend: bool)
    requires Ok(w) && (!w.started || n >= w.base + SLOTS)
    ensures Put(w, n, p).1 && Put(w, n, p).0.held == map[n := p]
    ensures forall c: nat :: !Asks(Put(w, n, p).0, c)
    ensures Take(Put(w, n, p).0, noResend).1 == Some((n, p))
    ensures Take(Take(Put(w, n, p).0, noResend).0, noResend).1 == None
  {
  }

  /** Packets that arrive one after the other. */
  function PutAll(w: Window, arrivals: seq<(int, Packet)>): (r: Window)
    ensures Ok(w) ==> Ok(r)
  {
    if |arrivals| == 0 then w
    else
      var (n, p) := arrivals[|arrivals| - 1];
      Put(PutAll(w, arrivals[..|arrivals| - 1]), n, p).0
  }

  ghost predicate Arrived(arrivals: seq<(int, Packet)>, n: int) {
    exists i :: 0 <= i < |arrivals| && arrivals[i].0 == n
  }

  /** Arrivals inside the window are all held, in whatever order and however often they come, and
      nothing that is held goes or changes. */
  lemma {:induction false} WindowFills(w: Window, arrivals: seq<(int, Packet)>)
    requires Ok(w) && w.started && forall i :: 0 <= i < |arrivals| ==> w.base <= arrivals[i].0 < w.base + SLOTS
    ensures var w' := PutAll(w, arrivals);
      && w'.started && w'.base == w.base
      && (forall n :: n in w'.held <==> n in w.held || Arrived(arrivals, n))
      && (forall n :: n in w.held ==> w'.held[n] == w.held[n])
      && (forall n :: n in w'.held && n !in w.held ==> (n, w'.held[n]) in arrivals)
    decreases |arrivals|
  {
    if |arrivals| > 0 {
      var before, last := arrivals[..|arrivals| - 1], arrivals[|arrivals| - 1];
      WindowFills(w, before);
      var v := PutAll(w, before);
      var w' := PutAll(w, arrivals);
      ArrivedSnoc(arrivals);
      hide Ok, Arrived;
      assert w'.held == if last.0 in v.held then v.held else v.held[last.0 := last.1];
      assert forall x :: x in before ==> x in arrivals;
    }
  }

  lemma ArrivedSnoc(arrivals: seq<(int, Packet)>)
    requires |arrivals| > 0
    ensures forall n :: Arrived(arrivals, n) <==> Arrived(arrivals[..|arrivals| - 1], n) || n == arrivals[|arrivals| - 1].0
  {
    var before := arrivals[..|arrivals| - 1];
    forall n ensures Arrived(arrivals, n) <==> Arrived(before, n) || n == arrivals[|arrivals| - 1].0 {
      if Arrived(before, n) {
        var i :| 0 <= i < |before| && before[i].0 == n;
        assert arrivals[i].0 == n;
      }
    }
  }

  /** A packet starts the buffer anew, and the next ones come within the window, in any order and any
      number of times. Then one round of draining hands over the unbroken row from the first one. */
  lemma AnyOrderComesOut(w: Window, n: int, p: Packet, arrivals: seq<(int, Packet)>, count: nat, noResend: bool)
    requires Ok(w) && (!w.started || n >= w.base + SLOTS)
    requires forall i :: 0 <= i < |arrivals| ==> n <= arrivals[i].0 < n + SLOTS
    requires forall m :: n < m < n + count ==> Arrived(arrivals, m)
    ensures var out := Drain(PutAll(Put(w, n, p).0, arrivals), noResend).1;
      && |out| >= count
      && (forall i :: 0 <= i < |out| ==> out[i].0 == n + i && (out[i] == (n, p) || out[i] in arrivals))
      && (count > 0 ==> out[0] == (n, p))
  {
    var w1 := Put(w, n, p).0;
    FreshStart(w, n, p, noResend);
    WindowFills(w1, arrivals);
    var w2 := PutAll(w1, arrivals);
    assert w2.started && w2.base == n && n in w1.held && w1.held[n] == p && Ok(w2);
    hide Drain, PutAll, Put, Ok, Arrived, Asks, Take;
    DrainIsGapless(w2, noResend);
    var out := Drain(w2, noResend).1;
    assert n + |out| !in w2.held;
    assert forall m :: m in w1.held <==> m == n;
  }

  // ---- Runs ----

  datatype Op = Arrive(n: int, p: Packet) | Deliver(noResend: bool) | Flush(next: Option<int>)

  /** A run since the last `flush(-1)`: the numbers taken in, handed over and thrown away. */
  datatype Log = Log(w: Window, taken: seq<(int, Packet)>, out: seq<(int, Packet)>, dropped: nat)

  function Step(log: Log, op: Op): Log {
    match op
    case Arrive(n, p) =>
      var (w', taken) := Put(log.w, n, p);
      Log(w', if taken then log.taken + [(n, p)] else log.taken, log.out,
          log.dropped + if taken && log.w.started && n >= log.w.base + SLOTS then |log.w.held| else 0)
    case Deliver(noResend) =>
      var (w', got) := Take(log.w, noResend);
      Log(w', log.taken, if got.Some? then log.out + [got.value] else log.out, log.dropped)
    case Flush(None) => Log(Drop(log.w, None), [], [], 0)
    case Flush(Some(n)) => Log(Drop(log.w, Some(n)), log.taken, log.out, log.dropped + |log.w.held|)
  }

  function Run(ops: seq<Op>): Log {
    if |ops| == 0 then Log(NEW, [], [], 0) else Step(Run(ops[..|ops| - 1]), ops[|ops| - 1])
  }

  /** Flushes to a given number go beyond everything buffered, as the one the source makes. */
  ghost predicate Forward(ops: seq<Op>) {
    forall i :: 0 <= i < |ops| && ops[i].Flush? && ops[i].next.Some? ==> ops[i].next.value > Run(ops[..i]).w.top
  }

  /** What was handed over: numbers in strictly increasing order, all behind the window, each with
      a packet that was taken in under it. */
  ghost predicate InOrder(base: int, taken: seq<(int, Packet)>, out: seq<(int, Packet)>) {
    && (forall i, j :: 0 <= i < j < |out| ==> out[i].0 < out[j].0)
    && (forall i :: 0 <= i < |out| ==> out[i].0 < base && out[i] in taken)
  }

  /** What was taken in: one packet for each number, held as long as its number is in the window. */
  ghost predicate OneEach(w: Window, taken: seq<(int, Packet)>) {
    && (forall n :: n in w.held ==> (n, w.held[n]) in taken)
    && (forall i :: 0 <= i < |taken| ==> taken[i].0 <= w.top && (taken[i].0 >= w.base ==> taken[i].0 in w.held))
    && (forall i, j :: 0 <= i < j < |taken| ==> taken[i].0 != taken[j].0)
  }

  /** What holds between two restarts. */
  ghost predicate Good(log: Log) {
    && Ok(log.w)
    && (!log.w.started ==> log.taken == [] && log.out == [])
    && InOrder(log.w.base, log.taken, log.out)
    && OneEach(log.w, log.taken)
    && |log.taken| == |log.out| + log.dropped + |log.w.held|
  }

  lemma ArriveKeepsGood(log: Log, n: int, p: Packet)
    requires Good(log)
    ensures Good(Step(log, Arrive(n, p)))
  {
    var (w', taken) := Put(log.w, n, p);
    var log' := Step(log, Arrive(n, p));
    if taken {
      assert w'.held.Keys == if log.w.started && n < log.w.base + SLOTS then log.w.held.Keys + {n} else {n};
      assert log'.taken[|log.taken|] == (n, p);
      assert InOrder(w'.base, log'.taken, log'.out);
      assert OneEach(w', log'.taken);
    }
  }

  lemma DeliverKeepsGood(log: Log, noResend: bool)
    requires Good(log)
    ensures Good(Step(log, Deliver(noResend)))
  {
    var (w', got) := Take(log.w, noResend);
    var log' := Step(log, Deliver(noResend));
    if got.Some? {
      assert w'.held.Keys == log.w.held.Keys - {log.w.base};
      assert (log.w.base, log.w.held[log.w.base]) in log.taken;
    }
  }

  lemma FlushKeepsGood(log: Log, next: Option<int>)
    requires Good(log) && (next.Some? ==> next.value > log.w.top)
    ensures Good(Step(log, Flush(next)))
  {
  }

  /** Every run, through any number of wraps of the 16-bit numbers: since the last restart the
      numbers handed over strictly increase, each with the one packet taken in under its number,
      and nothing is lost: what was taken in was handed over, thrown away, or is held. */
  lemma {:induction false} EveryRunIsGood(ops: seq<Op>)
    requires Forward(ops)
    ensures Good(Run(ops))
    decreases |ops|
  {
    if |ops| > 0 {
      var before, op := ops[..|ops| - 1], ops[|ops| - 1];
      forall i | 0 <= i < |before| && before[i].Flush? && before[i].next.Some?
        ensures before[i].next.value > Run(before[..i]).w.top
      {
        assert before[..i] == ops[..i];
      }
      EveryRunIsGood(before);
      match op {
        case Arrive(n, p) => ArriveKeepsGood(Run(before), n, p);
        case Deliver(noResend) => DeliverKeepsGood(Run(before), noResend);
        case Flush(next) => FlushKeepsGood(Run(before), next);
      }
    }
  }

  /** In a run: the packet that starts the buffer anew is the next one to be handed over. */
  lemma RunStartsAnew(ops: seq<Op>, n: int, p: Packet, noResend: bool)
    requires Forward(ops) && (!Run(ops).w.started || n >= Run(ops).w.base + SLOTS)
    ensures Run(ops + [Arrive(n, p), Deliver(noResend)]).out == Run(ops).out + [(n, p)]
    ensures Run(ops + [Arrive(n, p), Deliver(noResend)]).w.held == map[]
  {
    EveryRunIsGood(ops);
    FreshStart(Run(ops).w, n, p, noResend);
    RunSnoc(ops, Arrive(n, p));
    RunSnoc(ops + [Arrive(n, p)], Deliver(noResend));
    assert ops + [Arrive(n, p)] + [Deliver(noResend)] == ops + [Arrive(n, p), Deliver(noResend)];
    hide Run, Good;
  }

  lemma RunSnoc(ops: seq<Op>, op: Op)
    ensures Run(ops + [op]) == Step(Run(ops), op)
  {
    assert (ops + [op])[..|ops|] == ops;
  }

  // ---- Resend requests ----

  /** The number of leading packets the source asks for, if it asks. */
  ghost predicate Asks(w: Window, count: nat) {
    && w.base < w.top && w.base !in w.held && 1 <= count
    && (forall n :: w.base <= n < w.base + count ==> n !in w.held)
    && (w.base + count == w.top || (w.base + count < w.top && w.base + count in w.held))
  }

  /** On a started buffer a request is made exactly if the first packet is missing and a later one
      is there, and it covers exactly the missing packets before the first one that is there. */
  lemma ResendIsExact(w: Window, count: nat)
    requires Ok(w) && w.started
    ensures Asks(w, count) <==>
      && w.base !in w.held && w.base + count in w.held && 1 <= count
      && forall n :: w.base <= n < w.base + count ==> n !in w.held
    ensures Asks(w, count) ==> count <= SLOTS - 1
    ensures (exists c: nat :: Asks(w, c)) <==> w.base !in w.held && exists n :: n in w.held
  {
    if w.base !in w.held && exists n :: n in w.held {
      var n :| n in w.held;
      var c := FirstHeld(w, w.base + 1);
      assert Asks(w, c - w.base);
    }
  }

  lemma FirstHeld(w: Window, start: int) returns (n: int)
    requires Ok(w) && w.started && w.base <= w.top && start <= w.top
    ensures start <= n <= w.top && n in w.held && forall m :: start <= m < n ==> m !in w.held
    decreases w.top - start
  {
    if start in w.held {
      n := start;
    } else {
      n := FirstHeld(w, start + 1);
    }
  }

  /** On a buffer that is not started, the stale window is asked for instead: the request is made
      exactly if that window has at least two numbers, and it covers all of them but the last. */
  lemma ResendOfStaleWindow(w: Window, count: nat)
    requires Ok(w) && !w.started
    ensures Asks(w, count) <==> w.base < w.top && count == w.top - w.base
  {
  }

  /** Such a window comes about: two packets with a gap between them, and a restart. It is asked for
      although nothing was received since. */
  lemma StaleWindowIsAskedFor(p: Packet) returns (ops: seq<Op>)
    ensures Forward(ops) && Run(ops) == Log(Window(false, 0, 2, map[]), [], [], 0)
    ensures Asks(Run(ops).w, 2)
  {
    ops := [Arrive(0, p), Arrive(2, p), Flush(None)];
    assert ops[..2] == [Arrive(0, p), Arrive(2, p)];
    assert ops[..2][..1] == [Arrive(0, p)] && ops[..2][..1][..0] == [];
    assert Run(ops[..2][..1]).w == Window(true, 0, 0, map[0 := p]);
    assert Run(ops[..2]).w == Window(true, 0, 2, map[0 := p, 2 := p]);
  }
}
