/** The latency phase of test_comm.c (main, lines 57-73): a countdown loop in
    which the sender streams one timestamp per pass to its partner and the
    receiver receives one per pass. The timestamps and the delays computed
    from them are floating point and not modelled; the loop's transfers are. */
module Latency {
  import opened Pairing

  /** One transfer of a single `MPI_DOUBLE` with the partner. */
  datatype Transfer = Send(dest: int) | Recv(source: int)

  /** How many passes `for (count = n; count > 0; count--)` makes. */
  function Passes(n: int): nat
  {
    if n > 0 then n else 0
  }

  /** The transfers a rank with assignment `a` makes in a latency phase of
      `n` iterations: one per pass, a send to the partner on the sender and a
      receive from the partner on the receiver. */
  function LatencyTrace(n: int, a: Assignment): (t: seq<Transfer>)
    ensures |t| == Passes(n)
  {
    seq(Passes(n), _ => if a.role == Sender then Send(a.partner) else Recv(a.partner))
  }

  /** The countdown loop. The result is the sequence of transfers this rank
      performs: exactly `testIterations` of them when that is positive and
      none otherwise, all sends to the partner on the sender and all receives
      from the partner on the receiver. */
  method LatencyPhase(testIterations: int, a: Assignment) returns (trace: seq<Transfer>)
    ensures trace == LatencyTrace(testIterations, a)
    ensures |trace| == Passes(testIterations)
    ensures testIterations <= 0 ==> trace == []
    ensures a.role == Sender ==> forall k :: 0 <= k < |trace| ==> trace[k] == Send(a.partner)
    ensures a.role == Receiver ==> forall k :: 0 <= k < |trace| ==> trace[k] == Recv(a.partner)
  {
    trace := [];
    var count := testIterations;
    while count > 0
      invariant testIterations > 0 ==> 0 <= count <= testIterations && |trace| == testIterations - count
      invariant testIterations <= 0 ==> count == testIterations && trace == []
      invariant a.role == Sender ==> forall k :: 0 <= k < |trace| ==> trace[k] == Send(a.partner)
      invariant a.role == Receiver ==> forall k :: 0 <= k < |trace| ==> trace[k] == Recv(a.partner)
    {
      if a.role == Sender {
        trace := trace + [Send(a.partner)];
      } else {
        trace := trace + [Recv(a.partner)];
      }
      count := count - 1;
    }
    assert forall k :: 0 <= k < |trace| ==> trace[k] == LatencyTrace(testIterations, a)[k];
  }

  /** The number of receives in a trace: the number of delay samples the
      receiver adds to its running total. */
  function Receives(trace: seq<Transfer>): (n: nat)
    ensures n <= |trace|
  {
    if trace == [] then 0
    else Receives(trace[..|trace| - 1]) + (if trace[|trace| - 1].Recv? then 1 else 0)
  }

  /** A trace made only of receives has as many receives as entries. */
  lemma {:induction false} AllReceives(trace: seq<Transfer>)
    requires forall k :: 0 <= k < |trace| ==> trace[k].Recv?
    ensures Receives(trace) == |trace|
  {
    if trace != [] {
      AllReceives(trace[..|trace| - 1]);
    }
  }

  /** A trace made only of sends has no receives. */
  lemma {:induction false} NoReceives(trace: seq<Transfer>)
    requires forall k :: 0 <= k < |trace| ==> trace[k].Send?
    ensures Receives(trace) == 0
  {
    if trace != [] {
      NoReceives(trace[..|trace| - 1]);
    }
  }

  /** The two ranks of a pair agree on the latency phase: for an even rank
      `s`, its partner is the receiver; both make the same number of passes;
      every pass of `s` sends to the partner and every pass of the partner
      receives from `s`; the partner takes one delay sample per pass and `s`
      takes none. */
  lemma PairedTracesMatch(n: int, s: int)
    requires s % 2 == 0
    ensures Assign(s).role == Sender
    ensures Assign(Assign(s).partner).role == Receiver
    ensures |LatencyTrace(n, Assign(s))| == |LatencyTrace(n, Assign(Assign(s).partner))| == Passes(n)
    ensures forall k :: 0 <= k < Passes(n) ==>
      && LatencyTrace(n, Assign(s))[k] == Send(Assign(s).partner)
      && LatencyTrace(n, Assign(Assign(s).partner))[k] == Recv(s)
    ensures Receives(LatencyTrace(n, Assign(Assign(s).partner))) == Passes(n)
    ensures Receives(LatencyTrace(n, Assign(s))) == 0
  {
    SenderIffEven(s);
    PartnersHaveOppositeRoles(s);
    PartnerInvolution(s);
    AllReceives(LatencyTrace(n, Assign(Assign(s).partner)));
    NoReceives(LatencyTrace(n, Assign(s)));
  }
}
