/** One rank's run of the benchmark: `main` of test_comm.c with the MPI
    calls, the clock, the floating-point statistics and the console output
    taken out. The group size and the rank are what `MPI_Comm_size` and
    `MPI_Comm_rank` return; `atoi` and the per-entry pass counts of the
    bandwidth sweep are inputs. */
module TestComm {
  import opened CSemantics
  import opened Pairing
  import opened Cli
  import opened Latency
  import opened Bandwidth

  /** How the process ends: `exit(status)` / `return status`, or the abort
      raised by a failed C `assert`. */
  datatype Termination = Exited(status: int) | AssertionAbort

  /** What one rank did: how it ended, whether it printed the usage line,
      the pairing it computed, the transfers of the latency phase and the
      outcome of the bandwidth sweep, for the phases it reached. */
  datatype RunResult = RunResult(
    termination: Termination,
    usagePrinted: bool,
    assignment: Option<Assignment>,
    latency: seq<Transfer>,
    sweep: Option<SweepResult>)

  /** `main`: the argument check, then the group-size assertion and the
      pairing, then the latency phase, then the bandwidth sweep.
      - A wrong argument count ends the run with status 1 before anything
        else, and only rank 0 prints the usage line.
      - An odd group size aborts every rank before any phase runs.
      - Otherwise the rank is paired with a distinct member of the group, the
        latency phase makes exactly `max(N, 0)` transfers and the receiver
        makes that many receives; the run returns 0 exactly when the sweep
        completes, which on the receiver is exactly when every received
        count matched, and aborts otherwise. */
  method Run(argv: seq<string>, atoi: string -> int, sz: int, myid: int, counts: seq<seq<int>>)
    returns (r: RunResult)
    requires 1 <= sz && 0 <= myid < sz
    requires |counts| == |PacketSizes| && PassesBefore(counts, |counts|) <= INT_MAX
    ensures |argv| != 2 ==> r == RunResult(Exited(1), myid == 0, None, [], None)
    ensures |argv| == 2 && !EvenGroup(sz) ==> r == RunResult(AssertionAbort, false, None, [], None)
    ensures |argv| == 2 && EvenGroup(sz) ==>
      var n := atoi(argv[1]);
      && !r.usagePrinted
      && r.assignment == Some(Assign(myid))
      && 0 <= Assign(myid).partner < sz && Assign(myid).partner != myid
      && r.latency == LatencyTrace(n, Assign(myid))
      && |r.latency| == Passes(n)
      && (Assign(myid).role == Sender ==> forall k :: 0 <= k < |r.latency| ==> r.latency[k] == Send(Assign(myid).partner))
      && (Assign(myid).role == Receiver ==> forall k :: 0 <= k < |r.latency| ==> r.latency[k] == Recv(Assign(myid).partner))
      && (Assign(myid).role == Receiver ==> Receives(r.latency) == Passes(n))
      && (Assign(myid).role == Sender ==> Receives(r.latency) == 0)
      && r.sweep.Some?
      && (r.termination == Exited(0) <==> r.sweep.value.outcome.Completed?)
      && (r.termination == AssertionAbort <==> r.sweep.value.outcome.CountMismatch?)
      && (r.termination == Exited(0) <==> Assign(myid).role == Sender || MatchesBefore(counts, |counts|))
      && (r.termination == Exited(0) ==>
            && r.sweep.value.visited == PacketSizes
            && r.sweep.value.iter == PassesBefore(counts, |counts|))
      && (Assign(myid).role == Sender ==>
            && r.sweep.value.bytesTransferred == 0
            && r.sweep.value.reports == [])
      && (Assign(myid).role == Receiver && r.termination == Exited(0) ==>
            && r.sweep.value.bytesTransferred == BytesBefore(counts, |counts|)
            && r.sweep.value.reports == ReportsBefore(counts, |counts|))
      && (r.termination == AssertionAbort ==>
            var e, p := r.sweep.value.outcome.entry, r.sweep.value.outcome.pass;
            && Assign(myid).role == Receiver
            && e < |counts| && p < |counts[e]| && counts[e][p] != PacketSizes[e]
            && MatchesBefore(counts, e)
            && (forall q :: 0 <= q < p ==> counts[e][q] == PacketSizes[e])
            && r.sweep.value.visited == PacketSizes[..e + 1]
            && r.sweep.value.iter == PassesBefore(counts, e) + p
            && r.sweep.value.bytesTransferred == BytesBefore(counts, e) + (p + 1) * PacketSizes[e]
            && r.sweep.value.reports == ReportsBefore(counts, e))
  {
    var cli := ParseCliArgs(argv, myid, atoi);
    if cli.UsageExit? {
      return RunResult(Exited(cli.status), cli.usagePrinted, None, [], None);
    }
    var setup := Setup(sz, myid);
    if setup.None? {
      return RunResult(AssertionAbort, false, None, [], None);
    }
    var a := setup.value;
    var latency := LatencyPhase(cli.count, a);
    if a.role == Receiver {
      AllReceives(latency);
    } else {
      NoReceives(latency);
    }
    var sweep := BandwidthSweep(a.role, counts);
    var termination := if sweep.outcome.Completed? then Exited(0) else AssertionAbort;
    r := RunResult(termination, false, setup, latency, Some(sweep));
  }
}
