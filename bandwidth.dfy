/** The bandwidth sweep of test_comm.c (main, lines 89-150). For each entry
    of a fixed table of packet sizes the ranks run a timed loop: the sender
    sends one packet per pass, the receiver receives one, adds its size to
    `bytes_transferred` and asserts that the received count is the packet
    size; both roles increment `iter` once per pass. The two counters are set
    to zero once, before the sweep, and are never reset between entries.

    The wall clock that ends each timed loop is abstracted away: the input
    `counts` has one sequence per table entry, with one element per pass of
    that entry's timed loop, namely the count `MPI_Get_count` reports for
    that pass on the receiver (the sender ignores the values). So
    `|counts[i]|` is the number of passes of entry `i`. */
module Bandwidth {
  import opened CSemantics
  import opened Pairing

  /** The table `packet_sizes`, in bytes. */
  const PacketSizes: seq<int> := [1, 1000, 1000000, 1000000000]

  /** The largest packet of the table. */
  const MaxPacketSize: int := 1000000000

  /** The counters the receiver prints after each entry: `iter` and
      `bytes_transferred` as they stand at that point (the elapsed time and
      the rates derived from it are not modelled). `packetSize` is not
      printed there; it only labels the entry the report belongs to. */
  datatype Report = Report(packetSize: int, iterations: int, bytesTransferred: nat)

  /** How the sweep ends: after all four entries, or on the failed
      `assert(len == packet_sizes[i])` in pass `pass` of entry `entry`. */
  datatype SweepOutcome = Completed | CountMismatch(entry: nat, pass: nat, received: int)

  /** The state the sweep leaves behind: how it ended, the packet sizes whose
      entries were started, in order, the receiver's reports and the final
      values of the two counters. */
  datatype SweepResult = SweepResult(
    outcome: SweepOutcome,
    visited: seq<int>,
    reports: seq<Report>,
    bytesTransferred: nat,
    iter: int)

  /** Passes made by entries `0 .. n-1` together. */
  function PassesBefore(counts: seq<seq<int>>, n: nat): nat
    requires n <= |counts|
  {
    if n == 0 then 0 else PassesBefore(counts, n - 1) + |counts[n - 1]|
  }

  /** Bytes received by entries `0 .. n-1` together: `Σ |counts[i]| * PacketSizes[i]`. */
  function BytesBefore(counts: seq<seq<int>>, n: nat): nat
    requires n <= |counts| && n <= |PacketSizes|
  {
    if n == 0 then 0 else BytesBefore(counts, n - 1) + |counts[n - 1]| * PacketSizes[n - 1]
  }

  /** Every count received in entry `i` equals that entry's packet size. */
  predicate EntryMatches(counts: seq<seq<int>>, i: nat)
    requires i < |counts| && i < |PacketSizes|
  {
    forall j :: 0 <= j < |counts[i]| ==> counts[i][j] == PacketSizes[i]
  }

  /** Every count received in entries `0 .. n-1` equals the packet size. */
  predicate MatchesBefore(counts: seq<seq<int>>, n: nat)
    requires n <= |counts| && n <= |PacketSizes|
  {
    forall i :: 0 <= i < n ==> EntryMatches(counts, i)
  }

  /** The reports of the receiver after entries `0 .. n-1`: cumulative
      counters, not per-entry ones. */
  function ReportsBefore(counts: seq<seq<int>>, n: nat): (rs: seq<Report>)
    requires n <= |counts| && n <= |PacketSizes|
    ensures |rs| == n
  {
    if n == 0 then []
    else
      ReportsBefore(counts, n - 1)
      + [Report(PacketSizes[n - 1], PassesBefore(counts, n), BytesBefore(counts, n))]
  }

  /** The reports of the receiver name the table entries in order, each with
      the counters accumulated over that entry and all earlier ones. */
  lemma {:induction false} ReportsAreCumulative(counts: seq<seq<int>>, n: nat, i: nat)
    requires n <= |counts| && n <= |PacketSizes| && i < n
    ensures ReportsBefore(counts, n)[i]
         == Report(PacketSizes[i], PassesBefore(counts, i + 1), BytesBefore(counts, i + 1))
  {
    if i < n - 1 {
      ReportsAreCumulative(counts, n - 1, i);
    }
  }

  /** A report gives the passes of its own entry alone only when every earlier
      entry made no pass: the counters are not reset between entries. */
  lemma NotResetBetweenEntries(counts: seq<seq<int>>, i: nat)
    requires |counts| == |PacketSizes| && i < |counts|
    ensures ReportsBefore(counts, |counts|)[i].iterations == |counts[i]| <==> PassesBefore(counts, i) == 0
    ensures ReportsBefore(counts, |counts|)[i].bytesTransferred == |counts[i]| * PacketSizes[i]
            <==> BytesBefore(counts, i) == 0
  {
    ReportsAreCumulative(counts, |counts|, i);
  }

  /** The table is visited in strictly increasing order of packet size and
      its largest entry is `MaxPacketSize`. */
  lemma TableIsIncreasing()
    ensures forall i, j :: 0 <= i < j < |PacketSizes| ==> PacketSizes[i] < PacketSizes[j]
    ensures forall i :: 0 <= i < |PacketSizes| ==> 1 <= PacketSizes[i] <= MaxPacketSize <= INT_MAX
    ensures PacketSizes[|PacketSizes| - 1] == MaxPacketSize
  {
  }

  /** Counting passes entry by entry never decreases. */
  lemma {:induction false} PassesMonotone(counts: seq<seq<int>>, m: nat, n: nat)
    requires m <= n <= |counts|
    ensures PassesBefore(counts, m) <= PassesBefore(counts, n)
  {
    if m < n {
      PassesMonotone(counts, m, n - 1);
    }
  }

  /** Each pass adds at most `MaxPacketSize` bytes. */
  lemma {:induction false} BytesBounded(counts: seq<seq<int>>, n: nat)
    requires n <= |counts| && n <= |PacketSizes|
    ensures BytesBefore(counts, n) <= PassesBefore(counts, n) * MaxPacketSize
  {
    if n > 0 {
      BytesBounded(counts, n - 1);
      var k := |counts[n - 1]|;
      assert PacketSizes[n - 1] <= MaxPacketSize;
      assert k * PacketSizes[n - 1] <= k * MaxPacketSize;
      assert PassesBefore(counts, n) * MaxPacketSize
          == PassesBefore(counts, n - 1) * MaxPacketSize + k * MaxPacketSize;
    }
  }

  /** As long as `iter` does not overflow a C `int`, `bytes_transferred`
      cannot wrap around: at most 2^31 - 1 packets of at most 10^9 bytes fit
      in 64 bits. */
  lemma NoByteCounterWrap(counts: seq<seq<int>>, n: nat)
    requires n <= |counts| && n <= |PacketSizes|
    requires PassesBefore(counts, n) <= INT_MAX
    ensures BytesBefore(counts, n) + MaxPacketSize < ULLONG_MOD
  {
    BytesBounded(counts, n);
    assert PassesBefore(counts, n) * MaxPacketSize <= INT_MAX * MaxPacketSize;
  }

  /** The sweep. The clock is replaced by `counts` (see the module comment);
      the transfers themselves are not modelled.

      The result says, in the source's terms: the entries are started in
      table order; the sender always finishes the sweep with `iter` equal to
      the total number of passes and `bytes_transferred` still zero; the
      receiver finishes exactly when every received count equals its packet
      size, with `iter` the total number of passes and `bytes_transferred`
      the sum over the entries of passes times packet size; otherwise it stops
      at the first mismatching pass, having already added that packet's size
      but not yet incremented `iter`, and without the report of that entry. */
  method BandwidthSweep(role: Role, counts: seq<seq<int>>) returns (r: SweepResult)
    requires |counts| == |PacketSizes|
    requires PassesBefore(counts, |counts|) <= INT_MAX
    ensures r.outcome.Completed? <==> role == Sender || MatchesBefore(counts, |counts|)
    ensures r.outcome.Completed? ==>
      && r.visited == PacketSizes
      && r.iter == PassesBefore(counts, |counts|)
      && r.bytesTransferred == (if role == Receiver then BytesBefore(counts, |counts|) else 0)
      && r.reports == (if role == Receiver then ReportsBefore(counts, |counts|) else [])
    ensures r.outcome.CountMismatch? ==>
      var e, p := r.outcome.entry, r.outcome.pass;
      && role == Receiver
      && e < |counts| && p < |counts[e]|
      && r.outcome.received == counts[e][p] != PacketSizes[e]
      && MatchesBefore(counts, e)
      && (forall q :: 0 <= q < p ==> counts[e][q] == PacketSizes[e])
      && r.visited == PacketSizes[..e + 1]
      && r.iter == PassesBefore(counts, e) + p
      && r.bytesTransferred == BytesBefore(counts, e) + (p + 1) * PacketSizes[e]
      && r.reports == ReportsBefore(counts, e)
  {
    var bytesTransferred: nat := 0;
    var iter: int := 0;
    var visited: seq<int> := [];
    var reports: seq<Report> := [];
    for i := 0 to 4
      invariant visited == PacketSizes[..i]
      invariant iter == PassesBefore(counts, i)
      invariant bytesTransferred == (if role == Receiver then BytesBefore(counts, i) else 0)
      invariant reports == (if role == Receiver then ReportsBefore(counts, i) else [])
      invariant role == Receiver ==> MatchesBefore(counts, i)
    {
      PassesMonotone(counts, i + 1, |counts|);
      NoByteCounterWrap(counts, i + 1);
      visited := visited + [PacketSizes[i]];
      var pass := 0;
      while pass < |counts[i]|
        invariant 0 <= pass <= |counts[i]|
        invariant iter == PassesBefore(counts, i) + pass
        invariant bytesTransferred
               == (if role == Receiver then BytesBefore(counts, i) + pass * PacketSizes[i] else 0)
        invariant role == Receiver ==> forall q :: 0 <= q < pass ==> counts[i][q] == PacketSizes[i]
      {
        if role == Receiver {
          assert bytesTransferred + PacketSizes[i] <= BytesBefore(counts, i + 1);
          bytesTransferred := AddULL(bytesTransferred, PacketSizes[i]);
          var len := counts[i][pass];
          if len != PacketSizes[i] {
            assert !EntryMatches(counts, i);
            return SweepResult(CountMismatch(i, pass, len), visited, reports, bytesTransferred, iter);
          }
        }
        iter := iter + 1;
        pass := pass + 1;
      }
      if role == Receiver {
        reports := reports + [Report(PacketSizes[i], iter, bytesTransferred)];
      }
    }
    r := SweepResult(Completed, visited, reports, bytesTransferred, iter);
  }
}
