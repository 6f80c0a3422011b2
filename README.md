# test_comm: a Dafny model of an MPI point-to-point benchmark

`test_comm.c` is a small MPI benchmark. Ranks are paired into neighbours:
even ranks send and odd ranks receive. Each pair then runs two phases:

- a latency phase: the sender streams `N` timestamps to its partner, and the
  receiver takes them in;
- a bandwidth phase: a sweep over the packet sizes 1, 1000, 10^6 and 10^9
  bytes. For each size, the sender sends packets until a 10-second timer
  expires. The receiver counts the bytes and passes, and asserts that each
  received count equals the packet size.

The model covers the bookkeeping of one rank in that program:

- the command-line check;
- the group-size assertion and the pairing rule;
- the countdown loop of the latency phase;
- the counters of the bandwidth sweep.

The wall clock is replaced by an input. For each sweep entry it gives one
element per pass of the timed loop: the count that `MPI_Get_count` reports
for that pass. The number of elements is that entry's pass count. `atoi` is
an input function. The group size and the rank are inputs that meet
the guarantees of `MPI_Comm_size` and `MPI_Comm_rank`.

Modules, one per part of `main`:

- `CSemantics` (c_semantics.dfy): C's truncating `%`, `INT_MAX`, and
  `unsigned long long` addition modulo 2^64.
- `Pairing` (pairing.dfy): the `assert(sz % 2 == 0)`, partner and role.
- `Cli` (cli.dfy): `parse_cli_args`.
- `Latency` (latency.dfy): the latency countdown loop, as a method producing
  the trace of transfers.
- `Bandwidth` (bandwidth.dfy): the sweep, as a method with nested loops over
  `iter` and `bytes_transferred`, proved against the functions
  `PassesBefore`, `BytesBefore` and `ReportsBefore`.
- `TestComm` (test_comm.dfy): `main`, composing all of the above.

Two behaviours of the code that the model keeps:

- `iter` and `bytes_transferred` are set to zero once, at lines 90-91, and
  never reset. So each report after the first also counts all earlier
  entries (`ReportsBefore`, `NotResetBetweenEntries`).
- A non-positive iteration count is not rejected. The latency loop then
  makes no pass (`LatencyPhase`).

## Model

| member | source | states |
|---|---|---|
| CSemantics.CRem | test_comm.c:39-40 | C's `%`: its magnitude is the remainder of the magnitudes, and it never has the opposite sign of the dividend |
| CSemantics.AddULL | test_comm.c:128 | `bytes_transferred += size` on an `unsigned long long`: the exact sum when it fits in 64 bits, otherwise the sum less 2^64 |
| Pairing.Setup | test_comm.c:39-46 | the process aborts exactly when the group size is odd; otherwise it gets the pairing `Assign(myid)`, whose partner lies in the group and differs from itself |
| Pairing.Assign | test_comm.c:40-46 | the pairing rule itself: the partner is an adjacent rank, `myid+1` exactly for the sender and `myid-1` for the receiver, and the sender is exactly the even rank (by C's `%`); its other properties are the lemmas below |
| Pairing.PartnerInRange | test_comm.c:39-46 | in an even group, every rank's partner is in `[0, sz)` and is not the rank itself |
| Pairing.SenderIffEven | test_comm.c:40-46 | a rank is the sender iff its identity is even, and the receiver iff it is odd |
| Pairing.PartnerInvolution | test_comm.c:40-46 | the partner of a rank's partner is the rank itself |
| Pairing.PartnersHaveOppositeRoles | test_comm.c:40-46 | within each pair, exactly one rank is the sender |
| Pairing.HalfOfGroupSends | test_comm.c:39-46 | in an even group, exactly `sz/2` ranks send and `sz/2` receive |
| Pairing.GrowByPair | test_comm.c:40-46 | extending a group by the pair `n, n+1` adds `n` to the senders and `n+1` to the receivers, neither already there |
| Pairing.PerfectMatching | test_comm.c:39-46 | in an even group, the pairing is a perfect matching: senders and receivers partition the group, each sender's partner is a receiver and vice versa, and the senders' partners are exactly the receivers |
| Cli.ParseCliArgs | test_comm.c:8-18 | exits with status 1 iff `argc != 2`, printing the usage line iff the rank is 0; otherwise the iteration count is `atoi(argv[1])` |
| Cli.AllRanksAgree | test_comm.c:8-18 | whether the run goes on, and with which count, is the same on every rank |
| Cli.UsagePrintedOnce | test_comm.c:10-15 | on a wrong argument count, exactly one rank of the group prints the usage line, and it is rank 0 |
| Latency.LatencyPhase | test_comm.c:57-73 | the transfers equal `LatencyTrace(N, a)`, so the countdown loop makes exactly `N` transfers when `N > 0` and none otherwise: all sends to the partner on the sender, all receives from the partner on the receiver |
| Latency.AllReceives | test_comm.c:66-69 | a trace of receives only has as many delay samples as entries |
| Latency.NoReceives | test_comm.c:60-62 | a trace of sends only has no delay samples |
| Latency.PairedTracesMatch | test_comm.c:40-73 | for an even rank `s`, its partner is the receiver; both make `max(N,0)` passes; each pass of `s` sends to the partner and each pass of the partner receives from `s`; the partner takes `max(N,0)` delay samples and `s` takes none |
| Bandwidth.TableIsIncreasing | test_comm.c:99 | the packet sizes are visited in strictly increasing order, all between 1 and 10^9, the last is 10^9, and all fit a C `int` |
| Bandwidth.ReportsAreCumulative | test_comm.c:140-147 | the `iter` and `bytes_transferred` the receiver prints after entry `i` are summed over entries `0..i`; the report is labelled with entry `i`'s packet size, which is not itself printed there |
| Bandwidth.NotResetBetweenEntries | test_comm.c:90-142 | a report gives only its own entry's passes (or bytes) iff no earlier entry made any pass (or moved any byte): the counters are not reset per entry |
| Bandwidth.PassesMonotone | test_comm.c:137 | the cumulative pass count never decreases from one entry to the next |
| Bandwidth.BytesBounded | test_comm.c:128 | the bytes counted are at most the passes times the largest packet size |
| Bandwidth.NoByteCounterWrap | test_comm.c:90-91 | while `iter` stays within a C `int`, `bytes_transferred` cannot wrap around 2^64 |
| Bandwidth.BandwidthSweep | test_comm.c:89-150 | entries are started in table order. The sender finishes with `iter` equal to the sum of the passes and bytes zero. The receiver finishes iff every received count equals its packet size, with `iter = Σ k_i` and `bytes_transferred = Σ k_i·size_i`. Otherwise it stops at the first mismatching pass, with that packet's bytes added but `iter` not yet incremented, and no report for that entry |
| TestComm.Run | test_comm.c:20-158 | a wrong argument count exits 1 before anything else. An odd group aborts before any phase. Otherwise the rank is paired in the group, and its latency transfers are `max(N,0)` sends to the partner or receives from it (the receiver takes `max(N,0)` samples). It returns 0 iff the sweep completes; then all four entries were visited, `iter = Σ k_i`, and on the receiver `bytes_transferred = Σ k_i·size_i` with the cumulative reports, while the sender's byte count stays 0. It aborts exactly on the receiver's first count mismatch (all earlier entries and passes matched), having visited the table up to that entry, with the counters as they stood there |

## Left out

- MPI itself: `MPI_Init`, `MPI_Comm_size`/`MPI_Comm_rank` (their results are inputs), `MPI_Send`, `MPI_Recv`, `MPI_Barrier`, `MPI_Get_count` (its results are inputs), `MPI_Error_string` and `MPI_Finalize`. These are a foreign transport, and running the ranks concurrently is not modelled.
- The wall clock: `MPI_Wtime`, the `endtime < starttime` check (lines 112-118) and the 10-second condition of the timed loop (line 120). They use floating-point time. They are replaced by the given pass count of each sweep entry.
- The latency arithmetic (lines 61, 67-70 and 75-79): the timestamps sent, the delays and `totaltime`, and the average. These are floating point. Note too that the average at line 76 divides `total_time`, which is never initialised or accumulated; the loop accumulates `totaltime`, which is also never initialised.
- The two 10^10-byte `malloc` calls and their `free` calls (lines 85-86 and 152-153). No buffer contents are modelled, and an allocation failure is not detected by the code.
- All `printf`/`fprintf` text. The model keeps only whether the usage line is printed, and the numbers in the receiver's per-entry reports.
- `atoi`: it is an input function. Its parsing is not modelled.
- Bandwidth.BandwidthSweep: requires the total pass count to be at most `INT_MAX`, because incrementing `iter` past that is undefined behaviour in C. The model does not wrap `iter` around.
- TestComm.Run: requires the same bound, and requires `0 <= myid < sz`, which `MPI_Comm_rank` guarantees. It does not state the latency phase's floating-point total.
- The model assumes C assertions are enabled. Built with `-DNDEBUG`, the aborts at lines 39 and 134 do not happen; the model does not describe that build.
- `counts` values above the packet size cannot occur in a real run: MPI reports a longer incoming message as a truncation error inside `MPI_Recv`, before line 128, so such a run never reaches the assertion. The model accepts such values and treats them like any other mismatch.
