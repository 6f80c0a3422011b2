/** The argument check of test_comm.c (parse_cli_args, lines 8-18). */
module Cli {

  /** What parse_cli_args does: either the process exits with a status,
      having printed the usage line or not, or the iteration count is read. */
  datatype CliResult =
    | UsageExit(status: int, usagePrinted: bool)
    | Iterations(count: int)

  /** `argv` is the whole argument vector, so `argc` is `|argv|`; `atoi`
      stands for the C library conversion, which is not modelled. */
  function ParseCliArgs(argv: seq<string>, myid: int, atoi: string -> int): (r: CliResult)
    ensures r.UsageExit? <==> |argv| != 2
    ensures r.UsageExit? ==> r.status == 1
    ensures r.UsageExit? ==> (r.usagePrinted <==> myid == 0)
    ensures r.Iterations? ==> r.count == atoi(argv[1])
  {
    if |argv| != 2 then UsageExit(1, myid == 0)
    else Iterations(atoi(argv[1]))
  }

  /** Every rank reaches the same decision: whether the run goes on and with
      which iteration count does not depend on the rank; only whether the
      usage line is printed does. */
  lemma AllRanksAgree(argv: seq<string>, atoi: string -> int, a: int, b: int)
    ensures ParseCliArgs(argv, a, atoi).UsageExit? == ParseCliArgs(argv, b, atoi).UsageExit?
    ensures ParseCliArgs(argv, a, atoi).Iterations? ==> ParseCliArgs(argv, a, atoi) == ParseCliArgs(argv, b, atoi)
  {
  }

  /** The usage line is printed by exactly one rank of a group: rank 0. */
  lemma UsagePrintedOnce(argv: seq<string>, atoi: string -> int, sz: int)
    requires |argv| != 2 && sz >= 1
    ensures (set id | 0 <= id < sz && ParseCliArgs(argv, id, atoi).usagePrinted) == {0}
  {
    var printers := set id | 0 <= id < sz && ParseCliArgs(argv, id, atoi).usagePrinted;
    assert 0 in printers;
    forall id | id in printers ensures id == 0 { }
  }
}
