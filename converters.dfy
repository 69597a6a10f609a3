/**
 * The HAR converter: the requests a HAR file yields are rewritten and framed
 * one after another; a malformed `--add-header` spec is caught, reported on
 * the error stream, and ends the run with status 1.
 */
module Har2Ammo {
  import opened Wrappers
  import opened Ammo

  /** What a run leaves: the ammo written, the exit status, the error stream. */
  datatype Run = Run(output: string, status: int, errors: string)

  function RunOf(w: Written): Run {
    match w.error
    case None => Run(w.output, 0, "")
    case Some(e) => Run(w.output, 1, "Error: " + e + "\n")
  }

  /** `har2ammo(args)` minus the reading of the HAR file and the `--stats-only` mode. */
  method Har2Ammo(requests: seq<Message>, opts: Options) returns (run: Run)
    ensures run == RunOf(Convert("", requests, opts))
  {
    var output := "";
    for i := 0 to |requests|
      invariant Convert(output, requests[i..], opts) == Convert("", requests, opts)
    {
      assert requests[i..][0] == requests[i] && requests[i..][1..] == requests[i + 1..];
      var request := new Request(requests[i]);
      if opts.deleteHeader != [] {
        request.DeleteHeaders(opts.deleteHeader);
      }
      if opts.addHeader != [] {
        var error := request.AddHeaders(opts.addHeader);
        if error.Some? {
          return Run(output, 1, "Error: " + error.value + "\n");
        }
      }
      output := output + MakeAmmo(request.origin, "");
    }
    return Run(output, 0, "");
  }

  /**
   * The run fails exactly when there is a request and a malformed spec; it
   * then has written nothing and reports the format message. Otherwise its
   * ammo reads back as the rewritten requests, in order.
   */
  lemma Har2AmmoOutcome(requests: seq<Message>, opts: Options)
    ensures var run := RunOf(Convert("", requests, opts));
      (run.status == 1 <==> requests != [] && Malformed(opts.addHeader)) &&
      (run.status == 1 ==> run.output == "" && run.errors == "Error: " + WrongHeaderFormat + "\n") &&
      (run.status != 1 ==> (run.status == 0 && run.errors == "" &&
        ReadAll(run.output) == Some(Unmarked(Prepared(requests, opts)))))
  {
    if requests != [] && Malformed(opts.addHeader) {
      ConvertFails("", requests, opts);
    } else if requests == [] {
      assert Prepared(requests, opts) == [];
    } else {
      ConvertRoundTrip(requests, opts);
    }
  }
}

/**
 * The pcap converter: the same loop as the HAR converter, but nothing
 * catches the error a malformed spec raises, and a finished run returns 0.
 */
module Pcap2Ammo {
  import opened Wrappers
  import opened Ammo

  /** A run either returns its status, or ends with the error it raised, after writing `output`. */
  datatype Exit = Finished(output: string, status: int) | Raised(output: string, error: string)

  function ExitOf(w: Written): Exit {
    match w.error
    case None => Finished(w.output, 0)
    case Some(e) => Raised(w.output, e)
  }

  /** `pcap2ammo(args)` minus the reading of the capture and the `--stats-only` mode. */
  method Pcap2Ammo(requests: seq<Message>, opts: Options) returns (exit: Exit)
    ensures exit == ExitOf(Convert("", requests, opts))
  {
    var output := "";
    for i := 0 to |requests|
      invariant Convert(output, requests[i..], opts) == Convert("", requests, opts)
    {
      assert requests[i..][0] == requests[i] && requests[i..][1..] == requests[i + 1..];
      var request := new Request(requests[i]);
      if opts.deleteHeader != [] {
        request.DeleteHeaders(opts.deleteHeader);
      }
      if opts.addHeader != [] {
        var error := request.AddHeaders(opts.addHeader);
        if error.Some? {
          return Raised(output, error.value);
        }
      }
      output := output + MakeAmmo(request.origin, "");
    }
    return Finished(output, 0);
  }

  /**
   * The run raises exactly when there is a request and a malformed spec,
   * before writing anything; otherwise it returns 0 and its ammo reads back
   * as the rewritten requests, in order.
   */
  lemma Pcap2AmmoOutcome(requests: seq<Message>, opts: Options)
    ensures var exit := ExitOf(Convert("", requests, opts));
      (exit.Raised? <==> requests != [] && Malformed(opts.addHeader)) &&
      (exit.Raised? ==> exit.output == "" && exit.error == WrongHeaderFormat) &&
      (exit.Finished? ==> (exit.status == 0 &&
        ReadAll(exit.output) == Some(Unmarked(Prepared(requests, opts)))))
  {
    if requests != [] && Malformed(opts.addHeader) {
      ConvertFails("", requests, opts);
    } else if requests == [] {
      assert Prepared(requests, opts) == [];
    } else {
      ConvertRoundTrip(requests, opts);
    }
  }
}
