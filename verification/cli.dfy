/**
 * The payload validation of the `add` subcommand: of the flags `-c TEXT`,
 * `-w DIR`, `-e CODE` and `-s`, exactly three combinations name a payload.
 */
module Cli {
  import opened Wrappers
  import opened Events
  import opened EventLog

  /** The payload flags of `add` as parsed from the command line. */
  datatype Flags = Flags(command: Option<string>, workdir: Option<string>, exitCode: Option<u32>, start: bool)

  /** The payload the flags name, or `InvalidParams`: a command needs its
      text and working directory and nothing else, an exit code stands
      alone, and `-s` stands alone. */
  function MakePayload(f: Flags): (r: Result<Payload, Error>)
    ensures r.Ok? <==>
              || (f.command.Some? && f.workdir.Some? && f.exitCode.None? && !f.start)
              || (f.command.None? && f.workdir.None? && f.exitCode.Some? && !f.start)
              || (f.command.None? && f.workdir.None? && f.exitCode.None? && f.start)
    ensures r.Err? ==> r.error == InvalidParams
  {
    match (f.command, f.workdir, f.exitCode, f.start)
    case (Some(text), Some(dir), None, false) => Ok(Command(text, dir))
    case (None, None, Some(code), false) => Ok(ExitCode(code))
    case (None, None, None, true) => Ok(Start)
    case _ => Err(InvalidParams)
  }

  /** The one flag combination that names `p`. */
  function FlagsFor(p: Payload): Flags {
    match p
    case Start => Flags(None, None, None, true)
    case Command(text, dir) => Flags(Some(text), Some(dir), None, false)
    case ExitCode(code) => Flags(None, None, Some(code), false)
  }

  /** Every payload has exactly one flag combination that builds it, and
      the flags are read back from the payload they build. */
  lemma MakePayloadExactlyFlagsFor(f: Flags, p: Payload)
    ensures MakePayload(f) == Ok(p) <==> f == FlagsFor(p)
  {
  }

  /** The `add` subcommand: build one event from the flags and add it, or
      fail with `InvalidParams` and leave the root as it was. */
  function AddFromFlags(st: Store, timestamp: u64, idx: u64, terminal: string, f: Flags,
                        encode: Event -> string): (r: Result<Store, Error>)
    ensures r.Err? <==> MakePayload(f).Err?
    ensures r.Err? ==> r.error == InvalidParams
    ensures r.Ok? ==> r.value == Add(st, [Event(timestamp, idx, terminal, MakePayload(f).value)], encode)
  {
    match MakePayload(f)
    case Err(e) => Err(e)
    case Ok(p) => Ok(Add(st, [Event(timestamp, idx, terminal, p)], encode))
  }
}
