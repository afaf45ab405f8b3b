/** `Client.run` before option parsing: the empty and help dispatch, the
    line-break preprocessing loop, and the message printed for a failure. */
module Client {
  import opened PyValues
  import opened Utils

  /** What `run` does with its argument list before option parsing. */
  datatype RunOutcome =
    | Exit(code: int, output: string)                   // printed, then `sys.exit(code)`
    | Returned(value: string)                           // `run` returns this value
    | HandOff(command: string, rest: seq<Option<string>>) // name kept, the rest goes to the parser

  const HelpFlags: set<string> := {"-h", "--help"}

  /** One argument after the command name: empty becomes None, anything else is
      unescaped. */
  function Normalised(arg: string): Option<string> {
    if arg == "" then None else ProcessLineBreaks(Some(arg))
  }

  /** `Client.run` up to `_parse_args`. */
  method Run(args: seq<string>) returns (out: RunOutcome)
    ensures args == [] ==> out == Exit(1, "Error: Command not recognized")
    ensures args != [] && args[0] in HelpFlags ==> out == Returned("")
    ensures args != [] && args[0] !in HelpFlags ==>
      out.HandOff? && out.command == args[0] && |out.rest| == |args| - 1
    ensures out.HandOff? ==> forall i :: 0 <= i < |out.rest| ==>
      && out.rest[i] == Normalised(args[i + 1])
      && (out.rest[i].None? <==> args[i + 1] == "")
      && (out.rest[i].Some? ==> !HasEscapedNewline(out.rest[i].value))
  {
    if args == [] {
      return Exit(1, "Error: Command not recognized");
    }
    var command := args[0];
    if command in HelpFlags {
      return Returned("");
    }
    var processed: seq<Option<string>> := [Some(args[0])];
    for i := 1 to |args|
      invariant |processed| == i
      invariant processed[0] == Some(args[0])
      invariant forall k :: 1 <= k < i ==> processed[k] == Normalised(args[k])
    {
      processed := processed + [if args[i] != "" then ProcessLineBreaks(Some(args[i])) else None];
    }
    out := HandOff(command, processed[1..]);
  }

  /** An exception as the handler in `run` sees it: `str(e)` and `e.__cause__`. */
  datatype Exception = Exception(text: string, cause: Option<Exception>)

  /** The message the handler prints, exactly as written: the conditional
      expression binds looser than `or`, so without a cause the message is always
      "Unknown error". */
  function ErrorMessageAsWritten(e: Exception): string {
    if e.cause.Some? then (if e.text != "" then e.text else e.cause.value.text) else "Unknown error"
  }

  /** The message evidently intended: the exception's own text first, then its
      cause's, then "Unknown error". */
  function ErrorMessage(e: Exception): (m: string)
    ensures e.text != "" ==> m == e.text
    ensures e.text == "" && e.cause.Some? ==> m == e.cause.value.text
    ensures e.text == "" && e.cause.None? ==> m == "Unknown error"
  {
    if e.text != "" then e.text
    else if e.cause.Some? then e.cause.value.text
    else "Unknown error"
  }

  /** Every exception raised in the handled block carries no cause (the executor
      and the factory raise without `from`), so as written its text is never shown,
      whereas the intended message shows it. */
  lemma AsWrittenHidesMessage(text: string)
    requires text != ""
    ensures ErrorMessageAsWritten(Exception(text, None)) == "Unknown error"
    ensures ErrorMessage(Exception(text, None)) == text
  {
  }

  /** The two readings agree whenever the exception has a cause. */
  lemma ReadingsAgreeWithCause(e: Exception)
    requires e.cause.Some?
    ensures ErrorMessageAsWritten(e) == ErrorMessage(e)
  {
  }
}
