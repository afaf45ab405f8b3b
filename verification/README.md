# casbin-python-cli: command dispatch, response envelope and input handling

A Dafny model of the logic of the `casbin` command line front end, the part that
sits between the shell and the policy engine:

- `CommandExecutor.execute` looks the command name up on the enforcer and calls it
  with the arguments as given. It folds the result into a two-field response
  (bool, then list, then an object with `allow` and `explain`, then anything else).
  It calls `save_policy` after one of the five mutating commands. Every failure
  becomes one error that names the command.
- `ResponseBody` is the two-field record. Its `to_dict` always has the keys
  `allow` and `explain`.
- `EnforcerFactory` decides, for the `-m` and `-p` inputs, whether to refuse them,
  use an existing file, or write the inline text to a temporary file with every
  `|` turned into a newline. It also holds the two format checks.
- `process_line_breaks` turns the two characters backslash and `n` into a newline.
- `Client.run` handles the empty argument list and `-h`/`--help`, and runs the
  loop that prepares arguments for the option parser. The message printed for a
  failure is modelled too.

The policy engine is abstract. `CommandExecution.Enforcer` holds a finite map from
attribute name to the operation's behaviour (a function from the argument list to
a returned value or a raised message). It also holds whether `save_policy` raises,
a log of the calls made and a save counter. Python values are `PyValues.Value`.
An `Object` there is an instance of some class with its attributes.

Modules, one per source file plus two shared ones: `PyValues` (values, `Option`,
`Result`), `Text` (Python's `str.strip`, `split('\n')`, `startswith`, `in`),
`Utils`, `Response`, `CommandExecution`, `EnforcerFactory`, `Client`.

The code does less than its tests expect (tests/test_command_executor.py:29-47,
61-71). The model follows the code:
- There is no name-mapping table. `enforceEx` is looked up as `enforceEx`, not as
  `enforce_ex` (command_executor.py:15).
- There is no pair rule. A tuple such as `(True, [...])` falls into the last
  branch, so `allow` stays None and `explain` is the whole tuple
  (`TupleResultNotUnpacked`).

Other behaviour of the code worth knowing:
- Arguments reach the operation unchanged. No argument is converted to an
  integer, a boolean or a list (command_executor.py:21).
- The mutating set has exactly five names (command_executor.py:39-40).
- The save happens before `json.dumps`. So a mutating command whose result cannot
  be encoded as JSON is saved and then still fails.
- The policy check runs on the text before `|` is replaced. So `p,|x` is accepted,
  but the file written from it holds the line `x`, which the check would refuse
  (`PolicyCheckPrecedesReplacement`).

## Model

| member | source | states |
|---|---|---|
| `CommandExecution.CommandExecutor.Execute` | casbin_cli/command_executor.py:11-46 | unknown name: error "Error executing command 'n': Method 'n' not found", no call, no save; known name: called exactly once with the args unchanged; a raise is wrapped with no save; otherwise saved exactly once iff the name is one of the five mutating names, and the result is the response dict, or the wrapped save or encoding error |
| `CommandExecution.CommandExecutor.constructor` | casbin_cli/command_executor.py:5-9 | stores enforcer, command name and args unchanged |
| `CommandExecution.Enforcer.Invoke` | casbin_cli/command_executor.py:18-21 | the call is logged once with name and args, and returns what the operation yields for those args |
| `CommandExecution.Enforcer.SavePolicy` | casbin_cli/command_executor.py:41 | counts one save and raises exactly when the engine's save raises |
| `CommandExecution.ClassifyLosesNothing` | casbin_cli/command_executor.py:24-36 | every result other than an allow/explain object can be read back from its envelope |
| `CommandExecution.ClassifyShape` | casbin_cli/command_executor.py:27-36 | outside the record branch, `allow` is None or a bool, and `explain` is None exactly for a bool or None result |
| `CommandExecution.TupleResultNotUnpacked` | casbin_cli/command_executor.py:35-36 | a (bool, x) tuple gives allow None and explain the whole tuple |
| `CommandExecution.AfterCallResponse` | casbin_cli/command_executor.py:24-43 | a successful response has exactly the two keys; bool gives allow=result and explain None; list gives allow None and explain the same list; a record's two attributes are copied; anything else gives allow None and explain=result |
| `CommandExecution.AfterCallSaveFailure` | casbin_cli/command_executor.py:39-46 | a mutating command whose save raised never returns a response |
| `CommandExecution.EncodableWithoutObjects` | casbin_cli/command_executor.py:43 | `json.dumps` fails exactly when the value holds an object at some depth |
| `CommandExecution.Failure` | casbin_cli/command_executor.py:45-46 | the error text is the prefix, the command, `': ` and the underlying exception's text, in that order |
| `Response.ResponseBody.constructor` | casbin_cli/response.py:2-5 | arguments stored unchanged; both default to None |
| `Response.ResponseBody.ToDict` | casbin_cli/response.py:7-12 | exactly the keys `allow` and `explain`, holding the current field values |
| `Response.ToDictRoundTrip` | casbin_cli/response.py:2-12 | a body built from the two values of a `to_dict` result gives back the same dict |
| `Response.DefaultToDict` | casbin_cli/response.py:2-12 | a default body still gives both keys, each None |
| `Utils.ProcessLineBreaks` | casbin_cli/utils.py:1-5 | None maps to None; the output holds no backslash-n pair and is shorter by the number of pairs |
| `Utils.UnescapeLength` | casbin_cli/utils.py:5 | output length is input length minus the number of backslash-n occurrences |
| `Utils.UnescapeIdentity` | casbin_cli/utils.py:5 | text with no backslash-n pair comes back unchanged |
| `Utils.UnescapeLeavesNoEscape` | casbin_cli/utils.py:5 | no backslash-n pair survives the replacement |
| `Utils.ProcessLineBreaksIdempotent` | casbin_cli/utils.py:1-5 | applying it twice equals applying it once |
| `Utils.UnescapeInvertsEscape` | casbin_cli/utils.py:5 | for text with no backslash, unescaping undoes writing each newline as backslash-n |
| `Text.BlankIffAllSpace` | casbin_cli/enforcer_factory.py:22-27 | `strip()` gives "" exactly when every character is whitespace |
| `EnforcerFactory.PolicyValidIffEveryLineOk` | casbin_cli/enforcer_factory.py:52-58 | policy text is valid iff every raw newline-separated line, stripped, is blank or starts with `p,` or `g,` |
| `EnforcerFactory.ReplaceBarsAt` | casbin_cli/enforcer_factory.py:65 | same length; each bar character becomes a newline and every other character is kept in place |
| `EnforcerFactory.ReplaceBarsLeavesNoBar` | casbin_cli/enforcer_factory.py:65 | the written content holds no bar character |
| `EnforcerFactory.ReplaceBarsKeepsModelValidity` | casbin_cli/enforcer_factory.py:34-42 | model text has all four section headers before the replacement iff it has them after |
| `EnforcerFactory.PolicyCheckPrecedesReplacement` | casbin_cli/enforcer_factory.py:38-42 | `p,` then a bar then `x` passes the policy check, but its written form does not |
| `EnforcerFactory.TempFiles.WriteToTempFile` | casbin_cli/enforcer_factory.py:61-68 | appends exactly the content with bars replaced by newlines as a new file and returns that file |
| `EnforcerFactory.DecideNullOrBlank` | casbin_cli/enforcer_factory.py:17-27 | None is refused with "Input cannot be null"; blank model is refused with "Model content cannot be empty"; blank policy writes "" |
| `EnforcerFactory.DecideExistingFile` | casbin_cli/enforcer_factory.py:29-31 | a non-blank name of an existing file is used as it is, with no check and no write |
| `EnforcerFactory.DecideModelText` | casbin_cli/enforcer_factory.py:33-36 | inline model text is written iff it contains all four headers, otherwise "Invalid model format" |
| `EnforcerFactory.DecidePolicyText` | casbin_cli/enforcer_factory.py:37-39 | inline policy text is written iff every line is acceptable, otherwise "Invalid policy format" |
| `EnforcerFactory.DecideWrites` | casbin_cli/enforcer_factory.py:17-42 | a write happens only after every earlier check passed; a written model file still has all four headers |
| `EnforcerFactory.DecideRejectsModelWithoutHeaders` | casbin_cli/enforcer_factory.py:33-36 | inline, non-blank model text without any `[` is refused |
| `EnforcerFactory.DecideRejectsPolicyLine` | casbin_cli/enforcer_factory.py:37-39 | a non-blank one-line policy whose stripped text starts with neither `p` nor `g` is refused |
| `EnforcerFactory.ProcessInput` | casbin_cli/enforcer_factory.py:14-42 | refuses, uses the file, or appends one temporary file, exactly as the ordered checks decide |
| `EnforcerFactory.CreateEnforcer` | casbin_cli/enforcer_factory.py:7-12 | model first, then policy; the first refusal is the error; files already written are kept |
| `Client.Run` | casbin_cli/client.py:11-38 | empty args: exit 1 with "Error: Command not recognized"; `-h`/`--help`: returns ""; otherwise the name is kept, the length is kept, each empty later argument becomes None, and each other one is unescaped |
| `Client.ErrorMessage` | casbin_cli/client.py:59 | corrected message: the exception's own text when it is non-empty, otherwise the cause's text, otherwise "Unknown error" |
| `Client.AsWrittenHidesMessage` | casbin_cli/client.py:58-59 | for an exception without a cause, the expression as written gives "Unknown error"; the corrected one gives its text |
| `Client.ReadingsAgreeWithCause` | casbin_cli/client.py:59 | the two readings agree whenever a cause is set |

## Findings

| source | as written | input that shows it | evidently intended | confidence | as-written member | corrected member |
|---|---|---|---|---|---|---|
| casbin_cli/client.py:59 | `str(e) or str(e.__cause__) if e.__cause__ else "Unknown error"` parses as `(str(e) or str(e.__cause__)) if e.__cause__ else "Unknown error"` | any failure raised without `from`, for example `ValueError("Invalid model format")` or every error from `execute`: "Unknown error" is printed | `str(e) or (str(e.__cause__) if e.__cause__ else "Unknown error")` | high, not executed | `Client.ErrorMessageAsWritten`, shown by `Client.AsWrittenHidesMessage` | `Client.ErrorMessage` |

## Left out

- The policy engine (`casbin.Enforcer`) is not modelled. That covers how it is built from the two paths, what `enforce` and the other operations compute, and what `save_policy` writes. Operations are abstract functions of their arguments. They do not depend on earlier calls.
- Python reflection: `hasattr`/`getattr` are map membership and lookup. Non-callable attributes, and calling with the wrong number of arguments, are folded into each operation's outcome.
- `json.dumps` text: the model gives the two-key dict and the TypeError for values holding an object. Floats, dicts, NaN and the character escaping of `ensure_ascii=False` are not modelled.
- The file system: `os.path.exists`/`isfile` is a set of existing regular files passed in. Temporary file names are random and are modelled as indexes into the list of written files. Write errors are not modelled.
- `EnforcerFactory.CreateEnforcer`: states which error is raised, and that earlier written files are kept. It does not state the returned paths or the appended files; those follow from `ProcessInput`'s contract for each input.
- `Client.Run` stops at the hand-off to `_parse_args`. argparse, the custom-function flag, building the enforcer, `print`, `sys.exit` and the static help text are not modelled. Reading `sys.argv` when no list is given is also left out. The commented-out version branch is dead code.
- The message printed by the handler at client.py:58-61 is modelled as a function of the exception. The model has no failing path that would print it.
- Packaging and build scripts, `setup.py`, the ad hoc batch-enforce script and the tests are not modelled. The tests expect name mapping and tuple unpacking, which the code does not do.
