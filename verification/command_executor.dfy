/** `CommandExecutor`: looks a command up on the enforcer, calls it, folds the
    result into the response envelope, saves the policy after a mutating command
    and wraps every failure into one error that names the command. */
module CommandExecution {
  import opened PyValues
  import opened Response

  /** What calling an engine operation does: return a value or raise. */
  datatype Outcome = Returns(value: Value) | Raises(message: string)

  /** One call made on the enforcer, with its positional arguments. */
  datatype Invocation = Invocation(name: string, args: seq<Value>)

  /** The command names after which the policy is saved. */
  const MutatingCommands: set<string> :=
    {"addPolicy", "removePolicy", "updatePolicy", "addGroupingPolicy", "removeGroupingPolicy"}

  /** The policy engine seen from the front end: the callable attributes it has,
      whether `save_policy` raises, and a record of the calls made on it. */
  class Enforcer {
    var ops: map<string, seq<Value> -> Outcome>
    var saveFailure: Option<string>
    var calls: seq<Invocation>
    var saves: nat

    constructor (ops: map<string, seq<Value> -> Outcome>, saveFailure: Option<string>)
      ensures this.ops == ops && this.saveFailure == saveFailure
      ensures calls == [] && saves == 0
    {
      this.ops := ops;
      this.saveFailure := saveFailure;
      calls := [];
      saves := 0;
    }

    /** `hasattr(enforcer, name)`. */
    predicate Has(name: string)
      reads this
    {
      name in ops
    }

    /** `getattr(enforcer, name)(*args)`. */
    method Invoke(name: string, args: seq<Value>) returns (o: Outcome)
      requires Has(name)
      modifies this`calls
      ensures calls == old(calls) + [Invocation(name, args)]
      ensures o == ops[name](args)
    {
      calls := calls + [Invocation(name, args)];
      o := ops[name](args);
    }

    /** `save_policy()`: returns the message it raised with, if it raised. */
    method SavePolicy() returns (failure: Option<string>)
      modifies this`saves
      ensures saves == old(saves) + 1
      ensures failure == saveFailure
    {
      saves := saves + 1;
      failure := saveFailure;
    }
  }

  /** `hasattr(result, 'allow') and hasattr(result, 'explain')`: only an object
      can carry attributes, built-in values never do. */
  predicate IsEnforceResult(v: Value) {
    v.Object? && "allow" in v.attrs && "explain" in v.attrs
  }

  /** The `(allow, explain)` pair lines 24-36 leave in a fresh response body. */
  function Classify(result: Value): (Value, Value) {
    if result.Bool? then (result, Null)
    else if result.List? then (Null, result)
    else if IsEnforceResult(result) then (result.attrs["allow"], result.attrs["explain"])
    else (Null, result)
  }

  /** Reads the operation's result back out of an envelope. */
  function Recover(envelope: (Value, Value)): Value {
    if envelope.0.Bool? then envelope.0 else envelope.1
  }

  /** Every result other than an enforce-result object survives the envelope
      intact, so no two of them share an envelope. */
  lemma ClassifyLosesNothing(result: Value)
    requires !IsEnforceResult(result)
    ensures Recover(Classify(result)) == result
  {
  }

  /** `allow` is tri-state (None, true or false) except when it is copied from an
      enforce-result object; `explain` is None for a bool result only. */
  lemma ClassifyShape(result: Value)
    ensures !IsEnforceResult(result) ==> Classify(result).0.Null? || Classify(result).0.Bool?
    ensures !IsEnforceResult(result) ==> (Classify(result).1.Null? <==> result.Bool? || result.Null?)
  {
  }

  /** A tuple such as `(True, [...])` is not unpacked: it lands in `explain` whole
      and `allow` stays None. */
  lemma TupleResultNotUnpacked(allowed: bool, explanation: Value)
    ensures Classify(Tuple([Bool(allowed), explanation])) == (Null, Tuple([Bool(allowed), explanation]))
  {
  }

  const FailurePrefix := "Error executing command '"

  /** The error text raised for any failure inside `execute`: it names the
      command and ends with the text of the underlying exception. */
  function Failure(command: string, detail: string): (m: string)
    ensures |m| == |FailurePrefix| + |command| + 3 + |detail|
    ensures m[..|FailurePrefix|] == FailurePrefix
    ensures m[|FailurePrefix|..|FailurePrefix| + |command|] == command
    ensures m[|FailurePrefix| + |command|..|FailurePrefix| + |command| + 3] == "': "
    ensures m[|m| - |detail|..] == detail
  {
    FailurePrefix + command + "': " + detail
  }

  /** The AttributeError text for a command the enforcer does not have. */
  function NotFound(command: string): string {
    "Method '" + command + "' not found"
  }

  /** The class name of the first object `json.dumps` meets in `v`, if any; every
      other value is JSON-encodable (a tuple is written as an array). */
  function FirstUnencodable(v: Value): Option<string>
    decreases v, 1, 0
  {
    match v
    case Object(cls, _) => Some(cls)
    case List(_) => FirstUnencodableFrom(v, 0)
    case Tuple(_) => FirstUnencodableFrom(v, 0)
    case _ => None
  }

  /** `FirstUnencodable` over the elements of a list or tuple from index `k` on. */
  function FirstUnencodableFrom(v: Value, k: nat): Option<string>
    requires v.List? || v.Tuple?
    decreases v, 0, |v.items| - k
  {
    if k >= |v.items| then None
    else match FirstUnencodable(v.items[k])
      case Some(cls) => Some(cls)
      case None => FirstUnencodableFrom(v, k + 1)
  }

  /** `json.dumps(response.to_dict())` on the pair: the TypeError it raises, if
      any (the `allow` entry is encoded before `explain`). */
  function DumpsError(envelope: (Value, Value)): Option<string> {
    match FirstUnencodable(envelope.0)
    case Some(cls) => Some("Object of type " + cls + " is not JSON serializable")
    case None =>
      match FirstUnencodable(envelope.1)
      case Some(cls) => Some("Object of type " + cls + " is not JSON serializable")
      case None => None
  }

  /** What `execute` returns once the operation has returned `result`. */
  function AfterCall(command: string, result: Value, saveFailure: Option<string>)
    : Result<map<string, Value>>
  {
    if command in MutatingCommands && saveFailure.Some? then Err(Failure(command, saveFailure.value))
    else
      var envelope := Classify(result);
      match DumpsError(envelope)
      case Some(e) => Err(Failure(command, e))
      case None => Ok(map["allow" := envelope.0, "explain" := envelope.1])
  }

  /** A successful response always has the two keys; a bool fills `allow` only,
      a list fills `explain` only, in the same order. */
  lemma AfterCallResponse(command: string, result: Value, saveFailure: Option<string>)
    requires AfterCall(command, result, saveFailure).Ok?
    ensures var d := AfterCall(command, result, saveFailure).value;
      && d.Keys == {"allow", "explain"}
      && (result.Bool? ==> d["allow"] == result && d["explain"] == Null)
      && (result.List? ==> d["allow"] == Null && d["explain"] == result)
      && (IsEnforceResult(result) ==>
            d["allow"] == result.attrs["allow"] && d["explain"] == result.attrs["explain"])
      && (!result.Bool? && !result.List? && !IsEnforceResult(result) ==>
            d["allow"] == Null && d["explain"] == result)
  {
  }

  /** A mutating command whose save raised never produces a response. */
  lemma AfterCallSaveFailure(command: string, result: Value, saveFailure: Option<string>)
    ensures AfterCall(command, result, saveFailure).Ok? ==>
      command !in MutatingCommands || saveFailure.None?
  {
  }

  /** A result that holds no object always encodes; one that holds an object
      never does, and the error names its class. */
  lemma {:induction false} EncodableWithoutObjects(v: Value)
    ensures FirstUnencodable(v).None? <==> NoObjects(v)
  {
    match v
    case List(items) => EncodableFromWithoutObjects(v, 0);
    case Tuple(items) => EncodableFromWithoutObjects(v, 0);
    case _ =>
  }

  lemma {:induction false} EncodableFromWithoutObjects(v: Value, k: nat)
    requires v.List? || v.Tuple?
    ensures FirstUnencodableFrom(v, k).None? <==>
      forall j :: k <= j < |v.items| ==> NoObjects(v.items[j])
    decreases v, 0, |v.items| - k
  {
    if k < |v.items| {
      EncodableWithoutObjects(v.items[k]);
      EncodableFromWithoutObjects(v, k + 1);
    }
  }

  /** `v` contains no instance of a user class, at any depth. */
  predicate NoObjects(v: Value)
    decreases v
  {
    match v
    case Object(_, _) => false
    case List(items) => forall j :: 0 <= j < |items| ==> NoObjects(items[j])
    case Tuple(items) => forall j :: 0 <= j < |items| ==> NoObjects(items[j])
    case _ => true
  }

  /** `CommandExecutor`: the enforcer, the command name and the raw arguments. */
  class CommandExecutor {
    const enforcer: Enforcer
    const commandName: string
    const args: seq<Value>

    constructor (enforcer: Enforcer, commandName: string, args: seq<Value>)
      ensures this.enforcer == enforcer && this.commandName == commandName && this.args == args
    {
      this.enforcer := enforcer;
      this.commandName := commandName;
      this.args := args;
    }

    /** `execute`: the dictionary `json.dumps` encodes, or the error raised. */
    method Execute() returns (r: Result<map<string, Value>>)
      modifies enforcer
      ensures enforcer.ops == old(enforcer.ops) && enforcer.saveFailure == old(enforcer.saveFailure)
      // an unknown command: nothing is called, nothing is saved
      ensures commandName !in enforcer.ops ==>
        && r == Err(Failure(commandName, NotFound(commandName)))
        && enforcer.calls == old(enforcer.calls) && enforcer.saves == old(enforcer.saves)
      // a known command is called exactly once, with the arguments as given
      ensures commandName in enforcer.ops ==>
        enforcer.calls == old(enforcer.calls) + [Invocation(commandName, args)]
      ensures commandName in enforcer.ops ==>
        match enforcer.ops[commandName](args)
        case Raises(e) =>
          r == Err(Failure(commandName, e)) && enforcer.saves == old(enforcer.saves)
        case Returns(result) =>
          && enforcer.saves == old(enforcer.saves) + (if commandName in MutatingCommands then 1 else 0)
          && r == AfterCall(commandName, result, enforcer.saveFailure)
    {
      if !enforcer.Has(commandName) {
        r := Err(Failure(commandName, NotFound(commandName)));
        return;
      }
      var outcome := enforcer.Invoke(commandName, args);
      if outcome.Raises? {
        r := Err(Failure(commandName, outcome.message));
        return;
      }
      var result := outcome.value;
      var response := new ResponseBody();
      if result.Bool? {
        response.allow := result;
      } else if result.List? {
        response.explain := result;
      } else if IsEnforceResult(result) {
        response.allow := result.attrs["allow"];
        response.explain := result.attrs["explain"];
      } else {
        response.explain := result;
      }
      if commandName in MutatingCommands {
        var failure := enforcer.SavePolicy();
        if failure.Some? {
          r := Err(Failure(commandName, failure.value));
          return;
        }
      }
      var d := response.ToDict();
      match DumpsError((d["allow"], d["explain"]))
      case Some(e) =>
        r := Err(Failure(commandName, e));
      case None =>
        r := Ok(d);
    }
  }
}
