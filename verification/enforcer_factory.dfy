/** `EnforcerFactory`: turns the `-m` and `-p` inputs, each a file path or inline
    text, into the two paths handed to the policy engine. */
module EnforcerFactory {
  import opened PyValues
  import opened Text

  /** The section headers a model text must mention. */
  const RequiredSections: seq<string> :=
    ["[request_definition]", "[policy_definition]", "[policy_effect]", "[matchers]"]

  /** `_is_valid_model_content`. */
  predicate IsValidModelContent(content: string) {
    forall k :: 0 <= k < |RequiredSections| ==> Contains(content, RequiredSections[k])
  }

  /** One policy line is acceptable once stripped: blank, or a `p,` or `g,` rule. */
  predicate LineOk(line: string) {
    var t := Strip(line);
    StartsWith(t, "p,") || StartsWith(t, "g,") || t == []
  }

  /** Every `\n`-separated line of `s` is acceptable. */
  predicate AllLinesOk(s: string) {
    forall k :: 0 <= k < |Split(s)| ==> LineOk(Split(s)[k])
  }

  /** `_is_valid_policy_content`: blank text, or every line of the stripped text. */
  predicate IsValidPolicyContent(content: string) {
    IsBlank(content) || AllLinesOk(Strip(content))
  }

  /** Stripping the whole text first changes nothing: a policy is valid exactly
      when every raw line of it is acceptable. */
  lemma PolicyValidIffEveryLineOk(content: string)
    ensures IsValidPolicyContent(content) <==> AllLinesOk(content)
  {
    TrimLeftKeepsLines(content);
    TrimRightKeepsLines(TrimLeft(content));
    if IsBlank(content) {
      var e: string := [];
      assert Split(e) == [e];
    }
  }

  lemma LinesConsSpace(c: char, s: string)
    requires IsSpace(c)
    ensures AllLinesOk([c] + s) <==> AllLinesOk(s)
  {
    var cs := [c] + s;
    assert cs[0] == c && cs[1..] == s;
    if c == '\n' {
      var e: string := [];
      assert Split(cs) == [e] + Split(s);
      assert LineOk(e) by { assert Strip(e) == e; }
      SameLines(Split(cs), Split(s), 1);
    } else {
      assert Split(cs) == [[c] + Split(s)[0]] + Split(s)[1..];
      LinesConsOther(c, Split(s), Split(cs));
    }
  }

  lemma LinesConsOther(c: char, r: seq<string>, rc: seq<string>)
    requires IsSpace(c) && |r| >= 1
    requires rc == [[c] + r[0]] + r[1..]
    ensures (forall k :: 0 <= k < |rc| ==> LineOk(rc[k])) <==> (forall k :: 0 <= k < |r| ==> LineOk(r[k]))
  {
    assert LineOk(rc[0]) <==> LineOk(r[0]) by { StripCons(c, r[0]); }
    assert |rc| == |r|;
    assert forall k :: 0 < k < |r| ==> rc[k] == r[k];
  }

  /** Two line lists that agree from some point on, with acceptable lines before it. */
  lemma SameLines(a: seq<string>, b: seq<string>, d: nat)
    requires |a| == |b| + d
    requires forall k :: 0 <= k < d ==> LineOk(a[k])
    requires forall k :: 0 <= k < |b| ==> a[k + d] == b[k]
    ensures (forall k :: 0 <= k < |a| ==> LineOk(a[k])) <==> (forall k :: 0 <= k < |b| ==> LineOk(b[k]))
  {
    if forall k :: 0 <= k < |b| ==> LineOk(b[k]) {
      forall k | 0 <= k < |a| ensures LineOk(a[k]) {
        if k >= d { assert a[k] == b[k - d]; }
      }
    }
  }

  lemma LinesSnocSpace(s: string, c: char)
    requires IsSpace(c)
    ensures AllLinesOk(s + [c]) <==> AllLinesOk(s)
  {
    var r := Split(s);
    var rc := Split(s + [c]);
    var n := |r|;
    if c == '\n' {
      SplitSnocNewline(s);
      var e: string := [];
      assert LineOk(e) by { assert Strip(e) == e; }
      assert rc == r + [e];
      if AllLinesOk(s) {
        forall k | 0 <= k < |rc| ensures LineOk(rc[k]) {
          if k < n { assert rc[k] == r[k]; } else { assert rc[k] == e; }
        }
      }
      if AllLinesOk(s + [c]) {
        forall k | 0 <= k < n ensures LineOk(r[k]) {
          assert rc[k] == r[k];
        }
      }
    } else {
      SplitSnocOther(s, c);
      assert rc == r[..n - 1] + [r[n - 1] + [c]];
      assert LineOk(rc[n - 1]) <==> LineOk(r[n - 1]) by { StripSnoc(r[n - 1], c); }
      if AllLinesOk(s) {
        forall k | 0 <= k < |rc| ensures LineOk(rc[k]) {
          if k < n - 1 { assert rc[k] == r[k]; }
        }
      }
      if AllLinesOk(s + [c]) {
        forall k | 0 <= k < n ensures LineOk(r[k]) {
          if k < n - 1 { assert rc[k] == r[k]; }
        }
      }
    }
  }

  lemma {:induction false} TrimLeftKeepsLines(s: string)
    ensures AllLinesOk(TrimLeft(s)) <==> AllLinesOk(s)
  {
    if |s| > 0 && IsSpace(s[0]) {
      var t := s[1..];
      assert TrimLeft(s) == TrimLeft(t);
      TrimLeftKeepsLines(t);
      assert [s[0]] + t == s;
      LinesConsSpace(s[0], t);
    }
  }

  lemma {:induction false} TrimRightKeepsLines(s: string)
    ensures AllLinesOk(TrimRight(s)) <==> AllLinesOk(s)
  {
    if |s| > 0 && IsSpace(s[|s| - 1]) {
      var t := s[..|s| - 1];
      assert TrimRight(s) == TrimRight(t);
      TrimRightKeepsLines(t);
      assert t + [s[|s| - 1]] == s;
      LinesSnocSpace(t, s[|s| - 1]);
    }
  }

  /** `content.replace('|', '\n')`, the delimiter handling of `_write_to_temp_file`. */
  function ReplaceBars(s: string): string {
    if s == [] then [] else [if s[0] == '|' then '\n' else s[0]] + ReplaceBars(s[1..])
  }

  /** Same length; each `|` becomes a newline and every other character stays. */
  lemma {:induction false} ReplaceBarsAt(s: string)
    ensures |ReplaceBars(s)| == |s|
    ensures forall k :: 0 <= k < |s| ==> ReplaceBars(s)[k] == if s[k] == '|' then '\n' else s[k]
  {
    if s != [] {
      ReplaceBarsAt(s[1..]);
      assert forall k :: 1 <= k < |s| ==> s[k] == s[1..][k - 1];
    }
  }

  /** The written file holds no `|`. */
  lemma ReplaceBarsLeavesNoBar(s: string)
    ensures '|' !in ReplaceBars(s)
  {
    ReplaceBarsAt(s);
  }

  /** A text without `|` or newline occurs at the same place before and after the
      replacement. */
  lemma OccursAcrossReplace(s: string, t: string, i: nat)
    requires '|' !in t && '\n' !in t
    ensures OccursAt(s, t, i) <==> OccursAt(ReplaceBars(s), t, i)
  {
    ReplaceBarsAt(s);
    var r := ReplaceBars(s);
    if i + |t| <= |s| {
      if OccursAt(s, t, i) {
        forall j | 0 <= j < |t| ensures r[i + j] == t[j] {
          assert s[i + j] == s[i..i + |t|][j];
        }
        assert r[i..i + |t|] == t;
      }
      if OccursAt(r, t, i) {
        forall j | 0 <= j < |t| ensures s[i + j] == t[j] {
          assert r[i + j] == r[i..i + |t|][j];
        }
        assert s[i..i + |t|] == t;
      }
    }
  }

  lemma ContainsAcrossReplace(s: string, t: string)
    requires '|' !in t && '\n' !in t
    ensures Contains(s, t) <==> Contains(ReplaceBars(s), t)
  {
    ReplaceBarsAt(s);
    if Contains(s, t) {
      var i :| 0 <= i <= |s| && OccursAt(s, t, i);
      OccursAcrossReplace(s, t, i);
    }
    if Contains(ReplaceBars(s), t) {
      var i :| 0 <= i <= |ReplaceBars(s)| && OccursAt(ReplaceBars(s), t, i);
      OccursAcrossReplace(s, t, i);
    }
  }

  /** Replacing `|` neither creates nor destroys a section header, so a model is
      valid after the replacement exactly when it was before. */
  lemma ReplaceBarsKeepsModelValidity(s: string)
    ensures IsValidModelContent(ReplaceBars(s)) <==> IsValidModelContent(s)
  {
    forall k | 0 <= k < |RequiredSections|
      ensures Contains(s, RequiredSections[k]) <==> Contains(ReplaceBars(s), RequiredSections[k])
    {
      SectionHasNoBreak(k);
      ContainsAcrossReplace(s, RequiredSections[k]);
    }
  }

  /** No section header holds a bar or a newline. */
  lemma SectionHasNoBreak(k: nat)
    requires k < |RequiredSections|
    ensures '|' !in RequiredSections[k] && '\n' !in RequiredSections[k]
  {
    var t := RequiredSections[k];
    assert forall j :: 0 <= j < |t| ==> t[j] != '|' && t[j] != '\n';
  }

  /** The policy check runs before the replacement, so a `|` can smuggle an
      unacceptable line into the written policy file. */
  lemma PolicyCheckPrecedesReplacement()
    ensures IsValidPolicyContent("p,|x") && !IsValidPolicyContent(ReplaceBars("p,|x"))
  {
    var s := "p,|x";
    assert IsValidPolicyContent(s) by {
      assert '\n' !in s;
      SplitNoNewline(s);
      assert Strip(s) == s;
      assert LineOk(s);
      PolicyValidIffEveryLineOk(s);
    }
    var w := ReplaceBars(s);
    assert w == "p,\nx" by {
      assert ReplaceBars("x") == "x";
      assert ReplaceBars("|x") == "\nx";
      assert ReplaceBars(",|x") == ",\nx";
    }
    assert !IsValidPolicyContent(w) by {
      assert w == "p," + ['\n'] + "x";
      SplitAtNewline("p,", "x");
      SplitNoNewline("x");
      assert Split(w)[1] == "x";
      assert Strip("x") == "x";
      assert !LineOk("x");
      PolicyValidIffEveryLineOk(w);
    }
  }

  /** A path handed to the engine: the caller's own file, or the `k`-th
      temporary file this process wrote. */
  datatype Path = Given(path: string) | Temp(index: nat)

  /** The temporary files written so far, in order, with their contents. */
  class TempFiles {
    var written: seq<string>

    constructor ()
      ensures written == []
    {
      written := [];
    }

    /** `_write_to_temp_file`: a fresh file holding the content with every `|`
        turned into a newline. */
    method WriteToTempFile(content: string) returns (p: Path)
      modifies this
      ensures written == old(written) + [ReplaceBars(content)]
      ensures p == Temp(|old(written)|)
    {
      p := Temp(|written|);
      written := written + [ReplaceBars(content)];
    }
  }

  /** What `_process_input` decides for one input. */
  datatype Decision = Reject(message: string) | UseFile(path: string) | WriteTemp(content: string)

  /** The checks of `_process_input`, in order: null, blank, existing file,
      format, write. `existingFiles` are the paths that exist as regular files. */
  function Decide(input: Option<string>, isModel: bool, existingFiles: set<string>): Decision {
    if input.None? then Reject("Input cannot be null")
    else
      var s := input.value;
      if IsBlank(s) && !isModel then WriteTemp("")
      else if IsBlank(s) && isModel then Reject("Model content cannot be empty")
      else if s in existingFiles then UseFile(s)
      else if isModel && !IsValidModelContent(s) then Reject("Invalid model format")
      else if !isModel && !IsBlank(s) && !IsValidPolicyContent(s) then Reject("Invalid policy format")
      else WriteTemp(s)
  }

  /** None is refused for either kind; blank input: a model is refused, a policy
      becomes an empty file. */
  lemma DecideNullOrBlank(s: string, isModel: bool, existingFiles: set<string>)
    requires IsBlank(s)
    ensures Decide(None, isModel, existingFiles) == Reject("Input cannot be null")
    ensures Decide(Some(s), true, existingFiles) == Reject("Model content cannot be empty")
    ensures Decide(Some(s), false, existingFiles) == WriteTemp("")
  {
  }

  /** An existing file is used as it is, without any format check. */
  lemma DecideExistingFile(s: string, isModel: bool, existingFiles: set<string>)
    requires !IsBlank(s) && s in existingFiles
    ensures Decide(Some(s), isModel, existingFiles) == UseFile(s)
  {
  }

  /** Inline policy text is written out exactly when each of its lines is blank
      or starts, after stripping, with `p,` or `g,`. */
  lemma DecidePolicyText(s: string, existingFiles: set<string>)
    requires !IsBlank(s) && s !in existingFiles
    ensures Decide(Some(s), false, existingFiles) ==
      if AllLinesOk(s) then WriteTemp(s) else Reject("Invalid policy format")
  {
    PolicyValidIffEveryLineOk(s);
  }

  /** Inline model text is written out exactly when it names all four sections. */
  lemma DecideModelText(s: string, existingFiles: set<string>)
    requires !IsBlank(s) && s !in existingFiles
    ensures Decide(Some(s), true, existingFiles) ==
      if forall k :: 0 <= k < 4 ==> Contains(s, RequiredSections[k])
      then WriteTemp(s) else Reject("Invalid model format")
  {
  }

  /** Something is written only after every earlier check has passed, and a
      written model file still names all four sections. */
  lemma DecideWrites(input: Option<string>, isModel: bool, existingFiles: set<string>)
    requires Decide(input, isModel, existingFiles).WriteTemp?
    ensures input.Some? && (input.value !in existingFiles || IsBlank(input.value))
    ensures var c := Decide(input, isModel, existingFiles).content;
      && (isModel ==> IsValidModelContent(ReplaceBars(c)))
      && (!isModel ==> IsValidPolicyContent(c))
  {
    var c := Decide(input, isModel, existingFiles).content;
    if isModel {
      ReplaceBarsKeepsModelValidity(c);
    } else if c == [] {
      assert IsBlank(c);
    }
  }

  /** Inline model text that is not blank and has no `[` at all (such as
      "invalid model content") is refused. */
  lemma DecideRejectsModelWithoutHeaders(s: string, existingFiles: set<string>)
    requires !IsBlank(s) && '[' !in s && s !in existingFiles
    ensures Decide(Some(s), true, existingFiles) == Reject("Invalid model format")
  {
    assert !Contains(s, RequiredSections[0]) by {
      if Contains(s, RequiredSections[0]) {
        ContainsFirstChar(s, RequiredSections[0]);
      }
    }
  }

  /** A one-line inline policy whose stripped text begins with neither `p` nor
      `g` (such as "invalid policy content") is refused. */
  lemma DecideRejectsPolicyLine(s: string, existingFiles: set<string>)
    requires !IsBlank(s) && Strip(s)[0] != 'p' && Strip(s)[0] != 'g'
    requires '\n' !in s && s !in existingFiles
    ensures Decide(Some(s), false, existingFiles) == Reject("Invalid policy format")
  {
    assert !AllLinesOk(s) by {
      SplitNoNewline(s);
      assert !LineOk(Split(s)[0]);
    }
    DecidePolicyText(s, existingFiles);
  }

  /** `_process_input`: the path to hand to the engine, or the ValueError raised. */
  method ProcessInput(input: Option<string>, isModel: bool, existingFiles: set<string>, temp: TempFiles)
    returns (r: Result<Path>)
    modifies temp
    ensures match Decide(input, isModel, existingFiles)
      case Reject(m) => r == Err(m) && temp.written == old(temp.written)
      case UseFile(p) => r == Ok(Given(p)) && temp.written == old(temp.written)
      case WriteTemp(c) =>
        r == Ok(Temp(|old(temp.written)|)) && temp.written == old(temp.written) + [ReplaceBars(c)]
  {
    if input.None? {
      return Err("Input cannot be null");
    }
    var s := input.value;
    if IsBlank(s) && !isModel {
      var p := temp.WriteToTempFile("");
      return Ok(p);
    } else if IsBlank(s) && isModel {
      return Err("Model content cannot be empty");
    }
    if s in existingFiles {
      return Ok(Given(s));
    }
    if isModel {
      if !IsValidModelContent(s) {
        return Err("Invalid model format");
      }
    } else {
      if !IsBlank(s) && !IsValidPolicyContent(s) {
        return Err("Invalid policy format");
      }
    }
    var p := temp.WriteToTempFile(s);
    return Ok(p);
  }

  /** `create_enforcer` up to the engine: the model path, then the policy path.
      A policy failure leaves the model's temporary file written. */
  method CreateEnforcer(modelInput: Option<string>, policyInput: Option<string>,
                        existingFiles: set<string>, temp: TempFiles)
    returns (r: Result<(Path, Path)>)
    modifies temp
    ensures Decide(modelInput, true, existingFiles).Reject? ==>
      r == Err(Decide(modelInput, true, existingFiles).message) && temp.written == old(temp.written)
    ensures r.Ok? <==>
      !Decide(modelInput, true, existingFiles).Reject? && !Decide(policyInput, false, existingFiles).Reject?
    ensures !Decide(modelInput, true, existingFiles).Reject? && Decide(policyInput, false, existingFiles).Reject? ==>
      r == Err(Decide(policyInput, false, existingFiles).message)
    ensures |old(temp.written)| <= |temp.written|
    ensures temp.written[..|old(temp.written)|] == old(temp.written)
  {
    var modelPath := ProcessInput(modelInput, true, existingFiles, temp);
    if modelPath.Err? {
      return Err(modelPath.message);
    }
    var policyPath := ProcessInput(policyInput, false, existingFiles, temp);
    if policyPath.Err? {
      return Err(policyPath.message);
    }
    return Ok((modelPath.value, policyPath.value));
  }
}
