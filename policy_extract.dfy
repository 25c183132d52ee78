/** The repair half of the JSON-recovery path (src/llm_extract_policy_rules.py): the
    title-as-key repair heuristic, the orchestration that falls back to it after a
    failed strict parse, and the output path derived from the policy's display name. */
module PolicyExtract {
  import opened JsonModel
  import opened PyStrings
  import opened LlmUtils

  const PolicyName: string := "policy_name"
  const Controls: string := "controls"
  const OutputDir: string := "outputs/policy/"
  const OutputExt: string := ".json"

  // ---------------------------------------------------------------------------
  // Normalisation of the repair path

  /** The repair path's own normalisation: trim whitespace, then strip every leading
      and trailing backtick whether or not a fence opens the text, then drop a
      leading `json` and trim whitespace again. */
  function NormalizeAutofix(raw: string): (text: string)
    ensures IsSubstring(text, raw)
  {
    var t := Strip(raw, Whitespace);
    var u := Strip(t, Backtick);
    SubstringTransitive(u, t, raw);
    if StartsWith(u, LanguageTag) then
      var v := Strip(u[4..], Whitespace);
      DropIsSubstring(u, 4);
      SubstringTransitive(v, u[4..], u);
      SubstringTransitive(v, u, raw);
      v
    else
      u
  }

  /** The two normalisations agree on every reply whose trimmed text opens a code
      fence. */
  lemma NormalizationsAgreeBehindFence(raw: string)
    requires StartsWith(Strip(raw, Whitespace), Fence)
    ensures NormalizeStrict(raw) == NormalizeAutofix(raw)
  {
  }

  /** Exactly when the two normalisations agree: the trimmed reply opens a fence, or
      it has no backtick at either end and does not begin with `json` (then neither
      copy removes anything after trimming). */
  lemma NormalizationsAgreeExactly(raw: string)
    ensures var t := Strip(raw, Whitespace);
      NormalizeStrict(raw) == NormalizeAutofix(raw) <==>
        StartsWith(t, Fence) || (NoEdge(t, Backtick) && !StartsWith(t, LanguageTag))
  {
    var t := Strip(raw, Whitespace);
    if !StartsWith(t, Fence) {
      var u := Strip(t, Backtick);
      StripFixedPoint(t, Backtick);
      if StartsWith(u, LanguageTag) {
        assert |NormalizeAutofix(raw)| <= |u| - 4 < |t|;
      } else if !NoEdge(t, Backtick) {
        assert |NormalizeAutofix(raw)| == |u| < |t|;
      }
    }
  }

  /** A reply that starts with a bare `json` tag, with no fence: the strict copy
      keeps the whole trimmed text, the repair copy drops the tag. */
  lemma BareTagDiverges(body: string)
    requires body != [] && NoEdge(body, Whitespace) && NoEdge(body, Backtick)
    ensures NormalizeStrict(LanguageTag + " " + body) == LanguageTag + " " + body
    ensures NormalizeAutofix(LanguageTag + " " + body) == body
  {
    BareTagTrimmed(body);
    BareTagUntagged(body);
  }

  lemma BareTagTrimmed(body: string)
    requires body != [] && NoEdge(body, Whitespace) && NoEdge(body, Backtick)
    ensures Strip(LanguageTag + " " + body, Whitespace) == LanguageTag + " " + body
    ensures Strip(LanguageTag + " " + body, Backtick) == LanguageTag + " " + body
    ensures !StartsWith(LanguageTag + " " + body, Fence)
    ensures StartsWith(LanguageTag + " " + body, LanguageTag)
  {
    var t := LanguageTag + " " + body;
    BareTagEnds(body);
    StripFixedPoint(t, Whitespace);
    StripFixedPoint(t, Backtick);
  }

  lemma BareTagEnds(body: string)
    requires body != [] && NoEdge(body, Whitespace) && NoEdge(body, Backtick)
    ensures NoEdge(LanguageTag + " " + body, Whitespace) && NoEdge(LanguageTag + " " + body, Backtick)
    ensures !StartsWith(LanguageTag + " " + body, Fence)
    ensures StartsWith(LanguageTag + " " + body, LanguageTag)
  {
    var t := LanguageTag + " " + body;
    assert t[0] == 'j' && t[|t| - 1] == body[|body| - 1];
    assert t[..4] == LanguageTag;
  }

  lemma BareTagUntagged(body: string)
    requires body != [] && NoEdge(body, Whitespace)
    ensures Strip((LanguageTag + " " + body)[4..], Whitespace) == body
  {
    assert (LanguageTag + " " + body)[4..] == " " + body;
    SpaceThenBody(body);
  }

  lemma SpaceThenBody(body: string)
    requires body != [] && NoEdge(body, Whitespace)
    ensures Strip(" " + body, Whitespace) == body
  {
    var w := " " + body;
    var n := |body|;
    assert w[0] == ' ' && w[1] == body[0] && w[n] == body[n - 1];
    StripBetween(w, Whitespace, 1, n + 1);
    assert w[1..n + 1] == body;
  }

  /** A reply that ends in a closing fence with no opening one: the strict copy
      keeps the fence, the repair copy strips it. */
  lemma ClosingFenceDiverges(body: string)
    requires body != [] && NoEdge(body, Whitespace) && NoEdge(body, Backtick)
    requires !StartsWith(body, LanguageTag)
    ensures NormalizeStrict(body + Fence) == body + Fence
    ensures NormalizeAutofix(body + Fence) == body
  {
    var t := body + Fence;
    var n := |body|;
    assert t[0] == body[0] && t[|t| - 1] == '`';
    assert NoEdge(t, Whitespace);
    StripFixedPoint(t, Whitespace);
    assert !StartsWith(t, Fence) by { assert t[0] != '`'; }
    assert t[n - 1] == body[n - 1] && t[n..] == Fence;
    StripBetween(t, Backtick, 0, n);
    assert t[0..n] == body;
  }

  /** Two replies on which the copies differ: `json {}` loses its tag only in the
      repair path, and `{}` followed by a closing fence loses the fence only there. */
  lemma NormalizationsDiverge()
    ensures NormalizeStrict(LanguageTag + " " + "{}") == LanguageTag + " " + "{}"
    ensures NormalizeAutofix(LanguageTag + " " + "{}") == "{}"
    ensures NormalizeStrict("{}" + Fence) == "{}" + Fence
    ensures NormalizeAutofix("{}" + Fence) == "{}"
  {
    assert NoEdge("{}", Whitespace) && NoEdge("{}", Backtick);
    assert !StartsWith("{}", LanguageTag);
    BareTagDiverges("{}");
    ClosingFenceDiverges("{}");
  }

  // ---------------------------------------------------------------------------
  // The title-as-key repair

  /** Keys other than `controls` whose value is a string: the candidates for a
      policy title the model wrote as a key. */
  function CandidateKeys(data: map<string, Json>): (keys: set<string>)
    ensures keys <= data.Keys - {Controls}
    ensures forall k :: k in data && k != Controls ==> (k in keys <==> data[k].JStr?)
  {
    set k | k in data && k != Controls && data[k].JStr?
  }

  /** A set of one element holds nothing else. */
  lemma SingletonUnique(s: set<string>)
    requires |s| == 1
    ensures forall a, b :: a in s && b in s ==> a == b
  {
    var x :| x in s;
    var rest := s - {x};
    assert s == rest + {x};
    assert |rest| == 0;
  }

  /** The repair of a decoded object. An object that already names its policy, or
      that has no `controls`, is returned as it is. Otherwise, if exactly one other
      key holds a string, the object is rebuilt from that key's NAME and `controls`;
      if not, the fallback name is added under `policy_name`. The repair never adds,
      removes or alters `controls`, and changes no entry but `policy_name`, whose new
      value is a candidate key's name or the fallback. */
  function Repair(data: map<string, Json>, fallback: string): (fixed: map<string, Json>)
    ensures PolicyName in data || Controls !in data ==> fixed == data
    ensures Controls in fixed <==> Controls in data
    ensures Controls in data ==> fixed[Controls] == data[Controls]
    ensures fixed.Keys <= data.Keys + {PolicyName}
    ensures forall k :: k in fixed && k != PolicyName ==> k in data && fixed[k] == data[k]
    ensures PolicyName !in data && Controls in data ==>
      PolicyName in fixed && fixed[PolicyName].JStr? &&
      (fixed[PolicyName].s in CandidateKeys(data) || fixed[PolicyName].s == fallback)
  {
    if PolicyName in data then data
    else
      var candidates := CandidateKeys(data);
      if |candidates| == 1 && Controls in data then
        SingletonUnique(candidates);
        var title :| title in candidates;
        map[PolicyName := JStr(title), Controls := data[Controls]]
      else if Controls in data then
        data[PolicyName := JStr(fallback)]
      else
        data
  }

  /** The reshape case: with `controls` present and exactly one candidate key, the
      result has exactly two keys, the candidate's name as `policy_name` and the
      original `controls`; the candidate's own string value and every other key are
      dropped. */
  lemma RepairReshapes(data: map<string, Json>, fallback: string, title: string)
    requires PolicyName !in data && Controls in data
    requires CandidateKeys(data) == {title}
    ensures Repair(data, fallback) == map[PolicyName := JStr(title), Controls := data[Controls]]
    ensures Repair(data, fallback).Keys == {PolicyName, Controls}
    ensures title != PolicyName ==> title !in Repair(data, fallback)
  {
  }

  /** The fallback case: with `controls` present and zero or several candidate keys,
      the result is the input with `policy_name` set to the fallback name. */
  lemma RepairFallsBack(data: map<string, Json>, fallback: string)
    requires PolicyName !in data && Controls in data
    requires |CandidateKeys(data)| != 1
    ensures Repair(data, fallback) == data[PolicyName := JStr(fallback)]
    ensures Repair(data, fallback).Keys == data.Keys + {PolicyName}
  {
  }

  /** Repairing a repaired object changes nothing. */
  lemma RepairIdempotent(data: map<string, Json>, fallback: string)
    ensures Repair(Repair(data, fallback), fallback) == Repair(data, fallback)
  {
  }

  /** The model mistake the repair targets: the title the model wrote as a key
      becomes `policy_name`, and the description under it is discarded. */
  lemma RepairTitleAsKeyExample(description: string, controls: Json, fallback: string)
    ensures var data := map["Acceptable Use Policy" := JStr(description), Controls := controls];
      Repair(data, fallback) == map[PolicyName := JStr("Acceptable Use Policy"), Controls := controls]
  {
    var data := map["Acceptable Use Policy" := JStr(description), Controls := controls];
    assert "Acceptable Use Policy" != Controls;
    assert CandidateKeys(data) == {"Acceptable Use Policy"};
    RepairReshapes(data, fallback, "Acceptable Use Policy");
  }

  /** Two string keys beside `controls` are ambiguous: the fallback name is used. */
  lemma RepairTwoTitlesExample(controls: Json, fallback: string)
    ensures var data := map["Title" := JStr("x"), "Subtitle" := JStr("y"), Controls := controls];
      Repair(data, fallback) == data[PolicyName := JStr(fallback)]
  {
    var data := map["Title" := JStr("x"), "Subtitle" := JStr("y"), Controls := controls];
    assert "Title" != Controls && "Subtitle" != Controls && "Title" != "Subtitle";
    assert CandidateKeys(data) == {"Title", "Subtitle"};
    RepairFallsBack(data, fallback);
  }

  // ---------------------------------------------------------------------------
  // `try_autofix_missing_policy_name`

  /** The repair step on a decoded value of any JSON type. An object is repaired.
      Python's `"policy_name" not in data` and `data.items()` decide the rest: a list
      or string that contains `policy_name` comes back unchanged; any other list or
      string has no `items()`; a number, boolean or null does not support `in`. */
  function RepairDecoded(data: Json, fallback: string): (r: Result<Json, Failure>)
    ensures data.JObj? ==> r == Ok(JObj(Repair(data.fields, fallback)))
    ensures !data.JObj? && r.Ok? ==> r.value == data
    ensures data.JArr? ==> (r.Ok? <==> JStr(PolicyName) in data.items)
    ensures data.JStr? ==> (r.Ok? <==> IsSubstring(PolicyName, data.s))
    ensures r.Err? ==> r.error == (if data.JArr? || data.JStr? then ItemsFailure(data) else MembershipFailure(data))
    ensures data.JNull? || data.JBool? || data.JNum? ==> r == Err(MembershipFailure(data))
  {
    match data
    case JObj(fields) => Ok(JObj(Repair(fields, fallback)))
    case JArr(items) => if JStr(PolicyName) in items then Ok(data) else Err(ItemsFailure(data))
    case JStr(s) => if IsSubstring(PolicyName, s) then Ok(data) else Err(ItemsFailure(data))
    case _ => Err(MembershipFailure(data))
  }

  /** `controls` is neither created nor altered between two decoded values. */
  ghost predicate KeepsControls(before: Json, after: Json) {
    before.JObj? == after.JObj? &&
    (before.JObj? ==>
      (Controls in after.fields <==> Controls in before.fields) &&
      (Controls in before.fields ==> after.fields[Controls] == before.fields[Controls]))
  }

  /** `try_autofix_missing_policy_name`: normalise, decode (a decode failure escapes
      unhandled), and repair. A successful repair keeps the decoded `controls`. */
  function TryAutofix(raw: string, fallback: string, parse: string -> Option<Json>)
    : (r: Result<Json, Failure>)
    ensures parse(NormalizeAutofix(raw)).None? ==> r == Err(DecodeFailure(NormalizeAutofix(raw)))
    ensures r.Ok? ==> parse(NormalizeAutofix(raw)).Some? && KeepsControls(parse(NormalizeAutofix(raw)).value, r.value)
    ensures parse(NormalizeAutofix(raw)).Some? ==> r == RepairDecoded(parse(NormalizeAutofix(raw)).value, fallback)
  {
    var text := NormalizeAutofix(raw);
    match parse(text)
    case None => Err(DecodeFailure(text))
    case Some(data) => RepairDecoded(data, fallback)
  }

  /** A decoded object with neither `policy_name` nor `controls` passes through the
      repair as it is, so a schema that demands both still rejects it. */
  lemma NoControlsStaysInvalid(raw: string, fallback: string, parse: string -> Option<Json>, valid: Json -> bool)
    requires parse(NormalizeAutofix(raw)).Some? && parse(NormalizeAutofix(raw)).value.JObj?
    requires PolicyName !in parse(NormalizeAutofix(raw)).value.fields
    requires Controls !in parse(NormalizeAutofix(raw)).value.fields
    requires forall j :: valid(j) ==> j.JObj? && Controls in j.fields
    ensures TryAutofix(raw, fallback, parse) == Ok(parse(NormalizeAutofix(raw)).value)
    ensures !valid(TryAutofix(raw, fallback, parse).value)
  {
  }

  /** A reply that decodes under neither normalisation fails both stages: with a
      quoting `LLMError` in the strict one and with a decode error in the repair one. */
  lemma UndecodableFailsTwice(raw: string, fallback: string, parse: string -> Option<Json>, valid: Json -> bool)
    requires parse(NormalizeStrict(raw)).None? && parse(NormalizeAutofix(raw)).None?
    ensures ParseAndValidate(raw, parse, valid) == Err(ParseFailure(ParseErrorPrefix + Excerpt(NormalizeStrict(raw))))
    ensures TryAutofix(raw, fallback, parse) == Err(DecodeFailure(NormalizeAutofix(raw)))
  {
  }

  /** The reply repair path's counterpart of the strict fence branch: every leading
      and trailing backtick goes whether or not a fence opens the text; the tag is
      dropped only when what remains begins with `json`, and then exactly four
      characters are dropped before whitespace is trimmed. */
  lemma AutofixBranches(raw: string)
    ensures var body := Strip(Strip(raw, Whitespace), Backtick);
      && NoEdge(body, Backtick)
      && (StartsWith(body, LanguageTag) ==> NormalizeAutofix(raw) == Strip(body[4..], Whitespace))
      && (StartsWith(body, LanguageTag) ==> |NormalizeAutofix(raw)| <= |body| - 4)
      && (!StartsWith(body, LanguageTag) ==> NormalizeAutofix(raw) == body)
  {
  }

  // ---------------------------------------------------------------------------
  // Output path

  /** The file name part: spaces become underscores, then ASCII letters are
      lower-cased. It is as long as the name, holds no space and no upper-case ASCII
      letter, and has an underscore exactly where the name has a space or one; an
      upper-case letter becomes its lower-case form and every other character is
      kept. */
  function FileStem(name: string): (stem: string)
    ensures |stem| == |name|
    ensures forall i :: 0 <= i < |stem| ==> stem[i] != ' ' && !IsAsciiUpper(stem[i])
    ensures forall i :: 0 <= i < |stem| ==> (stem[i] == '_' <==> name[i] == ' ' || name[i] == '_')
    ensures forall i :: 0 <= i < |name| && IsAsciiUpper(name[i]) ==> stem[i] as int == name[i] as int + 32
    ensures forall i :: 0 <= i < |name| && name[i] != ' ' && !IsAsciiUpper(name[i]) ==> stem[i] == name[i]
  {
    Lower(ReplaceChar(name, ' ', '_'))
  }

  /** `outputs/policy/<stem>.json`. */
  function OutputPath(name: string): (path: string)
    ensures StartsWith(path, OutputDir)
    ensures |path| == |OutputDir| + |name| + |OutputExt|
    ensures path[|OutputDir|..|OutputDir| + |name|] == FileStem(name)
    ensures path[|OutputDir| + |name|..] == OutputExt
  {
    OutputDir + FileStem(name) + OutputExt
  }

  /** Two display names give the same output path string exactly when their stems
      agree; a later run overwrites the earlier one's file. */
  lemma OutputPathCollides(a: string, b: string)
    ensures OutputPath(a) == OutputPath(b) <==> FileStem(a) == FileStem(b)
  {
  }

  /** The default policy's file. */
  lemma DefaultOutputPath()
    ensures OutputPath("Acceptable Use Policy") == "outputs/policy/acceptable_use_policy.json"
  {
    DefaultStemUnderscored();
    DefaultStemLowered();
    assert FileStem("Acceptable Use Policy") == "acceptable_use_policy";
    DefaultPathJoined();
  }

  lemma DefaultPathJoined()
    ensures OutputDir + "acceptable_use_policy" + OutputExt == "outputs/policy/acceptable_use_policy.json"
  {
  }

  lemma DefaultStemUnderscored()
    ensures ReplaceChar("Acceptable Use Policy", ' ', '_') == "Acceptable_Use_Policy"
  {
  }

  lemma DefaultStemLowered()
    ensures Lower("Acceptable_Use_Policy") == "acceptable_use_policy"
  {
  }


  // ---------------------------------------------------------------------------
  // `run`

  /** How one run ends: the object written and where, or the exception that escaped. */
  datatype Outcome = Saved(path: string, obj: Json) | Failed(failure: Failure)

  /** `run` after the model call: try the strict parse and validation; on any failure
      repair the reply once and validate the repair, which must pass; then save under
      the path derived from the display name. Whatever is saved has passed
      validation, in the strict stage or in the mandatory re-validation; a failing
      repair or re-validation saves nothing. The prompt and the model call are not
      modelled: `reply` is what the model returned. */
  method Run(reply: string, policyName: string, parse: string -> Option<Json>, valid: Json -> bool)
    returns (outcome: Outcome)
    ensures outcome.Saved? ==> valid(outcome.obj) && outcome.path == OutputPath(policyName)
    ensures outcome.Saved? <==>
      ParseAndValidate(reply, parse, valid).Ok? ||
      (TryAutofix(reply, policyName, parse).Ok? && valid(TryAutofix(reply, policyName, parse).value))
    ensures ParseAndValidate(reply, parse, valid).Ok? ==>
      outcome.Saved? && outcome.obj == ParseAndValidate(reply, parse, valid).value
    ensures ParseAndValidate(reply, parse, valid).Err? && TryAutofix(reply, policyName, parse).Ok? ==>
      if valid(TryAutofix(reply, policyName, parse).value)
      then outcome.Saved? && outcome.obj == TryAutofix(reply, policyName, parse).value
      else outcome == Failed(SchemaFailure(TryAutofix(reply, policyName, parse).value))
    ensures ParseAndValidate(reply, parse, valid).Err? && TryAutofix(reply, policyName, parse).Err? ==>
      outcome == Failed(TryAutofix(reply, policyName, parse).error)
  {
    var obj: Json;
    var strict := ParseAndValidate(reply, parse, valid);
    if strict.Ok? {
      obj := strict.value;
    } else {
      var fixed := TryAutofix(reply, policyName, parse);
      if fixed.Err? {
        return Failed(fixed.error);
      }
      if !valid(fixed.value) {
        return Failed(SchemaFailure(fixed.value));
      }
      obj := fixed.value;
    }
    outcome := Saved(OutputPath(policyName), obj);
  }

  /** A reply that decodes under neither normalisation ends the run with the repair
      path's decode error, and nothing is saved. */
  method UndecodableReplySavesNothing(reply: string, policyName: string, parse: string -> Option<Json>, valid: Json -> bool)
    returns (outcome: Outcome)
    requires parse(NormalizeStrict(reply)).None? && parse(NormalizeAutofix(reply)).None?
    ensures outcome == Failed(DecodeFailure(NormalizeAutofix(reply)))
  {
    UndecodableFailsTwice(reply, policyName, parse, valid);
    outcome := Run(reply, policyName, parse, valid);
  }

  /** The default run end to end: a fenced reply whose object uses
      the policy title as a key decodes, fails the schema, is reshaped, passes the
      re-validation and is saved as `acceptable_use_policy.json`. */
  method TitleAsKeyScenario(reply: string, controls: Json, parse: string -> Option<Json>, valid: Json -> bool)
    returns (outcome: Outcome)
    requires StartsWith(Strip(reply, Whitespace), Fence)
    requires parse(NormalizeStrict(reply)) == Some(JObj(map["Acceptable Use Policy" := JStr("desc"), Controls := controls]))
    requires !valid(JObj(map["Acceptable Use Policy" := JStr("desc"), Controls := controls]))
    requires valid(JObj(map[PolicyName := JStr("Acceptable Use Policy"), Controls := controls]))
    ensures outcome == Saved("outputs/policy/acceptable_use_policy.json",
                             JObj(map[PolicyName := JStr("Acceptable Use Policy"), Controls := controls]))
  {
    var original := JObj(map["Acceptable Use Policy" := JStr("desc"), Controls := controls]);
    var expected := JObj(map[PolicyName := JStr("Acceptable Use Policy"), Controls := controls]);
    assert ParseAndValidate(reply, parse, valid) == Err(SchemaFailure(original));
    NormalizationsAgreeBehindFence(reply);
    RepairTitleAsKeyExample("desc", controls, "Acceptable Use Policy");
    assert NormalizeAutofix(reply) == NormalizeStrict(reply);
    assert Repair(original.fields, "Acceptable Use Policy") == expected.fields;
    assert RepairDecoded(original, "Acceptable Use Policy") == Ok(expected);
    assert TryAutofix(reply, "Acceptable Use Policy", parse) == Ok(expected);
    DefaultOutputPath();
    outcome := Run(reply, "Acceptable Use Policy", parse, valid);
  }
}
