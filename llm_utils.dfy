/** The strict half of the JSON-recovery path (src/llm_utils.py): normalise a model
    reply, decode it, validate it, and fail with a quoted excerpt when it does not
    decode. The JSON decoder and the schema validator are library calls and enter as
    parameters: `parse` is `json.loads` (None where it raises `JSONDecodeError`) and
    `valid` is `jsonschema.validate` against the policy-rules schema (false where it
    raises `ValidationError`). */
module LlmUtils {
  import opened JsonModel
  import opened PyStrings

  /** The opening of a Markdown code fence. */
  const Fence: string := "```"

  /** The language tag a fence may carry. */
  const LanguageTag: string := "json"

  /** How many characters of the normalised reply a parse error quotes. */
  const ExcerptLimit: nat := 300

  const ParseErrorPrefix: string := "Model did not return valid JSON. First 300 chars: "

  /** The exceptions that can end the recovery path. */
  datatype Failure =
      /** `LLMError` raised by `parse_and_validate` when the reply does not decode. */
    | ParseFailure(message: string)
      /** `JSONDecodeError` from the repair step's own decode, which nothing catches. */
    | DecodeFailure(text: string)
      /** `ValidationError`: the decoded value does not satisfy the schema. */
    | SchemaFailure(instance: Json)
      /** `TypeError`: `"policy_name" in data` on a number, a boolean or null. */
    | MembershipFailure(instance: Json)
      /** `AttributeError`: `data.items()` on a list or a string. */
    | ItemsFailure(instance: Json)

  /** The strict path's reply normalisation: trim whitespace; only when the result
      opens a code fence, strip every leading and trailing backtick and then, when
      the rest begins with `json`, drop those four characters and trim whitespace
      again. Whatever it returns is a contiguous piece of the reply. */
  function NormalizeStrict(payload: string): (text: string)
    ensures IsSubstring(text, payload)
  {
    var t := Strip(payload, Whitespace);
    if StartsWith(t, Fence) then
      var u := Strip(t, Backtick);
      SubstringTransitive(u, t, payload);
      if StartsWith(u, LanguageTag) then
        var v := Strip(u[4..], Whitespace);
        DropIsSubstring(u, 4);
        SubstringTransitive(v, u[4..], u);
        SubstringTransitive(v, u, payload);
        v
      else
        u
    else
      t
  }

  /** The first `min(300, |text|)` characters of `text`, as `text[:300]`. */
  function Excerpt(text: string): (e: string)
    ensures |e| == if |text| < ExcerptLimit then |text| else ExcerptLimit
    ensures StartsWith(text, e)
  {
    if |text| <= ExcerptLimit then text else text[..ExcerptLimit]
  }

  /** `parse_and_validate`: a reply that does not decode fails with a message quoting
      the normalised text and never reaches the validator; a decoded value that the
      validator rejects fails with that value; otherwise the decoded value itself is
      returned, unaltered by validation. */
  function ParseAndValidate(payload: string, parse: string -> Option<Json>, valid: Json -> bool)
    : (r: Result<Json, Failure>)
    ensures r.Ok? <==> parse(NormalizeStrict(payload)).Some? && valid(parse(NormalizeStrict(payload)).value)
    ensures r.Ok? ==> parse(NormalizeStrict(payload)) == Some(r.value) && valid(r.value)
    ensures parse(NormalizeStrict(payload)).None? ==>
      r == Err(ParseFailure(ParseErrorPrefix + Excerpt(NormalizeStrict(payload))))
    ensures parse(NormalizeStrict(payload)).Some? && !valid(parse(NormalizeStrict(payload)).value) ==>
      r == Err(SchemaFailure(parse(NormalizeStrict(payload)).value))
  {
    var text := NormalizeStrict(payload);
    match parse(text)
    case None => Err(ParseFailure(ParseErrorPrefix + Excerpt(text)))
    case Some(data) => if valid(data) then Ok(data) else Err(SchemaFailure(data))
  }

  /** Without an opening fence the normalised text is the whitespace-trimmed reply:
      no backtick and no tag is removed. */
  lemma StrictWithoutFence(payload: string)
    requires !StartsWith(Strip(payload, Whitespace), Fence)
    ensures NormalizeStrict(payload) == Strip(payload, Whitespace)
    ensures |NormalizeStrict(payload)| <= |payload|
  {
  }

  /** Behind an opening fence every leading and trailing backtick goes; the tag is
      dropped only when what remains begins with `json`, and then exactly four
      characters are dropped before whitespace is trimmed. */
  lemma StrictFenceBranch(payload: string)
    requires StartsWith(Strip(payload, Whitespace), Fence)
    ensures var body := Strip(Strip(payload, Whitespace), Backtick);
      && NoEdge(body, Backtick)
      && (StartsWith(body, LanguageTag) ==> NormalizeStrict(payload) == Strip(body[4..], Whitespace))
      && (StartsWith(body, LanguageTag) ==> |NormalizeStrict(payload)| <= |body| - 4)
      && (!StartsWith(body, LanguageTag) ==> NormalizeStrict(payload) == body)
  {
  }

  /** A parse failure's message is the fixed prefix followed by the first
      `min(300, |text|)` characters of the normalised text, and that excerpt is a
      contiguous piece of the model's own reply. */
  lemma ParseFailureQuotesReply(payload: string, parse: string -> Option<Json>, valid: Json -> bool)
    requires parse(NormalizeStrict(payload)).None?
    ensures var r := ParseAndValidate(payload, parse, valid);
      && r.Err? && r.error.ParseFailure?
      && StartsWith(r.error.message, ParseErrorPrefix)
      && var quoted := r.error.message[|ParseErrorPrefix|..];
      && |quoted| <= ExcerptLimit
      && StartsWith(NormalizeStrict(payload), quoted)
      && IsSubstring(quoted, payload)
  {
    var text := NormalizeStrict(payload);
    var quoted := Excerpt(text);
    var message := ParseErrorPrefix + quoted;
    assert message[..|ParseErrorPrefix|] == ParseErrorPrefix;
    assert message[|ParseErrorPrefix|..] == quoted;
    assert OccursAt(quoted, text, 0);
    SubstringTransitive(quoted, text, payload);
  }

  /** A reply the way chat models usually fence it: an opening fence tagged `json`,
      the body on its own line, and a closing fence. */
  function FencedBlock(body: string): string {
    Fence + LanguageTag + "\n" + body + "\n" + Fence
  }

  /** The tagged body between the fences of `FencedBlock(body)`. */
  function TaggedBody(body: string): string {
    LanguageTag + "\n" + body + "\n"
  }

  /** A fenced `json` block normalises to its body, whenever the body is not empty
      and has no whitespace at either end. */
  lemma FencedBlockNormalizes(body: string)
    requires body != [] && NoEdge(body, Whitespace)
    ensures NormalizeStrict(FencedBlock(body)) == body
  {
    FencedBlockTrimmed(body);
    FencedBlockUnfenced(body);
    FencedBlockUntagged(body);
  }

  lemma FencedBlockTrimmed(body: string)
    ensures Strip(FencedBlock(body), Whitespace) == FencedBlock(body)
    ensures StartsWith(FencedBlock(body), Fence)
  {
    var p := FencedBlock(body);
    assert p[0] == '`' && p[|p| - 1] == '`';
    assert NoEdge(p, Whitespace);
    StripFixedPoint(p, Whitespace);
    assert p[..3] == Fence;
  }

  lemma FencedBlockUnfenced(body: string)
    ensures Strip(FencedBlock(body), Backtick) == TaggedBody(body)
    ensures StartsWith(TaggedBody(body), LanguageTag)
  {
    var u := TaggedBody(body);
    assert FencedBlock(body) == Fence + u + Fence;
    assert u[0] == 'j' && u[|u| - 1] == '\n';
    assert NoEdge(u, Backtick);
    StripPadded(Fence, u, Fence, Backtick);
    assert u[..4] == LanguageTag;
  }

  lemma FencedBlockUntagged(body: string)
    requires body != [] && NoEdge(body, Whitespace)
    ensures Strip(TaggedBody(body)[4..], Whitespace) == body
  {
    var w := TaggedBody(body)[4..];
    var n := |body|;
    assert w == "\n" + body + "\n";
    assert w[0] == '\n' && w[n + 1] == '\n';
    assert w[1] == body[0] && w[n] == body[n - 1];
    StripBetween(w, Whitespace, 1, n + 1);
    assert w[1..n + 1] == body;
  }

  /** The fenced reply of an empty object normalises to the bare object. */
  lemma FencedReplyExample()
    ensures NormalizeStrict(FencedBlock("{}")) == "{}"
  {
    FencedBlockNormalizes("{}");
  }
}
