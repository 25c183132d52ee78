# Policy-rules JSON recovery, modelled in Dafny

The repository asks a local LLM to turn a free-text policy document into a
"policy rules" JSON object. It then recovers that object from the model's reply
along a fixed path, and this project models that path:

1. **Strict parse and validate** (`parse_and_validate`). The reply is
   normalised: whitespace is trimmed, and only behind an opening ```` ``` ````
   fence are the backticks and a `json` tag removed. The text is then decoded
   and validated against the policy-rules schema. A decode failure raises an
   `LLMError` that quotes the first 300 characters of the normalised text.
2. **Title-as-key repair** (`try_autofix_missing_policy_name`). The reply goes
   through the repair path's own normalisation, which always strips backticks
   and always drops a leading `json`. It is then decoded and reshaped:
   - an object that already has `policy_name`, or has no `controls`, is kept;
   - with exactly one other string-valued key, that key's NAME becomes
     `policy_name` beside the original `controls`;
   - otherwise the caller's fallback name is added as `policy_name`.
3. **Orchestration** (`run`). The strict stage runs first. On any failure
   the repair runs once, and its result must pass a second validation. The
   object is saved to `outputs/policy/<name, spaces to underscores,
   lower-cased>.json`.

Modules:
- `JsonModel` (json_model.dfy): decoded JSON values, plus Option and Result.
- `PyStrings` (py_strings.dfy): `str.strip`, `startswith`, `in`, `lower` and `replace`, with Python's
  meaning, restricted to ASCII.
- `LlmUtils` (llm_utils.dfy): the strict stage.
- `PolicyExtract` (policy_extract.dfy): the repair, the output path and `run`.

The JSON decoder (`json.loads`) and the schema validator (`jsonschema.validate`
with the policy-rules schema) are library code. Every member that uses them
takes them as parameters:
- `parse: string -> Option<Json>` gives `None` where decoding raises;
- `valid: Json -> bool` gives `false` where validation raises.

Each property holds for any `parse` and `valid` that satisfy that member's
`requires`. Those clauses name each decoder or validator fact assumed, such as
"the normalised text does not decode". The model's reply is a parameter of `Run`.

The two normalisations are NOT the same function. They agree exactly when the
trimmed reply opens a fence, or when it has no backtick at either end and does
not begin with `json` (`NormalizationsAgreeExactly`). For example, `json {}` and
`{}` followed by three backticks come out differently. The duplicated code reads
as if meant to match, but this model follows the code as written.

## Model

| member | source | states |
|---|---|---|
| PyStrings.Strip | src/llm_utils.py:65-68 | `str.strip(chars)`: the result is a contiguous slice of the input; everything cut before and after it is in the stripped set; what remains neither starts nor ends with a stripped character |
| PyStrings.StripBetween | src/llm_utils.py:65-68 | any cut points meeting that description give exactly `strip`'s result (it is uniquely determined) |
| PyStrings.StripFixedPoint | src/llm_extract_policy_rules.py:15 | `strip` leaves a string unchanged iff neither end is in the set, and otherwise makes it strictly shorter |
| PyStrings.StripPadded | src/llm_utils.py:68 | padding made only of stripped characters around a non-empty string whose ends are kept is exactly what `strip` removes |
| PyStrings.StripIdempotent | src/llm_extract_policy_rules.py:15 | stripping a stripped string changes nothing |
| PyStrings.StartsWith | src/llm_utils.py:67 | `startswith(prefix)` holds iff the prefix occurs at index 0 |
| PyStrings.PrefixIsSubstring | src/llm_extract_policy_rules.py:20 | `sub in s` for strings: the empty string and every prefix occur, and nothing longer than `s` does |
| PyStrings.Lower | src/llm_extract_policy_rules.py:50 | `lower()` keeps the length, maps each upper-case ASCII letter to its lower-case form (code point + 32), keeps every other character, and leaves no upper-case ASCII letter |
| PyStrings.ReplaceChar | src/llm_extract_policy_rules.py:50 | `replace(a, b)` keeps the length, puts `b` at every position that held `a`, keeps every other character, and (when `a` ≠ `b`) leaves no `a` |
| LlmUtils.NormalizeStrict | src/llm_utils.py:65-70 | the strict normalisation's result is always a contiguous substring of the reply |
| LlmUtils.StrictWithoutFence | src/llm_utils.py:65-67 | with no opening fence after trimming, the normalised text is exactly the trimmed reply: no backtick or tag removal |
| LlmUtils.StrictFenceBranch | src/llm_utils.py:67-70 | behind a fence all edge backticks go (the body neither starts nor ends with one); the tag is dropped only when the body starts with `json`, exactly 4 characters, then whitespace is trimmed |
| LlmUtils.FencedBlockNormalizes | src/llm_utils.py:65-70 | a reply written as an opening fence tagged `json`, a body line and a closing fence normalises to exactly the body, for every non-empty body without whitespace at its ends |
| LlmUtils.FencedReplyExample | src/llm_utils.py:67-70 | the fenced reply of `{}` normalises to `{}` |
| LlmUtils.Excerpt | src/llm_utils.py:75 | `text[:300]` is a prefix of the text of length min(300, its length) |
| LlmUtils.ParseAndValidate | src/llm_utils.py:63-78 | success iff the normalised text decodes and the value validates; on success the value is exactly the decoded one; an undecodable reply fails with the quoting message and never reaches validation; a rejected value fails with that value |
| LlmUtils.ParseFailureQuotesReply | src/llm_utils.py:72-75 | a parse failure's message is the fixed prefix plus at most 300 leading characters of the normalised text, and that excerpt is a contiguous piece of the reply |
| PolicyExtract.NormalizeAutofix | src/llm_extract_policy_rules.py:15-17 | the repair path's normalised text is always a contiguous substring of the reply |
| PolicyExtract.AutofixBranches | src/llm_extract_policy_rules.py:15-17 | with no fence required, every edge backtick goes (the body neither starts nor ends with one); the tag is dropped only when the body starts with `json`, exactly 4 characters, then whitespace is trimmed; otherwise the body is the result |
| PolicyExtract.NormalizationsAgreeBehindFence | src/llm_extract_policy_rules.py:15-17 | both normalisations give the same text whenever the trimmed reply opens a fence |
| PolicyExtract.NormalizationsAgreeExactly | src/llm_extract_policy_rules.py:15-17 | the two normalisations agree iff the trimmed reply opens a fence, or has no edge backtick and does not begin with `json` |
| PolicyExtract.BareTagDiverges | src/llm_extract_policy_rules.py:15-17 | for a reply `json <body>` with no fence, where the body is non-empty with no whitespace or backtick at either end, the strict copy keeps the whole text while the repair copy returns just the body |
| PolicyExtract.ClosingFenceDiverges | src/llm_extract_policy_rules.py:15 | for a reply `<body>` followed by a closing fence but no opening one, where the body is non-empty, has no whitespace or backtick at either end and does not begin with `json`, the strict copy keeps the fence while the repair copy strips it |
| PolicyExtract.NormalizationsDiverge | src/llm_utils.py:65-70 | `json {}` and `{}` followed by a closing fence survive the strict normalisation unchanged but lose the tag or the fence in the repair path |
| PolicyExtract.CandidateKeys | src/llm_extract_policy_rules.py:22 | the candidates are exactly the keys other than `controls` whose value is a string |
| PolicyExtract.Repair | src/llm_extract_policy_rules.py:20-33 | an object with `policy_name`, or without `controls`, is returned unchanged; `controls` is never created, removed or altered; no entry other than `policy_name` is added or changed; with `controls` present, `policy_name` becomes a string that is a candidate key's name or the fallback |
| PolicyExtract.RepairReshapes | src/llm_extract_policy_rules.py:21-25 | with `controls` and exactly one candidate key, the result is exactly `{policy_name: <key name>, controls: <original>}`; the candidate's value and every other key are dropped |
| PolicyExtract.RepairFallsBack | src/llm_extract_policy_rules.py:26-29 | with `controls` and zero or several candidates, the result is the input plus `policy_name` set to the fallback |
| PolicyExtract.RepairIdempotent | src/llm_extract_policy_rules.py:20-33 | repairing a repaired object changes nothing |
| PolicyExtract.RepairTitleAsKeyExample | src/llm_extract_policy_rules.py:11-14 | `{"Acceptable Use Policy": d, "controls": c}` becomes `{"policy_name": "Acceptable Use Policy", "controls": c}` |
| PolicyExtract.RepairTwoTitlesExample | src/llm_extract_policy_rules.py:26-29 | two string keys beside `controls` make the fallback name the policy name |
| PolicyExtract.RepairDecoded | src/llm_extract_policy_rules.py:20-22 | an object is repaired; a list or string containing `policy_name` is returned unchanged and any other list or string fails at `items()`; a number, boolean or null always fails at `in` |
| PolicyExtract.TryAutofix | src/llm_extract_policy_rules.py:10-33 | an undecodable reply fails with a decode error (not swallowed); a successful repair keeps the decoded value's `controls` exactly |
| PolicyExtract.NoControlsStaysInvalid | src/llm_extract_policy_rules.py:30-32 | an object without `policy_name` and `controls` passes through unchanged and a schema demanding `controls` rejects it |
| PolicyExtract.UndecodableFailsTwice | src/llm_extract_policy_rules.py:18 | a reply whose two normalisations both fail to decode fails the strict stage with the quoting error (prefix plus excerpt) and the repair stage with a decode error |
| PolicyExtract.FileStem | src/llm_extract_policy_rules.py:50 | the file name part is as long as the name, contains no space and no upper-case ASCII letter, and has `_` exactly where the name has a space or `_`; an upper-case letter becomes its lower-case form and every other character is kept |
| PolicyExtract.OutputPath | src/llm_extract_policy_rules.py:50 | the path is `outputs/policy/`, then the stem, then `.json` |
| PolicyExtract.OutputPathCollides | src/llm_extract_policy_rules.py:50 | two display names give the same output path string iff their stems are equal |
| PolicyExtract.DefaultOutputPath | src/llm_extract_policy_rules.py:50 | "Acceptable Use Policy" is saved at `outputs/policy/acceptable_use_policy.json` |
| PolicyExtract.Run | src/llm_extract_policy_rules.py:35-50 | whatever is saved has passed validation (strict or mandatory re-validation) and goes to `OutputPath(name)`; a strict success saves the strictly parsed value; otherwise the repair's failure or the re-validation's rejection is the outcome and nothing is saved |
| PolicyExtract.UndecodableReplySavesNothing | src/llm_extract_policy_rules.py:40-50 | a reply whose two normalisations both fail to decode ends the run with the repair stage's decode error, and nothing is saved |
| PolicyExtract.TitleAsKeyScenario | src/llm_extract_policy_rules.py:40-50 | a fenced title-as-key reply that decodes but fails the schema is reshaped, re-validated and saved as `outputs/policy/acceptable_use_policy.json` |

## Left out

- `call_model` and `_raise` (src/llm_utils.py:10-61): HTTP transport to the model endpoint. The reply enters `Run` as a parameter.
- `save_json` (src/llm_utils.py:80-83), the prompt and schema file reads, prompt substitution and the final `print`: file and console I/O. `Run` returns the path and object it would write, and does not model the file written or a reload of it.
- `json.loads` and `jsonschema.validate` internals: library code, taken as the parameters `parse` and `valid`. A failure to read the schema file (which the strict stage's `except Exception` would also catch) is not modelled.
- The message of the repair stage's `JSONDecodeError` is not modelled: `DecodeFailure` carries the normalised text instead.
- `JsonModel.Json`: numbers are integers and objects are maps. Floats, duplicate keys and key order are not represented; the candidate-key order only matters when there is exactly one candidate.
- PyStrings.Strip: whitespace is the ASCII part of Python's `str.isspace()`; other Unicode whitespace is not stripped.
- PyStrings.Lower: only ASCII letters are lower-cased; Python's Unicode case mapping (which can change length) is not modelled.
- PolicyExtract.FileStem: its length and no-upper-case guarantees rely on that ASCII-only lower-casing.
- PolicyExtract.OutputPath: the path is a string. `pathlib` normalisation is not modelled, such as collapsing `//` or `.` segments when a name holds `/` or `.`, so two path strings that differ may still name the same file.
- src/generate_synthetic_data.py: random synthetic-data generation with wall-clock times and CSV output, with no invariant beyond producing records.
