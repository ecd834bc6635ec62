/**
 * The verdict handling of `AIValidator`: the prompt sent to the local model,
 * the recovery of a JSON object from its reply, and the clean-up of that object
 * into a verdict. The HTTP exchange, `json.loads`, `float` of a string and `str`
 * of a non-string value are foreign and arrive as inputs.
 */
module AiValidator {
  import opened Wrappers
  import opened Text
  import opened Numbers

  /** A value as `json.loads` returns it; an object is a dictionary, so a repeated key keeps one value. */
  datatype Json =
    | JNull
    | JBool(b: bool)
    | JNumber(n: real)
    | JString(s: string)
    | JArray(items: seq<Json>)
    | JObject(fields: map<string, Json>)

  /** What the POST to the model server produced: an exception, or the reply's `response` text. */
  datatype Reply = Failure(message: string) | Success(response: string)

  /** The exceptions the parse step of `validate` can catch. */
  datatype ParseError =
    | NoJson(cleaned: string)       // the ValueError raised by `_extract_json`
    | BadBlock(block: string)       // the `{...}` block is not JSON either
    | NotObject(value: Json)        // `.get` on a value that is not a dictionary
    | BadConfidence(value: Json)    // `float` of the confidence raised

  /** The foreign functions the validator calls. */
  datatype Env = Env(
    loads: string -> Option<Json>,       // `json.loads`, None for a JSONDecodeError
    parseFloat: string -> Option<real>,  // `float` of a string, None for a ValueError
    render: Json -> string,              // `str` of a value that is not a string
    describe: ParseError -> string)      // the text of a caught parse exception

  datatype Verdict = Verdict(sameEntity: bool, confidence: real, reason: string)

  /** The dictionary `validate` returns. */
  datatype Validation = Validation(prompt: string, rawResponse: string, parsed: Verdict)

  // ---------------------------------------------------------------------
  // The prompt
  // ---------------------------------------------------------------------

  const PromptHead: string := "Same Australian business entity?\n"

  const Instructions: string :=
    "Ignore: Pty Ltd / Ltd / Limited / Holdings / Group / state codes / punctuation.\n"
    + "Be conservative.\n"
    + "Reply ONLY with JSON: "

  /** The reply format, whose three keys the verdict is read from. */
  const ReplyFormat: string := "{\"same_entity\":true/false,\"confidence\":0.0-1.0,\"reason\":\"brief\"}"

  function NameLine(tag: char, name: string): (r: string)
    ensures |r| == |name| + 6 && r[4..4 + |name|] == name && r[4 + |name|] == '"'
  {
    [tag] + ": \"" + name + "\"\n"
  }

  /** `_build_prompt`: a fixed header, a line quoting each name, and the fixed instructions and reply format. */
  function BuildPrompt(a: string, b: string): (r: string)
    ensures |r| == |PromptHead| + |a| + |b| + 12 + |Instructions| + |ReplyFormat|
    ensures r[..|PromptHead|] == PromptHead
    ensures StartsAt(r, |PromptHead|, NameLine('A', a))
    ensures StartsAt(r, |PromptHead| + |a| + 6, NameLine('B', b))
    ensures EndsWith(r, ReplyFormat)
  {
    Layout(PromptHead, NameLine('A', a), NameLine('B', b), Instructions, ReplyFormat);
    PromptHead + NameLine('A', a) + NameLine('B', b) + Instructions + ReplyFormat
  }

  /** Where each part of a concatenation of five strings sits. */
  lemma Layout(h: string, x: string, y: string, z: string, t: string)
    ensures var r := h + x + y + z + t;
      && |r| == |h| + |x| + |y| + |z| + |t|
      && r[..|h|] == h
      && StartsAt(r, |h|, x)
      && StartsAt(r, |h| + |x|, y)
      && EndsWith(r, t)
  {
    var r := h + x + y + z + t;
    assert r[..|h|] == h;
    assert r[|h|..|h| + |x|] == x;
    assert r[|h| + |x|..|h| + |x| + |y|] == y;
    assert r[|r| - |t|..] == t;
  }

  predicate NoQuote(s: string) { forall k :: 0 <= k < |s| ==> s[k] != '"' }

  /** A slice of a literal found at `i` is the same slice of the text, shifted by `i`. */
  lemma SliceAt(r: string, i: nat, w: string, j: nat, k: nat)
    requires StartsAt(r, i, w) && j <= k <= |w|
    ensures r[i + j..i + k] == w[j..k]
  {
    forall q | i + j <= q < i + k ensures r[q] == w[q - i] {
      assert w[q - i] == r[i..i + |w|][q - i];
    }
  }

  /** The names can be read back from the prompt when the first contains no double quote. */
  lemma PromptDeterminesNames(a: string, b: string, a2: string, b2: string)
    requires NoQuote(a) && NoQuote(a2)
    requires BuildPrompt(a, b) == BuildPrompt(a2, b2)
    ensures a == a2 && b == b2
  {
    if |a| < |a2| {
      PromptCharAfterName(a, b, a2, b2);
    } else if |a2| < |a| {
      PromptCharAfterName(a2, b2, a, b);
    } else {
      PromptSameLengthNames(a, b, a2, b2, BuildPrompt(a, b));
    }
  }

  /** Names of the same length sit at the same places. */
  lemma PromptSameLengthNames(a: string, b: string, a2: string, b2: string, r: string)
    requires |a| == |a2| && r == BuildPrompt(a, b) == BuildPrompt(a2, b2)
    ensures a == a2 && b == b2
  {
    var h := |PromptHead|;
    SliceAt(r, h, NameLine('A', a), 4, 4 + |a|);
    SliceAt(r, h, NameLine('A', a2), 4, 4 + |a2|);
    var g := h + |a| + 6;
    SliceAt(r, g, NameLine('B', b), 4, 4 + |b|);
    SliceAt(r, g, NameLine('B', b2), 4, 4 + |b2|);
  }

  /** The character after a shorter name is its closing quote, where the longer name has none. */
  lemma PromptCharAfterName(a: string, b: string, a2: string, b2: string)
    requires NoQuote(a2) && |a| < |a2|
    ensures BuildPrompt(a, b) != BuildPrompt(a2, b2)
  {
    var h := |PromptHead|;
    var r, r2 := BuildPrompt(a, b), BuildPrompt(a2, b2);
    var la, la2 := NameLine('A', a), NameLine('A', a2);
    assert r[h + 4 + |a|] == la[4 + |a|];
    assert r2[h + 4 + |a|] == la2[4 + |a|] == la2[4..4 + |a2|][|a|];
  }

  // ---------------------------------------------------------------------
  // Markdown fences
  // ---------------------------------------------------------------------

  predicate IsFenceAt(s: string, i: nat) {
    i + 3 <= |s| && s[i] == '`' && s[i + 1] == '`' && s[i + 2] == '`'
  }

  /** No three backticks in a row. */
  predicate FenceFree(s: string) {
    forall i :: 0 <= i < |s| ==> !IsFenceAt(s, i)
  }

  /** `_MD_FENCE_RE.sub("", s)` for "```(?:json)?" with IGNORECASE, scanned left to right. */
  function RemoveFences(s: string): string
    decreases |s|
  {
    if s == [] then []
    else if IsFenceAt(s, 0) then
      if |s| >= 7 && Lower(s[3..7]) == "json" then RemoveFences(s[7..]) else RemoveFences(s[3..])
    else [s[0]] + RemoveFences(s[1..])
  }

  /** Fence removal leaves no fence behind, not even one made of characters around a removed one. */
  lemma {:induction false} RemoveFencesFenceFree(s: string)
    ensures FenceFree(RemoveFences(s))
    decreases |s|
  {
    if s == [] {
    } else if IsFenceAt(s, 0) {
      if |s| >= 7 && Lower(s[3..7]) == "json" {
        RemoveFencesFenceFree(s[7..]);
      } else {
        RemoveFencesFenceFree(s[3..]);
      }
    } else {
      RemoveFencesFenceFree(s[1..]);
      KeptCharFenceFree(s);
    }
  }

  /** The step of `RemoveFencesFenceFree` where the first character is kept. */
  lemma KeptCharFenceFree(s: string)
    requires s != [] && !IsFenceAt(s, 0) && FenceFree(RemoveFences(s[1..]))
    ensures FenceFree(RemoveFences(s))
  {
    var t := RemoveFences(s[1..]);
    var r := RemoveFences(s);
    assert r == [s[0]] + t;
    if s[0] == '`' && |s| > 1 {
      var u := s[1..];
      if u[0] == '`' && |u| > 1 {
        assert !IsFenceAt(u, 0) && u[1] != '`';
        var v := u[1..];
        assert t == [u[0]] + RemoveFences(v);
        assert !IsFenceAt(v, 0);
        assert t[1] == v[0];
      }
    }
    forall i | 0 <= i < |r| ensures !IsFenceAt(r, i) {
      if i > 0 {
        assert !IsFenceAt(t, i - 1);
      }
    }
  }

  /** Text without a fence is left as it is. */
  lemma {:induction false} RemoveFencesKeeps(s: string)
    requires FenceFree(s)
    ensures RemoveFences(s) == s
    decreases |s|
  {
    if s != [] {
      assert !IsFenceAt(s, 0);
      assert FenceFree(s[1..]) by {
        forall i | 0 <= i < |s[1..]| ensures !IsFenceAt(s[1..], i) {
          assert !IsFenceAt(s, i + 1);
        }
      }
      RemoveFencesKeeps(s[1..]);
      assert s == [s[0]] + s[1..];
    }
  }

  /** Removing fences twice is removing them once. */
  lemma RemoveFencesIdempotent(s: string)
    ensures RemoveFences(RemoveFences(s)) == RemoveFences(s)
  {
    RemoveFencesFenceFree(s);
    RemoveFencesKeeps(RemoveFences(s));
  }

  // ---------------------------------------------------------------------
  // The `{...}` block
  // ---------------------------------------------------------------------

  predicate IsBrace(c: char) { c == '{' || c == '}' }

  /** The first brace at or after `i`, or `|s|` when there is none. */
  function NextBrace(s: string, i: nat): (j: nat)
    requires i <= |s|
    ensures i <= j <= |s|
    ensures j < |s| ==> IsBrace(s[j])
    ensures forall k :: i <= k < j ==> !IsBrace(s[k])
    decreases |s| - i
  {
    if i == |s| || IsBrace(s[i]) then i else NextBrace(s, i + 1)
  }

  /** `s[p..q]` matches `\{[^{}]*\}`. */
  predicate IsBlock(s: string, p: nat, q: nat) {
    && p + 2 <= q <= |s|
    && s[p] == '{' && s[q - 1] == '}'
    && (forall k :: p < k < q - 1 ==> !IsBrace(s[k]))
  }

  /** `_JSON_BLOCK_RE.search(s)` from position `p`: the span of the leftmost match. */
  function BlockFrom(s: string, p: nat): Option<(nat, nat)>
    requires p <= |s|
    decreases |s| - p
  {
    if p == |s| then None
    else if s[p] == '{' && NextBrace(s, p + 1) < |s| && s[NextBrace(s, p + 1)] == '}' then
      Some((p, NextBrace(s, p + 1) + 1))
    else BlockFrom(s, p + 1)
  }

  function FirstBlock(s: string): Option<(nat, nat)> {
    BlockFrom(s, 0)
  }

  /** A block starting at `p` ends at the first brace after `p`. */
  lemma BlockEnd(s: string, p: nat, q: nat)
    requires IsBlock(s, p, q)
    ensures NextBrace(s, p + 1) == q - 1
  {
  }

  /** `BlockFrom` finds a block at or after `p`, and there is none between `p` and it. */
  lemma {:induction false} BlockFromSpec(s: string, p: nat)
    requires p <= |s|
    ensures BlockFrom(s, p).Some? ==>
      var (b, e) := BlockFrom(s, p).value;
      p <= b && IsBlock(s, b, e) && forall b': nat, e': nat :: p <= b' < b ==> !IsBlock(s, b', e')
    ensures BlockFrom(s, p).None? ==> forall b': nat, e': nat :: p <= b' ==> !IsBlock(s, b', e')
    decreases |s| - p
  {
    if p < |s| {
      var q := NextBrace(s, p + 1);
      if !(s[p] == '{' && q < |s| && s[q] == '}') {
        BlockFromSpec(s, p + 1);
        forall e': nat | IsBlock(s, p, e') ensures false {
          BlockEnd(s, p, e');
        }
      }
    }
  }

  /** The fallback block is the leftmost span that opens with `{`, closes at the next brace with `}`. */
  lemma FirstBlockIsLeftmost(s: string)
    ensures FirstBlock(s).Some? ==>
      var (b, e) := FirstBlock(s).value;
      IsBlock(s, b, e) && forall b': nat, e': nat :: b' < b ==> !IsBlock(s, b', e')
    ensures FirstBlock(s).None? ==> forall b': nat, e': nat :: !IsBlock(s, b', e')
  {
    BlockFromSpec(s, 0);
  }

  // ---------------------------------------------------------------------
  // `_extract_json` and the verdict
  // ---------------------------------------------------------------------

  /** The response with its fences removed, then stripped. */
  function Cleaned(raw: string): string {
    Strip(RemoveFences(raw))
  }

  /** The cleaned text holds no fence. */
  lemma CleanedFenceFree(raw: string)
    ensures FenceFree(Cleaned(raw))
  {
    var f := RemoveFences(raw);
    RemoveFencesFenceFree(raw);
    var l := StripLeft(f);
    StripLeftSuffix(f);
    var d := |f| - |l|;
    assert forall i :: 0 <= i < |l| ==> l[i] == f[d + i];
    assert FenceFree(l) by {
      forall i | 0 <= i < |l| ensures !IsFenceAt(l, i) {
        assert !IsFenceAt(f, d + i);
      }
    }
    StripRightPrefix(l);
    var c := StripRight(l);
    assert forall i :: 0 <= i < |c| ==> c[i] == l[i];
    assert FenceFree(c) by {
      forall i | 0 <= i < |c| ensures !IsFenceAt(c, i) {
        assert !IsFenceAt(l, i);
      }
    }
  }

  /** `_extract_json`: the whole cleaned text if it parses, else the first `{...}` block. */
  function ExtractJson(raw: string, env: Env): Result<Json, ParseError> {
    var cleaned := Cleaned(raw);
    match env.loads(cleaned)
    case Some(v) => Ok(v)
    case None =>
      match FirstBlock(cleaned)
      case None => Err(NoJson(cleaned))
      case Some((b, e)) =>
        FirstBlockIsLeftmost(cleaned);
        match env.loads(cleaned[b..e])
        case Some(v) => Ok(v)
        case None => Err(BadBlock(cleaned[b..e]))
  }

  /** When the whole cleaned reply parses, its value is used, whatever blocks it contains. */
  lemma ExtractWholeFirst(raw: string, env: Env, v: Json)
    requires env.loads(Cleaned(raw)) == Some(v)
    ensures ExtractJson(raw, env) == Ok(v)
  {
  }

  /** Otherwise the leftmost block decides: its value, or a decode failure naming it. */
  lemma ExtractLeftmostBlock(raw: string, env: Env, b: nat, e: nat)
    requires env.loads(Cleaned(raw)).None?
    requires IsBlock(Cleaned(raw), b, e)
    requires forall b': nat, e': nat :: b' < b ==> !IsBlock(Cleaned(raw), b', e')
    ensures ExtractJson(raw, env) ==
      match env.loads(Cleaned(raw)[b..e])
      case Some(v) => Ok(v)
      case None => Err(BadBlock(Cleaned(raw)[b..e]))
  {
    var c := Cleaned(raw);
    FirstBlockIsLeftmost(c);
    var (b1, e1) := FirstBlock(c).value;
    assert b1 == b;
    BlockEnd(c, b, e);
    BlockEnd(c, b1, e1);
  }

  /** With neither a parse of the whole text nor any block, no JSON is found. */
  lemma ExtractNoBlock(raw: string, env: Env)
    requires env.loads(Cleaned(raw)).None?
    requires forall b': nat, e': nat :: !IsBlock(Cleaned(raw), b', e')
    ensures ExtractJson(raw, env) == Err(NoJson(Cleaned(raw)))
  {
    FirstBlockIsLeftmost(Cleaned(raw));
  }

  function Get(fields: map<string, Json>, key: string, default: Json): Json {
    if key in fields then fields[key] else default
  }

  /** Python truthiness of a JSON value. */
  predicate Truthy(j: Json) {
    match j
    case JNull => false
    case JBool(b) => b
    case JNumber(n) => n != 0.0
    case JString(s) => s != []
    case JArray(items) => items != []
    case JObject(fields) => fields != map[]
  }

  /** `float(value)`: numbers and booleans convert, strings are parsed, anything else raises. */
  function ToFloat(j: Json, env: Env): Option<real> {
    match j
    case JNumber(n) => Some(n)
    case JBool(b) => Some(if b then 1.0 else 0.0)
    case JString(s) => env.parseFloat(s)
    case _ => None
  }

  /** `max(0.0, min(x, 1.0))` with Python's argument order. */
  function Clamp(x: real): (r: real)
    ensures 0.0 <= r <= 1.0
    ensures 0.0 <= x <= 1.0 ==> r == x
    ensures x < 0.0 ==> r == 0.0
    ensures x > 1.0 ==> r == 1.0
  {
    var m := if 1.0 < x then 1.0 else x;
    if m > 0.0 then m else 0.0
  }

  /** `str(value)`. */
  function ToStr(j: Json, env: Env): string {
    if j.JString? then j.s else env.render(j)
  }

  /** The `parsed_clean` dictionary, built key by key in the order Python evaluates them. */
  function CleanVerdict(v: Json, env: Env): Result<Verdict, ParseError> {
    if !v.JObject? then Err(NotObject(v))
    else
      var same := Truthy(Get(v.fields, "same_entity", JBool(false)));
      var conf := Get(v.fields, "confidence", JNumber(0.0));
      match ToFloat(conf, env)
      case None => Err(BadConfidence(conf))
      case Some(x) => Ok(Verdict(same, Round4(Clamp(x)), ToStr(Get(v.fields, "reason", JString("")), env)))
  }

  const ParsingFailed: string := "Parsing failed: "

  const RequestFailed: string := "LLM request failed"

  /** The verdict of the `except` branch of the parse step. */
  function Failed(e: ParseError, env: Env): Verdict {
    Verdict(false, 0.0, ParsingFailed + env.describe(e))
  }

  /** `validate`: every path returns the prompt and a verdict whose confidence lies in [0, 1]. */
  function Validate(a: string, b: string, reply: Reply, env: Env): (r: Validation)
    ensures r.prompt == BuildPrompt(a, b)
    ensures 0.0 <= r.parsed.confidence <= 1.0
    ensures reply.Failure? ==> r.rawResponse == reply.message && r.parsed == Verdict(false, 0.0, RequestFailed)
    ensures reply.Success? ==> r.rawResponse == Strip(reply.response)
  {
    var prompt := BuildPrompt(a, b);
    match reply
    case Failure(message) => Validation(prompt, message, Verdict(false, 0.0, RequestFailed))
    case Success(response) =>
      var raw := Strip(response);
      var parsed :=
        match ExtractJson(raw, env)
        case Err(e) => Failed(e, env)
        case Ok(v) =>
          match CleanVerdict(v, env)
          case Err(e) => Failed(e, env)
          case Ok(verdict) => verdict;
      Validation(prompt, raw, parsed)
  }

  /** A reply with no usable JSON object is a rejection with confidence 0 and a "Parsing failed" reason. */
  lemma ValidateUnparsable(a: string, b: string, response: string, env: Env)
    requires var x := ExtractJson(Strip(response), env); x.Err? || CleanVerdict(x.value, env).Err?
    ensures var v := Validate(a, b, Success(response), env).parsed;
      !v.sameEntity && v.confidence == 0.0 && v.reason[..|ParsingFailed|] == ParsingFailed
  {
  }

  /** A reply whose cleaned text is an object gives its truthy `same_entity`, clamped and rounded confidence and reason. */
  lemma ValidateObject(a: string, b: string, response: string, env: Env, fields: map<string, Json>, x: real)
    requires env.loads(Cleaned(Strip(response))) == Some(JObject(fields))
    requires ToFloat(Get(fields, "confidence", JNumber(0.0)), env) == Some(x)
    ensures Validate(a, b, Success(response), env).parsed ==
      Verdict(Truthy(Get(fields, "same_entity", JBool(false))), Round4(Clamp(x)), ToStr(Get(fields, "reason", JString("")), env))
  {
  }

  /**
   * `same_entity` is read by truthiness: the string "false" counts as approval, and a missing
   * confidence and reason give 0 and "".
   */
  lemma StringFalseApproves(a: string, b: string, response: string, env: Env)
    requires env.loads(Cleaned(Strip(response))) == Some(JObject(map["same_entity" := JString("false")]))
    ensures Validate(a, b, Success(response), env).parsed == Verdict(true, 0.0, "")
  {
    var fields := map["same_entity" := JString("false")];
    assert "confidence" !in fields && "reason" !in fields;
    ValidateObject(a, b, response, env, fields, 0.0);
  }

  /** A missing `same_entity` is a rejection. */
  lemma MissingSameEntityRejects(a: string, b: string, response: string, env: Env, fields: map<string, Json>)
    requires env.loads(Cleaned(Strip(response))) == Some(JObject(fields))
    requires "same_entity" !in fields
    ensures !Validate(a, b, Success(response), env).parsed.sameEntity
  {
  }

  /** A whole reply that parses to something other than an object is not rescued by a block inside it. */
  lemma WholeNonObjectRejects(a: string, b: string, response: string, env: Env, v: Json)
    requires env.loads(Cleaned(Strip(response))) == Some(v) && !v.JObject?
    ensures Validate(a, b, Success(response), env).parsed == Failed(NotObject(v), env)
  {
  }
}
