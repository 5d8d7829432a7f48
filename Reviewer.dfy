/** The review engine of codereview/reviewer.py: the prompt sent for a
    piece of code, the HTTP request built from the configuration, and the
    decoding of the model's answer into a review result. The HTTP exchange
    and `json.loads` are parameters. */
module Reviewer {
  import opened Wrappers
  import opened Text
  import opened Json

  datatype Severity = Critical | Warning | Info | Style {
    /** The enum member's value. */
    function Value(): string {
      match this
      case Critical => "critical"
      case Warning => "warning"
      case Info => "info"
      case Style => "style"
    }
  }

  /** `Severity(v)`; `None` where Python raises `ValueError`. */
  function SeverityFromValue(v: string): (r: Option<Severity>)
    ensures r.Some? ==> r.value.Value() == v
  {
    if v == "critical" then Some(Critical)
    else if v == "warning" then Some(Warning)
    else if v == "info" then Some(Info)
    else if v == "style" then Some(Style)
    else None
  }

  lemma SeverityValueRoundTrip(s: Severity)
    ensures SeverityFromValue(s.Value()) == Some(s)
  {
  }

  /** Fields are kept as the JSON values the answer held: the source copies
      whatever `get` returns, without conversion. */
  datatype Issue = Issue(
    severity: Severity,
    title: Json,
    description: Json,
    file: Json,
    line: Json,
    suggestion: Json)

  datatype ReviewResult = ReviewResult(
    summary: Json,
    issues: seq<Issue>,
    score: Json,
    filesReviewed: int,
    linesReviewed: int)

  /** `Severity(item.get("severity", "info").lower())`, with `ValueError`
      folded to `Info`. A severity that is not a string has no `lower`. */
  function SeverityOf(item: map<string, Json>): (r: Result<Severity, Raised>)
    ensures r.Failure? <==> "severity" in item && !item["severity"].JString?
    ensures r.Failure? ==> r.error == AttributeError(NoAttribute(item["severity"], "lower"))
    ensures "severity" !in item ==> r == Success(Info)
    ensures "severity" in item && item["severity"].JString? ==>
              forall s: Severity :: Lower(item["severity"].s) == s.Value() ==> r == Success(s)
    ensures r.Success? && r.value != Info ==>
              "severity" in item && Lower(item["severity"].s) == r.value.Value()
  {
    var v := Get(item, "severity", JString("info"));
    if !v.JString? then Failure(AttributeError(NoAttribute(v, "lower")))
    else
      var found := SeverityFromValue(Lower(v.s));
      Success(if found.Some? then found.value else Info)
  }

  /** Matching ignores ASCII case. */
  lemma SeverityIgnoresCase()
    ensures SeverityOf(map["severity" := JString("CRITICAL")]) == Success(Critical)
    ensures SeverityOf(map["severity" := JString("Warning")]) == Success(Warning)
  {
    assert Lower("CRITICAL") == "critical";
    assert Lower("Warning") == "warning";
  }

  /** No trimming: surrounding spaces make the value unknown, hence `Info`. */
  lemma SeverityNotTrimmed()
    ensures SeverityOf(map["severity" := JString(" critical")]) == Success(Info)
    ensures SeverityOf(map["severity" := JString("blocker")]) == Success(Info)
  {
    assert Lower(" critical")[0] == ' ';
    assert Lower("blocker")[0] == 'b';
  }

  /** One element of the `issues` list turned into an `Issue`; an element
      that is not an object has no `get`. */
  function DecodeIssue(item: Json): Result<Issue, Raised> {
    if !item.JObject? then Failure(AttributeError(NoAttribute(item, "get")))
    else
      var f := item.fields;
      match SeverityOf(f)
      case Failure(e) => Failure(e)
      case Success(severity) =>
        Success(Issue(
          severity,
          Get(f, "title", JString("Untitled")),
          Get(f, "description", JString("")),
          Get(f, "file", JString("")),
          Get(f, "line", JNull),
          Get(f, "suggestion", JString(""))))
  }

  /** An issue written out as the JSON object the prompt asks for. */
  function EncodeIssue(i: Issue): Json {
    JObject(map[
      "severity" := JString(i.severity.Value()),
      "title" := i.title,
      "description" := i.description,
      "file" := i.file,
      "line" := i.line,
      "suggestion" := i.suggestion])
  }

  lemma LowerOfValue(s: Severity)
    ensures Lower(s.Value()) == s.Value()
  {
    var v := s.Value();
    assert forall i :: 0 <= i < |v| ==> !('A' <= v[i] <= 'Z');
    assert Lower(v) == v;
  }

  /** Decoding an encoded issue gives it back: every field is copied. */
  lemma IssueRoundTrip(i: Issue)
    ensures DecodeIssue(EncodeIssue(i)) == Success(i)
  {
    LowerOfValue(i.severity);
    SeverityValueRoundTrip(i.severity);
  }

  /** An object without any of the fields gets every default. */
  lemma IssueDefaults()
    ensures DecodeIssue(JObject(map[]))
            == Success(Issue(Info, JString("Untitled"), JString(""), JString(""), JNull, JString("")))
  {
  }

  /** What `for item in data.get("issues", [])` iterates over: the list's
      elements, a string's characters, a dict's keys (strings, which have
      no `get`); other values are not iterable. */
  function IssueEntries(v: Json): Result<seq<Json>, Raised> {
    match v
    case JArray(items) => Success(items)
    case JString(s) => Success(seq(|s|, i requires 0 <= i < |s| => JString([s[i]])))
    case JObject(f) =>
      if f == map[] then Success([]) else Failure(AttributeError(NoAttribute(JString(""), "get")))
    case _ => Failure(TypeError("'" + TypeName(v) + "' object is not iterable"))
  }

  const Fence: string := "```"
  const JsonFence: string := "```json"

  /** The fence handling of `parse_review_response`, on the stripped text:
      `s.split(fence)[1].split("```")[0]`, preferring a "```json" fence. */
  function StripFences(s: string): string {
    if Contains(s, JsonFence) then
      SplitFirstPiece(s, JsonFence);
      Split(Split(s, JsonFence)[1], Fence)[0]
    else if Contains(s, Fence) then
      SplitFirstPiece(s, Fence);
      Split(Split(s, Fence)[1], Fence)[0]
    else s
  }

  lemma JsonFenceIsFence(s: string)
    ensures Contains(s, JsonFence) ==> Contains(s, Fence)
  {
    if Contains(s, JsonFence) {
      var k := Find(s, JsonFence).value;
      assert s[k..k + 3] == s[k..k + 7][..3];
      assert OccursAt(s, Fence, k);
    }
  }

  /** The first piece of a split: the text before the first occurrence,
      or all of it. */
  lemma FirstPiece(x: string, sep: string)
    requires |sep| > 0
    ensures var p := Split(x, sep)[0];
            p == (if Contains(x, sep) then x[..Find(x, sep).value] else x) && !Contains(p, sep)
  {
    SplitFirstPiece(x, sep);
    SplitPiecesFree(x, sep);
  }

  /** Text without any fence is kept unchanged. */
  lemma FencelessUnchanged(s: string)
    requires !Contains(s, Fence)
    ensures StripFences(s) == s
  {
    JsonFenceIsFence(s);
  }

  /** With a "```json" fence, the result is the text after the first such
      fence, cut at the next "```json" and then at the first "```" left in
      that piece; it is a fence-free stretch starting right after the first
      "```json". */
  lemma JsonFenceBody(s: string)
    requires Contains(s, JsonFence)
    ensures var tail := s[Find(s, JsonFence).value + 7..];
            var piece := if Contains(tail, JsonFence) then tail[..Find(tail, JsonFence).value] else tail;
            StripFences(s) == if Contains(piece, Fence) then piece[..Find(piece, Fence).value] else piece
    ensures var k := Find(s, JsonFence).value;
            var r := StripFences(s);
            |r| <= |s| - (k + 7) && r == s[k + 7..k + 7 + |r|] && !Contains(r, Fence)
  {
    var k := Find(s, JsonFence).value;
    var tail := s[k + 7..];
    var piece := Split(tail, JsonFence)[0];
    var r := Split(piece, Fence)[0];
    assert StripFences(s) == r by {
      SplitFirstPiece(s, JsonFence);
    }
    assert |piece| <= |tail| && piece == tail[..|piece|] by {
      FirstPiece(tail, JsonFence);
    }
    assert |r| <= |piece| && r == piece[..|r|] && !Contains(r, Fence) by {
      FirstPiece(piece, Fence);
    }
    assert r == s[k + 7..k + 7 + |r|];
  }

  /** Two "```json" fences that overlap in their backticks leave a single
      backtick: the second fence begins inside the tail of the first. */
  lemma OverlappingJsonFences()
    ensures StripFences("```json````json{}") == "`"
  {
    var s := "```json````json{}";
    assert OccursAt(s, JsonFence, 0);
    FindIsFirst(s, JsonFence, 0);
    var tail := s[7..];
    assert tail == "````json{}";
    assert OccursAt(tail, JsonFence, 1);
    assert tail[0..7][3] == '`' && JsonFence[3] == 'j';
    FindIsFirst(tail, JsonFence, 1);
    var piece := tail[..1];
    assert piece == "`";
    assert !Contains(piece, Fence) by {
      forall j ensures !OccursAt(piece, Fence, j) { }
    }
    JsonFenceBody(s);
  }

  /** With only plain fences, the result is the text after the first fence
      up to the next one, or to the end. */
  lemma PlainFenceBody(s: string)
    requires !Contains(s, JsonFence) && Contains(s, Fence)
    ensures var tail := s[Find(s, Fence).value + 3..];
            StripFences(s) == if Contains(tail, Fence) then tail[..Find(tail, Fence).value] else tail
  {
    var k := Find(s, Fence).value;
    var tail := s[k + 3..];
    SplitFirstPiece(s, Fence);
    FirstPiece(tail, Fence);
    FirstPiece(Split(tail, Fence)[0], Fence);
  }

  /** A reply that is exactly one "```json" block yields the block's body. */
  lemma JsonBlockBody(body: string)
    requires '`' !in body
    ensures StripFences(JsonFence + body + Fence) == body
  {
    var s := JsonFence + body + Fence;
    assert OccursAt(s, JsonFence, 0);
    FindIsFirst(s, JsonFence, 0);
    var tail := s[7..];
    assert tail == body + Fence;
    forall j ensures !OccursAt(tail, JsonFence, j) {
      if 0 <= j < |body| {
        assert tail[j] == body[j];
      }
    }
    forall j | 0 <= j < |body| ensures !OccursAt(tail, Fence, j) {
      assert tail[j] == body[j];
    }
    assert OccursAt(tail, Fence, |body|);
    FindIsFirst(tail, Fence, |body|);
    SplitFirstPiece(s, JsonFence);
    FirstPiece(tail, JsonFence);
    FirstPiece(tail, Fence);
    assert tail[..|body|] == body;
  }

  const FallbackSummary: string := "Failed to parse review response. Raw output below."

  /** The result for text that is not valid JSON. */
  function FallbackResult(text: string): (r: ReviewResult)
    ensures |r.issues| == 1 && r.issues[0].severity == Info && r.issues[0].title == JString("Raw LLM Output")
    ensures r.issues[0].description.JString?
    ensures var d := r.issues[0].description.s;
            |d| == (if |text| <= 500 then |text| else 500) && d == text[..|d|]
    ensures r.summary == JString(FallbackSummary) && r.score == JInt(0)
  {
    ReviewResult(
      JString(FallbackSummary),
      [Issue(Info, JString("Raw LLM Output"), JString(Take(text, 500)), JString(""), JNull, JString(""))],
      JInt(0), 0, 0)
  }

  /** What `parse_review_response(raw)` returns or raises, given what
      `json.loads` makes of the fence-processed text. */
  function ReviewResponse(raw: string, loads: string -> Option<Json>): Result<ReviewResult, Raised> {
    var text := StripFences(Strip(raw));
    match loads(text)
    case None => Success(FallbackResult(text))
    case Some(data) =>
      if !data.JObject? then Failure(AttributeError(NoAttribute(data, "get")))
      else
        match IssueEntries(Get(data.fields, "issues", JArray([])))
        case Failure(e) => Failure(e)
        case Success(items) =>
          match MapAll(items, DecodeIssue)
          case Failure(e) => Failure(e)
          case Success(issues) =>
            Success(ReviewResult(
              Get(data.fields, "summary", JString("No summary provided.")),
              issues,
              Get(data.fields, "score", JInt(0)),
              0, 0))
  }

  /** `parse_review_response`: the issues are collected by a loop. */
  method ParseReviewResponse(raw: string, loads: string -> Option<Json>) returns (r: Result<ReviewResult, Raised>)
    ensures r == ReviewResponse(raw, loads)
  {
    var text := Strip(raw);
    text := StripFences(text);
    var decoded := loads(text);
    if decoded.None? {
      return Success(FallbackResult(text));
    }
    var data := decoded.value;
    if !data.JObject? {
      return Failure(AttributeError(NoAttribute(data, "get")));
    }
    var entries := IssueEntries(Get(data.fields, "issues", JArray([])));
    if entries.Failure? {
      return Failure(entries.error);
    }
    var issues := DecodeAll(entries.value);
    if issues.Failure? {
      return Failure(issues.error);
    }
    r := Success(ReviewResult(
      Get(data.fields, "summary", JString("No summary provided.")),
      issues.value,
      Get(data.fields, "score", JInt(0)),
      0, 0));
  }

  /** The loop of `parse_review_response` that builds one `Issue` per
      entry, stopping at the first entry that raises. */
  method DecodeAll(items: seq<Json>) returns (r: Result<seq<Issue>, Raised>)
    ensures r == MapAll(items, DecodeIssue)
  {
    var issues: seq<Issue> := [];
    for i := 0 to |items|
      invariant MapAll(items[..i], DecodeIssue) == Success(issues)
    {
      assert items[..i + 1][..i] == items[..i];
      var issue := DecodeIssue(items[i]);
      if issue.Failure? {
        MapAllFailureStays(items, DecodeIssue, i + 1);
        return Failure(issue.error);
      }
      issues := issues + [issue.value];
    }
    assert items[..|items|] == items;
    r := Success(issues);
  }

  /** A whole result written out as the JSON object the prompt asks for. */
  function EncodeResult(r: ReviewResult): Json {
    JObject(map[
      "summary" := r.summary,
      "issues" := JArray(EncodeIssues(r.issues)),
      "score" := r.score])
  }

  function EncodeIssues(issues: seq<Issue>): (items: seq<Json>)
    ensures |items| == |issues|
    ensures forall i :: 0 <= i < |issues| ==> items[i] == EncodeIssue(issues[i])
  {
    seq(|issues|, i requires 0 <= i < |issues| => EncodeIssue(issues[i]))
  }

  lemma {:induction false} DecodeEncodedIssues(issues: seq<Issue>)
    ensures MapAll(EncodeIssues(issues), DecodeIssue) == Success(issues)
    decreases |issues|
  {
    if issues != [] {
      var items := EncodeIssues(issues);
      var init := issues[..|issues| - 1];
      DecodeEncodedIssues(init);
      assert items[..|items| - 1] == EncodeIssues(init);
      IssueRoundTrip(issues[|issues| - 1]);
      assert init + [issues[|issues| - 1]] == issues;
    }
  }

  /** The result for an answer that decodes to an object whose issues
      all decode. */
  lemma ObjectResponse(raw: string, loads: string -> Option<Json>, f: map<string, Json>,
                       items: seq<Json>, issues: seq<Issue>)
    requires loads(StripFences(Strip(raw))) == Some(JObject(f))
    requires IssueEntries(Get(f, "issues", JArray([]))) == Success(items)
    requires MapAll(items, DecodeIssue) == Success(issues)
    ensures ReviewResponse(raw, loads)
            == Success(ReviewResult(Get(f, "summary", JString("No summary provided.")), issues,
                                    Get(f, "score", JInt(0)), 0, 0))
  {
  }

  /** An answer that decodes to an encoded result gives that result back,
      summary and score uncoerced and unclamped, with both counters 0. */
  lemma ResponseRoundTrip(r: ReviewResult, raw: string, loads: string -> Option<Json>)
    requires loads(StripFences(Strip(raw))) == Some(EncodeResult(r))
    ensures ReviewResponse(raw, loads) == Success(r.(filesReviewed := 0, linesReviewed := 0))
  {
    var f := EncodeResult(r).fields;
    var items := EncodeIssues(r.issues);
    assert Get(f, "issues", JArray([])) == JArray(items);
    DecodeEncodedIssues(r.issues);
    ObjectResponse(raw, loads, f, items, r.issues);
    assert Get(f, "summary", JString("No summary provided.")) == r.summary;
    assert Get(f, "score", JInt(0)) == r.score;
    assert r.(filesReviewed := 0, linesReviewed := 0) == ReviewResult(r.summary, r.issues, r.score, 0, 0);
  }

  /** One issue per element of the `issues` list, in order. */
  lemma ResponseIssuesPerElement(raw: string, loads: string -> Option<Json>, items: seq<Json>)
    requires loads(StripFences(Strip(raw))).Some?
    requires var data := loads(StripFences(Strip(raw))).value;
             data.JObject? && "issues" in data.fields && data.fields["issues"] == JArray(items)
    requires ReviewResponse(raw, loads).Success?
    ensures |ReviewResponse(raw, loads).value.issues| == |items|
    ensures forall i :: 0 <= i < |items| ==>
              DecodeIssue(items[i]).Success? && ReviewResponse(raw, loads).value.issues[i] == DecodeIssue(items[i]).value
  {
    MapAllOnePerItem(items, DecodeIssue);
  }

  /** A decoded value that is not an object has no `get`. */
  lemma NonObjectAnswerRaises(raw: string, loads: string -> Option<Json>)
    requires loads(StripFences(Strip(raw))).Some? && !loads(StripFences(Strip(raw))).value.JObject?
    ensures ReviewResponse(raw, loads).Failure? && ReviewResponse(raw, loads).error.AttributeError?
  {
  }

  /** An empty object gets the default summary and score and no issues. */
  lemma EmptyAnswerDefaults(raw: string, loads: string -> Option<Json>)
    requires loads(StripFences(Strip(raw))) == Some(JObject(map[]))
    ensures ReviewResponse(raw, loads) == Success(ReviewResult(JString("No summary provided."), [], JInt(0), 0, 0))
  {
    var f: map<string, Json> := map[];
    assert Get(f, "issues", JArray([])) == JArray([]);
    assert MapAll([], DecodeIssue) == Success([]);
  }

  /** REVIEW_PROMPT and DIFF_REVIEW_PROMPT before `{code}`, line by line,
      with `format`'s doubled braces already undone. */
  const CodePromptPrefix: string := Join(CodePromptLines, "")
  const DiffPromptPrefix: string := Join(DiffPromptLines, "")

  /** The opening both templates share; they part right after it. */
  const ReviewerRole: string := "You are an expert code reviewer"

  const CodePromptLines: seq<string> := [
    ReviewerRole + "." + " Review the following code and respond in EXACTLY this JSON format:\n\n",
    "{\n",
    "  \"summary\": \"Brief overall assessment in 1-2 sentences\",\n",
    "  \"score\": <1-10 integer>,\n",
    "  \"issues\": [\n",
    "    {\n",
    "      \"severity\": \"critical|warning|info|style\",\n",
    "      \"title\": \"Short issue title\",\n",
    "      \"description\": \"What\'s wrong and why it matters\",\n",
    "      \"file\": \"filename if known\",\n",
    "      \"line\": null,\n",
    "      \"suggestion\": \"How to fix it (code example if applicable)\"\n",
    "    }\n",
    "  ]\n",
    "}\n\n",
    "Review criteria:\n",
    "- Security vulnerabilities (SQL injection, XSS, secrets in code)\n",
    "- Bugs and logic errors\n",
    "- Performance problems\n",
    "- Error handling gaps\n",
    "- Code style and readability\n",
    "- Best practices violations\n",
    "- Type safety issues\n",
    "- Missing edge cases\n\n",
    "Be specific. Give actionable suggestions. Don\'t be nice \U{2014} be helpful.\n\n",
    "CODE TO REVIEW:\n"]

  const DiffPromptLines: seq<string> := [
    ReviewerRole + " " + "reviewing a pull request diff. Review the changes and respond in EXACTLY this JSON format:\n\n",
    "{\n",
    "  \"summary\": \"Brief overall assessment in 1-2 sentences\",\n",
    "  \"score\": <1-10 integer>,\n",
    "  \"issues\": [\n",
    "    {\n",
    "      \"severity\": \"critical|warning|info|style\",\n",
    "      \"title\": \"Short issue title\",\n",
    "      \"description\": \"What\'s wrong and why it matters\",\n",
    "      \"file\": \"filename\",\n",
    "      \"line\": null,\n",
    "      \"suggestion\": \"How to fix it\"\n",
    "    }\n",
    "  ]\n",
    "}\n\n",
    "Focus on the CHANGES only. Don\'t review unchanged code.\n\n",
    "DIFF:\n"]

  /** The code is cut to this many characters before it is sent. */
  const MaxCodeChars: nat := 8000

  function PromptPrefix(isDiff: bool): string {
    if isDiff then DiffPromptPrefix else CodePromptPrefix
  }

  /** The template of `review_code`, filled with `code[:8000]`. */
  function BuildPrompt(code: string, isDiff: bool): (p: string)
    ensures |p| == |PromptPrefix(isDiff)| + (if |code| <= MaxCodeChars then |code| else MaxCodeChars)
    ensures p[..|PromptPrefix(isDiff)|] == PromptPrefix(isDiff)
    ensures p[|PromptPrefix(isDiff)|..] == code[..|p| - |PromptPrefix(isDiff)|]
  {
    PromptPrefix(isDiff) + Take(code, MaxCodeChars)
  }

  /** The two templates part at their 32nd character, right after the
      reviewer's role. */
  lemma PrefixesDiffer(isDiff: bool)
    ensures |PromptPrefix(isDiff)| > 31
    ensures PromptPrefix(isDiff)[31] == if isDiff then ' ' else '.'
  {
    if isDiff {
      JoinStartsWithFirst(DiffPromptLines, "", 31);
      assert DiffPromptLines[0][31] == ' ';
    } else {
      JoinStartsWithFirst(CodePromptLines, "", 31);
      assert CodePromptLines[0][31] == '.';
    }
  }

  /** The diff template is the one used exactly when `isDiff` holds. */
  lemma TemplateChosenByFlag(code: string, isDiff: bool)
    ensures |BuildPrompt(code, isDiff)| > 31
    ensures BuildPrompt(code, isDiff)[31] == ' ' <==> isDiff
  {
    PrefixesDiffer(isDiff);
    var p := BuildPrompt(code, isDiff);
    assert p[31] == p[..|PromptPrefix(isDiff)|][31];
  }

  /** The two templates differ, so a diff prompt never equals a code
      prompt, whatever code either carries. */
  lemma TemplatesDiffer(diff: string, code: string)
    ensures DiffPromptPrefix != CodePromptPrefix
    ensures BuildPrompt(diff, true) != BuildPrompt(code, false)
  {
    PrefixesDiffer(true);
    PrefixesDiffer(false);
    TemplateChosenByFlag(diff, true);
    TemplateChosenByFlag(code, false);
  }

  /** Code within the limit is sent whole. */
  lemma ShortCodeSentWhole(code: string, isDiff: bool)
    requires |code| <= MaxCodeChars
    ensures BuildPrompt(code, isDiff) == PromptPrefix(isDiff) + code
  {
    var p := BuildPrompt(code, isDiff);
    assert p == p[..|PromptPrefix(isDiff)|] + p[|PromptPrefix(isDiff)|..];
  }

  /** `len(code.split("\n"))`, on the code before truncation. */
  function LinesReviewed(code: string): (n: nat)
    ensures n == CountChar(code, '\n') + 1
  {
    SplitCountsSeparators(code, '\n');
    |Split(code, "\n")|
  }

  /** The request `call_llm` posts. */
  datatype Request = Request(url: string, headers: seq<(string, string)>, body: Json)

  const DefaultBaseUrl: string := "https://api.openai.com/v1"
  const DefaultModel: string := "gpt-3.5-turbo"
  const DefaultMaxTokens: int := 2048
  const DefaultTemperature: real := 0.2

  const CompletionsPath: string := "/chat/completions"

  /** The request built from the prompt and the configuration. A
      `base_url` that is not a string has no `rstrip`. */
  function BuildRequest(prompt: string, config: map<string, Json>): (r: Result<Request, Raised>)
    requires "api_key" in config ==> config["api_key"].JString? || config["api_key"].JNull?
    ensures var base := Get(config, "base_url", JString(DefaultBaseUrl));
            && (r.Failure? <==> !base.JString?)
            && (r.Failure? ==> r.error == AttributeError(NoAttribute(base, "rstrip")))
  {
    var apiKey := Get(config, "api_key", JString(""));
    var baseUrl := Get(config, "base_url", JString(DefaultBaseUrl));
    if !baseUrl.JString? then Failure(AttributeError(NoAttribute(baseUrl, "rstrip")))
    else
      var headers := [("Content-Type", "application/json"), ("User-Agent", "codereview/1.0.0")]
                     + (if Truthy(apiKey) then [("Authorization", "Bearer " + apiKey.s)] else []);
      var body := JObject(map[
        "model" := Get(config, "model", JString(DefaultModel)),
        "messages" := JArray([JObject(map["role" := JString("user"), "content" := JString(prompt)])]),
        "max_tokens" := Get(config, "max_tokens", JInt(DefaultMaxTokens)),
        "temperature" := Get(config, "temperature", JReal(DefaultTemperature))]);
      Success(Request(RStripChar(baseUrl.s, '/') + CompletionsPath, headers, body))
  }

  /** The URL is `base_url` without its trailing slashes, followed by the
      completions path. */
  lemma RequestUrl(prompt: string, config: map<string, Json>)
    requires "api_key" in config ==> config["api_key"].JString? || config["api_key"].JNull?
    requires BuildRequest(prompt, config).Success?
    ensures var base := Get(config, "base_url", JString(DefaultBaseUrl)).s;
            var url := BuildRequest(prompt, config).value.url;
            var n := |url| - |CompletionsPath|;
            && 0 <= n <= |base|
            && url == base[..n] + CompletionsPath
            && (n == 0 || base[n - 1] != '/')
            && forall i :: n <= i < |base| ==> base[i] == '/'
  {
  }

  /** The JSON content type is always sent; the `Authorization` header is
      sent exactly when the key is truthy, and carries it. */
  lemma RequestHeaders(prompt: string, config: map<string, Json>)
    requires "api_key" in config ==> config["api_key"].JString? || config["api_key"].JNull?
    requires BuildRequest(prompt, config).Success?
    ensures var key := Get(config, "api_key", JString(""));
            var headers := BuildRequest(prompt, config).value.headers;
            && ("Content-Type", "application/json") in headers
            && ("User-Agent", "codereview/1.0.0") in headers
            && (Truthy(key) ==> ("Authorization", "Bearer " + key.s) in headers)
            && (!Truthy(key) ==> forall i :: 0 <= i < |headers| ==> headers[i].0 != "Authorization")
  {
    var headers := BuildRequest(prompt, config).value.headers;
    assert headers[0].0 != "Authorization" && headers[1].0 != "Authorization" by {
      assert |headers[0].0| == 12 && |headers[1].0| == 10;
    }
  }

  /** The body carries the prompt as the single user message, and the
      defaults for anything the configuration leaves out. */
  lemma RequestBody(prompt: string, config: map<string, Json>)
    requires "api_key" in config ==> config["api_key"].JString? || config["api_key"].JNull?
    requires BuildRequest(prompt, config).Success?
    ensures var body := BuildRequest(prompt, config).value.body;
            && body.JObject?
            && body.fields.Keys == {"model", "messages", "max_tokens", "temperature"}
            && body.fields["messages"] == JArray([JObject(map["role" := JString("user"), "content" := JString(prompt)])])
            && ("model" !in config ==> body.fields["model"] == JString(DefaultModel))
            && ("max_tokens" !in config ==> body.fields["max_tokens"] == JInt(DefaultMaxTokens))
            && ("temperature" !in config ==> body.fields["temperature"] == JReal(DefaultTemperature))
            && ("model" in config ==> body.fields["model"] == config["model"])
            && ("max_tokens" in config ==> body.fields["max_tokens"] == config["max_tokens"])
            && ("temperature" in config ==> body.fields["temperature"] == config["temperature"])
  {
  }

  /** What `call_llm` returns or raises: the request is built, then
      posted by `send`, which yields the message content of the answer or
      the message of the `RuntimeError` it raises. */
  function Answer(prompt: string, config: map<string, Json>, send: Request -> Result<string, string>): Result<string, Raised>
    requires "api_key" in config ==> config["api_key"].JString? || config["api_key"].JNull?
  {
    match BuildRequest(prompt, config)
    case Failure(e) => Failure(e)
    case Success(request) =>
      match send(request)
      case Failure(message) => Failure(RuntimeError(message))
      case Success(content) => Success(content)
  }

  /** What `review_code` returns or raises. */
  function Review(code: string, config: map<string, Json>, isDiff: bool,
                  send: Request -> Result<string, string>, loads: string -> Option<Json>): Result<ReviewResult, Raised>
    requires "api_key" in config ==> config["api_key"].JString? || config["api_key"].JNull?
  {
    match Answer(BuildPrompt(code, isDiff), config, send)
    case Failure(e) => Failure(e)
    case Success(raw) =>
      match ReviewResponse(raw, loads)
      case Failure(e) => Failure(e)
      case Success(result) => Success(result.(linesReviewed := LinesReviewed(code)))
  }

  /** `call_llm` posts one request and nothing else reaches the exchange:
      two calls that build the same request, against exchanges that answer
      that request alike, have the same outcome, whatever the prompts,
      configurations or other answers. A request that cannot be built is
      never posted, so then the outcome does not depend on the exchange
      at all. */
  lemma AnswerDependsOnRequest(prompt1: string, config1: map<string, Json>, send1: Request -> Result<string, string>,
                               prompt2: string, config2: map<string, Json>, send2: Request -> Result<string, string>)
    requires "api_key" in config1 ==> config1["api_key"].JString? || config1["api_key"].JNull?
    requires "api_key" in config2 ==> config2["api_key"].JString? || config2["api_key"].JNull?
    requires BuildRequest(prompt1, config1) == BuildRequest(prompt2, config2)
    requires BuildRequest(prompt1, config1).Success? ==>
               send1(BuildRequest(prompt1, config1).value) == send2(BuildRequest(prompt1, config1).value)
    ensures Answer(prompt1, config1, send1) == Answer(prompt2, config2, send2)
  {
  }

  /** Whatever `call_llm` or the decoding raises escapes; otherwise the
      decoded answer comes back with the number of lines of the code,
      counted before truncation, and nothing else changed. */
  lemma ReviewOutcomes(code: string, config: map<string, Json>, isDiff: bool,
                       send: Request -> Result<string, string>, loads: string -> Option<Json>)
    requires "api_key" in config ==> config["api_key"].JString? || config["api_key"].JNull?
    ensures var a := Answer(BuildPrompt(code, isDiff), config, send);
            var r := Review(code, config, isDiff, send, loads);
            && (a.Failure? ==> r == Failure(a.error))
            && (a.Success? ==>
                  var parsed := ReviewResponse(a.value, loads);
                  && (parsed.Failure? ==> r == parsed)
                  && (parsed.Success? ==>
                        r == Success(parsed.value.(linesReviewed := CountChar(code, '\n') + 1))))
  {
  }

  /** `review_code` */
  method ReviewCode(code: string, config: map<string, Json>, isDiff: bool,
                    send: Request -> Result<string, string>, loads: string -> Option<Json>)
    returns (r: Result<ReviewResult, Raised>)
    requires "api_key" in config ==> config["api_key"].JString? || config["api_key"].JNull?
    ensures r == Review(code, config, isDiff, send, loads)
  {
    var prompt := BuildPrompt(code, isDiff);
    var raw := Answer(prompt, config, send);
    if raw.Failure? {
      return Failure(raw.error);
    }
    var parsed := ParseReviewResponse(raw.value, loads);
    if parsed.Failure? {
      return parsed;
    }
    var result := parsed.value;
    result := result.(linesReviewed := LinesReviewed(code));
    r := Success(result);
  }
}
