# ai-code-review core, in Dafny

This project models the logic at the centre of the `codereview` command-line
tool. The tool sends source code or a git diff to an LLM chat-completions API
and shows the structured review it gets back. The model covers the parts that
sit between git, HTTP and the terminal:

- **GitUtils** (`codereview/git_utils.py`): `parse_diff` and `_finalize_hunk`.
  The line-by-line tokenizer is a method with a loop. It is proved equal to a
  definition by *sections*: a `diff --git` header plus the lines up to the next
  header. The module also models the post-processing of `git diff --name-only`
  (`get_changed_files`) and `git ls-files` (`get_repo_language_stats`), whose
  counting loop is a method.
- **Reviewer** (`codereview/reviewer.py`):
  - the `Severity`/`Issue`/`ReviewResult` data model;
  - `parse_review_response`, including fence stripping, per-field defaults,
    the fallback result for undecodable text, and the `AttributeError` the
    code raises on values that are not objects or strings;
  - the two prompt templates with the 8000-character truncation and the
    line count of `review_code`;
  - the request that `call_llm` builds (URL, headers, body).
- **Config** (`codereview/config.py`):
  - `_get_api_key` and `validate_api_key`;
  - the `api_key` filtering of `_load_config_file` and `save_config`;
  - `_apply_provider_defaults`, and the merge order of `load_config` and
    `init_config`.

  The environment and the decoded file are inputs, given as maps.
- **Formatter** (`codereview/formatter.py`): the score colour lookup, the score
  bar, the per-severity counting loop, the stable sort by severity rank, and
  the conditional parts of an issue panel.
- **Cli** (`codereview/cli.py`):
  - `apply_overrides`;
  - the priority order of `resolve_code`;
  - the whitespace and `--last` checks of the resolvers;
  - the combined text of `resolve_from_files`.

  What the process would read (stdin, git, files) is a `Host` value. The
  message a resolver prints before exiting is a `Refusal`.
- **Text**, **Json**, **Sorting** and **Wrappers** are support modules:
  - Python's `strip`, `split`, `join`, `find`, ASCII `lower` and `rstrip(c)`;
  - a datatype for decoded JSON, with Python truthiness and `dict.get`;
  - a stable insertion sort standing for `sorted(..., key=...)`;
  - `Option`, `Result`, the exceptions that escape, and `MapAll` (a loop that
    appends results until the first failure).

The source mutates dictionaries in place. The model's methods update a local
map step by step and return it. Each such method is proved equal to a
function, and the properties are proved about that function.

The model keeps these behaviours of the code:

- scores are copied unchanged; nothing clamps them to 0–10;
- severities and text fields are not trimmed;
- `line` is copied whatever its JSON type;
- an issue element that is not an object, or a severity that is not a
  string, raises `AttributeError` instead of being skipped;
- the fallback description is the first 500 characters of the
  *fence-processed* text, not of the raw reply;
- replies are not cached;
- `review_code` accepts blank code; only the CLI resolvers reject it;
- `lines_reviewed` counts the lines of the untruncated code.

## Model

| member | source | states |
|---|---|---|
| GitUtils.FinalizeHunk | codereview/git_utils.py:140-166 | a hunk exists iff the file name is non-empty and the content is non-empty; it carries that file, both starts are 0, and the added/removed lists are the ones given |
| GitUtils.HunkContentSplitsBack | codereview/git_utils.py:162 | the `"\n"`-joined content of a hunk splits back into its lines when no line holds a newline |
| GitUtils.FileNameAfterLastSeparator | codereview/git_utils.py:192-193 | with `" b/"` in the header, the file name is the header's suffix right after an occurrence of `" b/"` and holds none itself (so it follows the last one); without it, the name is `"unknown"` |
| GitUtils.MarkerKinds | codereview/git_utils.py:197-206 | an `@@` line is neither an added nor a removed line, and no line is both |
| GitUtils.MarkedLinesRestore | codereview/git_utils.py:199-204 | putting the marker back on each stored added (removed) line gives exactly the body's `+` (`-`) lines that are not `+++` (`---`), in order |
| GitUtils.SectionsFollowHeaders | codereview/git_utils.py:185-196 | there is one section per `diff --git` line, headed by it, in input order |
| GitUtils.SectionBodiesHeaderFree | codereview/git_utils.py:185-206 | no section body holds a header line: a header always starts a new file |
| GitUtils.Preamble | codereview/git_utils.py:179-206 | the preamble is the lines before the first header (all lines when there is none) |
| GitUtils.SectionsCoverInput | codereview/git_utils.py:184-206 | header and body lines of all sections, in order, are exactly the input lines after the preamble: nothing is lost, duplicated or reordered, and the lines before the first header are dropped |
| GitUtils.ParseDiff | codereview/git_utils.py:169-214 | the state-machine loop returns exactly the hunks of the sections, in section order |
| GitUtils.EmitAppend | codereview/git_utils.py:189-190 | hunks of earlier sections come before hunks of later ones |
| GitUtils.EmitAtMostOnePerSection | codereview/git_utils.py:186-190 | at most one hunk per section |
| GitUtils.EmitIncludesEvery | codereview/git_utils.py:186-190 | every section that has a hunk contributes it |
| GitUtils.EmitOnlyFromSections | codereview/git_utils.py:186-190 | every hunk returned is the hunk of some section |
| GitUtils.HunksAtMostHeaders | codereview/git_utils.py:169-214 | no more hunks than `diff --git` lines |
| GitUtils.NoHeaderNoHunks | codereview/git_utils.py:169-214 | a text without a `diff --git` line yields no hunks |
| GitUtils.EmptyDiffNoHunks | codereview/git_utils.py:178-214 | `""` splits into one empty line and yields no hunks |
| GitUtils.BodyLinesFromInput | codereview/git_utils.py:184-206 | every body line of a section is a line of the input |
| GitUtils.HunkContentRoundTrip | codereview/git_utils.py:162-206 | for every section with a hunk, that hunk is returned, names the header's file, and its content splits back into the section's body |
| GitUtils.NonEmpty | codereview/git_utils.py:137 | the filtered list holds no empty string |
| GitUtils.NonEmptyCounts | codereview/git_utils.py:137 | every non-empty string is kept as often as it occurs |
| GitUtils.NonEmptyAppend | codereview/git_utils.py:137 | the filter keeps order: the kept strings of a concatenation are those of its first part followed by those of its second |
| GitUtils.ChangedFiles | codereview/git_utils.py:124-137 | the changed files are non-empty, hold no newline, and are the non-empty lines of the stripped output with their multiplicities |
| GitUtils.ExtensionAfterLastDot | codereview/git_utils.py:227-228 | a path has an extension iff it holds a `.`; the extension is the lower-cased text after a `.` that contains no further `.` (the last one) |
| GitUtils.TallyAdd | codereview/git_utils.py:229 | one more extension increments its count, or adds it with count 1, and keeps the tally exact |
| GitUtils.FirstSeenAdd | codereview/git_utils.py:229 | one more extension keeps the listed keys in first-seen order (the dict's insertion order), and a new key goes last |
| GitUtils.CountExtensions | codereview/git_utils.py:225-229 | the loop counts every extension exactly; the listed keys are distinct, are exactly the counted extensions, and appear in the order each was first seen |
| GitUtils.RankedTop | codereview/git_utils.py:230 | the ten most frequent entries are distinct, have true non-zero counts and are non-increasing; any extension left out occurs no more often than the tenth |
| GitUtils.RankedTopTies | codereview/git_utils.py:229-230 | among the ten, entries with equal counts appear in first-seen order; an extension left out with the tenth entry's count was first seen after the tenth entry |
| GitUtils.LanguageStats | codereview/git_utils.py:217-230 | at most 10 entries with distinct extensions and true non-zero counts, most frequent first, ties in first-seen order; any extension left out is no more frequent than the last entry, and if equally frequent was first seen after it |
| Reviewer.SeverityFromValue | codereview/reviewer.py:13-17 | `Severity(v)` finds the member whose value is `v`, or none |
| Reviewer.SeverityValueRoundTrip | codereview/reviewer.py:13-17 | every member is found again from its value |
| Reviewer.SeverityOf | codereview/reviewer.py:194-197 | a non-string severity raises `AttributeError`; a missing one gives `Info`; a string is matched after `lower()`; anything not `Info` is such a match |
| Reviewer.SeverityIgnoresCase | codereview/reviewer.py:195 | `"CRITICAL"` and `"Warning"` are recognised |
| Reviewer.SeverityNotTrimmed | codereview/reviewer.py:195-197 | `" critical"` and unknown words fold to `Info`: nothing is trimmed |
| Reviewer.IssueRoundTrip | codereview/reviewer.py:199-206 | an issue written as the JSON object the prompt asks for decodes back to itself: every field is copied |
| Reviewer.IssueDefaults | codereview/reviewer.py:199-206 | an empty object gets `Info`, `"Untitled"`, empty texts and no line |
| Reviewer.JsonFenceIsFence | codereview/reviewer.py:173-176 | a text with a ```` ```json ```` fence also has a ```` ``` ```` fence |
| Reviewer.FencelessUnchanged | codereview/reviewer.py:173-176 | text without fences is kept as it is |
| Reviewer.JsonFenceBody | codereview/reviewer.py:173-174 | with a ```` ```json ```` fence, the result is the text after the first such fence, cut at the next ```` ```json ````, then cut at the first ```` ``` ```` left in that piece; it is a fence-free stretch starting right after the first ```` ```json ```` |
| Reviewer.OverlappingJsonFences | codereview/reviewer.py:173-174 | two ```` ```json ```` fences that share backticks leave a single backtick |
| Reviewer.PlainFenceBody | codereview/reviewer.py:175-176 | with only plain fences, the result is the text after the first fence up to the next one, or to the end |
| Reviewer.JsonBlockBody | codereview/reviewer.py:173-174 | a reply that is one ```` ```json ```` block yields its body |
| Reviewer.FallbackResult | codereview/reviewer.py:180-190 | undecodable text gives the fixed summary, score 0 and one `Info` issue titled `"Raw LLM Output"` whose description is the first 500 characters of that text |
| Reviewer.ParseReviewResponse | codereview/reviewer.py:169-214 | the method with the issue loop computes what `parse_review_response` returns or raises |
| Reviewer.DecodeAll | codereview/reviewer.py:192-206 | the loop appends one decoded issue per element, and stops at the first element that raises |
| Reviewer.DecodeEncodedIssues | codereview/reviewer.py:192-206 | a list of encoded issues decodes back to the same issues |
| Reviewer.ObjectResponse | codereview/reviewer.py:192-214 | for an object answer, summary and score are copied (defaults `"No summary provided."` and 0), the issues are the decoded elements, and both counters are 0 |
| Reviewer.ResponseRoundTrip | codereview/reviewer.py:169-214 | an answer that decodes to an encoded result gives that result back, with both counters 0 |
| Reviewer.ResponseIssuesPerElement | codereview/reviewer.py:193-206 | one issue per element of `issues`, in order, each the decoding of its element |
| Reviewer.NonObjectAnswerRaises | codereview/reviewer.py:193 | a decoded answer that is not an object raises `AttributeError` |
| Reviewer.EmptyAnswerDefaults | codereview/reviewer.py:208-214 | an empty object gives the default summary, no issues and score 0 |
| Reviewer.BuildPrompt | codereview/reviewer.py:219-222 | the prompt is the chosen template's prefix followed by the first 8000 characters of the code |
| Reviewer.PrefixesDiffer | codereview/reviewer.py:41-94 | the two templates differ at their 32nd character |
| Reviewer.TemplatesDiffer | codereview/reviewer.py:41-94 | the code and diff templates differ, so a diff prompt never equals a code prompt, whatever code each carries |
| Reviewer.TemplateChosenByFlag | codereview/reviewer.py:219-222 | the diff template is used exactly when `is_diff` holds |
| Reviewer.ShortCodeSentWhole | codereview/reviewer.py:220-222 | code within 8000 characters is sent whole |
| Reviewer.LinesReviewed | codereview/reviewer.py:227-228 | the line count is the number of `"\n"` in the untruncated code, plus one |
| Reviewer.BuildRequest | codereview/reviewer.py:120-139 | building the request fails exactly when `base_url` is not a string, with the `AttributeError` of `rstrip` |
| Reviewer.RequestUrl | codereview/reviewer.py:121-143 | the URL is `base_url` without its trailing `/`s (what is kept does not end in `/`, what is cut is all `/`), followed by `/chat/completions` |
| Reviewer.RequestHeaders | codereview/reviewer.py:126-132 | the JSON content type and the `codereview/1.0.0` user agent are always sent; `Authorization: Bearer <key>` is sent iff the key is truthy |
| Reviewer.RequestBody | codereview/reviewer.py:122-139 | the body has exactly the keys model, messages, max_tokens and temperature; one user message carries the prompt; `model`, `max_tokens` and `temperature` are copied from the configuration when present and take their defaults when absent |
| Reviewer.AnswerDependsOnRequest | codereview/reviewer.py:118-166 | the outcome of `call_llm` is decided by the one request it builds and the exchange's answer to that request: equal requests answered alike give equal outcomes, and a request that cannot be built fails the same way whatever the exchange |
| Reviewer.ReviewOutcomes | codereview/reviewer.py:217-230 | errors from `call_llm` and from decoding escape; otherwise the decoded result comes back with only `lines_reviewed` set, to the line count of the untruncated code |
| Reviewer.ReviewCode | codereview/reviewer.py:217-230 | the method computes what `review_code` returns or raises |
| Config.ProviderNamesAreTheProviders | codereview/config.py:23-44 | the listed provider names are exactly the keys of `PROVIDER_DEFAULTS` |
| Config.GetApiKey | codereview/config.py:52-74 | a non-blank `CODEREVIEW_API_KEY` wins, stripped; otherwise the key is the stripped non-blank value of the provider's variable, if it has one; otherwise none; a key is never blank or padded |
| Config.OllamaHasNoKey | codereview/config.py:34-38 | without the override, ollama has no key |
| Config.ApiKeyIgnoresConfig | codereview/config.py:52-74 | the key depends on the configuration only through the provider |
| Config.ValidateApiKey | codereview/config.py:77-107 | accepted iff the provider is ollama or the key has at least 10 characters; a missing or empty key gets the message naming the variable, a short key the length message |
| Config.MissingKeyNamesVariable | codereview/config.py:93-99 | groq's message names `GROQ_API_KEY`; an unknown provider's names `API_KEY` |
| Config.LoadConfigFile | codereview/config.py:110-129 | no file gives `{}`; an object loses `api_key` and keeps the rest; anything else raises at `pop` |
| Config.SavedConfig | codereview/config.py:186-188 | the saved dict is the configuration without `api_key` |
| Config.SaveLoadRoundTrip | codereview/config.py:122-188 | what is saved loads back unchanged |
| Config.ProviderDefaultsEffect | codereview/config.py:132-152 | it raises only for an unhashable provider; an unknown provider changes nothing; otherwise only a missing, falsy or generic `base_url`/`model` is replaced by the provider's, and all other keys are kept |
| Config.ProviderDefaultsIdempotent | codereview/config.py:132-152 | applying the provider defaults twice is applying them once |
| Config.ApplyProviderDefaults | codereview/config.py:132-152 | the step-by-step method computes the defaults' effect |
| Config.LoadedConfig | codereview/config.py:155-175 | a loaded configuration has every default key and `api_key` |
| Config.FinishLoad | codereview/config.py:169-173 | the last two steps keep every key and add `api_key` |
| Config.LoadConfig | codereview/config.py:155-175 | the step-by-step method computes what `load_config` returns or raises |
| Config.LoadedKeyFromEnvOnly | codereview/config.py:122-169 | an `api_key` in the file makes no difference to what is loaded |
| Config.LoadedKeyFromEnv | codereview/config.py:169 | the loaded `api_key` is `None` or the stripped value of an environment variable |
| Config.FinishLoadKey | codereview/config.py:169 | the key set last is `None` or read from the environment |
| Config.FinishLoadKeeps | codereview/config.py:169-173 | only `api_key` and, under a non-empty `CODEREVIEW_MODEL`, `model` change |
| Config.LoadPrecedence | codereview/config.py:163-166 | every other key comes from the file if there, else from `DEFAULT_CONFIG` |
| Config.LoadedModelAndUrl | codereview/config.py:163-175 | a non-empty `CODEREVIEW_MODEL` wins for `model`; otherwise `model` is the merged value, replaced by a known provider's default when missing, falsy or generic; `base_url` likewise, with no environment override, and for an unknown provider both keep the merged values |
| Config.InitConfig | codereview/config.py:202-225 | an unknown provider is refused with the list of choices and nothing is saved; otherwise provider, base_url and model come from the provider, the other keys from `DEFAULT_CONFIG`, the key from the environment, and the saved dict is the result without `api_key` |
| Formatter.ColorLookup | codereview/formatter.py:30-35 | the colour is that of a range holding the score, or `"white"` when none does |
| Formatter.ColorLookupFirstRange | codereview/formatter.py:32-34 | when ranges overlap, the first one in table order that holds the score decides the colour |
| Formatter.ScoreColorBands | codereview/formatter.py:22-35 | scores 0–3, 4–6, 7–8 and 9–10 get red, yellow, green and bright green; any other score white |
| Formatter.ScoreBarShape | codereview/formatter.py:38-42 | for a score from 0 to 10 the bar is 10 characters: `score` full blocks, then light shades; outside that range only one kind of block is drawn |
| Formatter.CountsSum | codereview/formatter.py:118-120 | the four counts add up to the number of issues |
| Formatter.AnyCountIffIssues | codereview/formatter.py:122 | some count is non-zero iff there are issues |
| Formatter.CountSeverities | codereview/formatter.py:118-120 | the loop yields, for each of the four severities, its number of issues |
| Formatter.DisplayOrderIsStableSort | codereview/formatter.py:133-136 | the displayed issues are a permutation of the issues, by non-decreasing rank, keeping the input order within each rank |
| Formatter.IssueContentParts | codereview/formatter.py:49-61 | the description comes first; the location only for a truthy file; `:line` only when file and line are both truthy; the suggestion only when truthy |
| Sorting.SortBy | codereview/formatter.py:133-136 | the sorted issues are a permutation of the input, sorted by key |
| Sorting.SortByStable | codereview/formatter.py:133-136 | elements with equal keys keep their input order |
| Sorting.SortByTies | codereview/git_utils.py:230 | an input listed in increasing rank comes out with each run of equal keys in increasing rank |
| Cli.ApplyOverrides | codereview/cli.py:238-254 | the step-by-step method computes the overrides' effect |
| Cli.NoOverridesUnchanged | codereview/cli.py:248-254 | without `--model` and `--provider` the configuration is returned unchanged |
| Cli.OverridesEffect | codereview/cli.py:248-253 | only a `--provider` with no `base_url` in the configuration raises; `--model` sets `model`; `--provider` sets `provider` and a known provider's `base_url`; nothing else changes |
| Cli.OverridesIdempotent | codereview/cli.py:238-254 | applying the same overrides twice is applying them once |
| Cli.ResolveFromFiles | codereview/cli.py:184-211 | the loop computes the combined source or the first refusal |
| Cli.DispatchOrder | codereview/cli.py:223-233 | the sources are tried in order: stdin (asked for, or not a terminal), staged, diff, last, files |
| Cli.NoSourceIffNothingGiven | codereview/cli.py:223-233 | `None` comes back exactly when no source is given |
| Cli.DiffFlagFollowsSource | codereview/cli.py:120-211 | the code is a diff exactly when it comes from git |
| Cli.LastZeroSkipped | codereview/cli.py:229 | `--last 0` is treated as not given |
| Cli.NegativeLastRejected | codereview/cli.py:173-176 | a negative `--last` is refused, after the repository check |
| Cli.GitSourceNeedsRepository | codereview/cli.py:111-115 | a git source outside a repository is refused with the repository message |
| Cli.Headed | codereview/cli.py:200 | each file's entry is its `# File:` header, a newline and its content |
| Cli.FilesCombined | codereview/cli.py:193-211 | the files are used iff each reads and is not blank; then the code is the `"\n\n"`-join of the entries in argument order, the label the `", "`-join of the paths, and it is no diff |
| Cli.FirstUnusableFile | codereview/cli.py:194-209 | otherwise the refusal is that of the first file that fails, and all earlier files were usable |
| Cli.FilesStartWithHeader | codereview/cli.py:200-211 | combined files start with `#` |
| Cli.ResolvedNeverBlank | codereview/cli.py:127-197 | whatever the source, the code passed on is not blank |
| Text.StripSlice | codereview/reviewer.py:171 | `strip()` cuts a slice out of the text, with only whitespace before and after it |
| Text.StripEnds | codereview/reviewer.py:171 | the stripped text neither starts nor ends with whitespace |
| Text.StripEmptyIffAllSpace | codereview/cli.py:127 | `not s.strip()` holds exactly when `s` is empty or all whitespace |
| Text.StripIdempotent | codereview/config.py:63-64 | stripping twice is stripping once |
| Text.Lower | codereview/reviewer.py:195 | `lower()` keeps the length and lowers each character on its own |
| Text.SplitJoin | codereview/git_utils.py:184 | joining the pieces of a split with the separator gives the text back |
| Text.SplitPiecesFree | codereview/git_utils.py:184 | no piece of a split holds the separator |
| Text.SplitFirstPiece | codereview/reviewer.py:174 | the first piece is the text before the first separator |
| Text.SplitLastPiece | codereview/git_utils.py:193 | the last piece is the text after the last separator |
| Text.JoinSplitOneChar | codereview/git_utils.py:162 | splitting a `"\n"`-join gives the parts back when no part holds a newline |
| Text.SplitCountsSeparators | codereview/reviewer.py:227 | `len(s.split("\n"))` is the number of newlines plus one |
| Text.Repeat | codereview/formatter.py:40-41 | `c * n` is `n` copies of `c`, or empty when `n` is not positive |
| Text.Take | codereview/reviewer.py:187 | `s[:n]` is the prefix of length `min(len(s), n)` |
| Text.RStripChar | codereview/reviewer.py:121 | `rstrip("/")` removes exactly the trailing `/`s |
| Text.Decimal | codereview/cli.py:179 | `str(n)` is the decimal numeral of `n`: non-empty digits, most significant first, whose value is `n`, with no leading zero |
| Wrappers.MapAllOnePerItem | codereview/reviewer.py:193-206 | the append loop succeeds iff every element succeeds, with one result per element in order; otherwise it fails with the first failing element's error |

## Left out

- HTTP transport is left out: the session, the retries and backoff, the POST itself, and the parsing of `choices[0].message.content`. The exchange is a function parameter `send`, whose failure stands for any of the `RuntimeError`s of `call_llm`. Their message texts are not modelled.
- `json.loads` is a function parameter. `None` stands for `JSONDecodeError`, and decoded JSON is a datatype.
- Running git (`run_git`, `is_git_repo`, the diff getters) is left out. Their output is an input string or a `Host` field. `get_changed_files` takes the output of whichever `git diff --name-only` the ref selects.
- `get_file_content` is left out, including its UTF-8/Latin-1 fallback. Its outcome is a `FileRead` value.
- Reading and writing `~/.codereview/config.json`, `mkdir` and `chmod` are left out. The file is an optional decoded value. `save_config` is modelled as the dict it writes, without its `IOError` → `ConfigError` path.
- `os.environ` is a map parameter.
- Config.LoadConfigFile: a configuration file that is not valid UTF-8 makes `json.load` raise `UnicodeDecodeError` while reading it, which `codereview/config.py:118-129` does not catch; the model's file input is already decoded, so that escape is not modelled.
- All `rich` rendering, `print_error`/`print_info`/`print_success`, `print_review`'s layout, `sys.exit`, argparse, `build_parser`, `handle_init`, `run_review` and `main` are left out. They print, exit or wire the modelled parts together. Each refusal's printed text is `Cli.Message`.
- Text.Lower: only ASCII letters are lowered. Python's `str.lower` also lowers other scripts. The severity names are ASCII, so the lookup is exact for them.
- Text.Lower: file extensions outside ASCII are compared unlowered.
- `temperature` is a real number that is passed through, never computed with.
- Config.GetApiKey requires a hashable provider. A list or dict provider would make `provider in PROVIDER_DEFAULTS` raise `TypeError`. Both callers would already have raised on it in `_apply_provider_defaults`, or pass a string.
- Reviewer.BuildRequest requires `api_key` to be a string or `None`, the two values `load_config` sets. Formatting any other value into the header is not modelled.
- Formatter.ScoreColor takes an integer score. A non-integer score from the reply (which the code copies unchecked) is not modelled, nor is the `TypeError` that `get_score_bar` would raise on it.
- The severity icons and colour styles of `SEVERITY_STYLES` and the panel title are presentation only.
- Dicts that the source mutates in place (`_apply_provider_defaults`, `apply_overrides`, `load_config`) are modelled as returned map values. Aliasing of the caller's dict is not captured.
- `DiffHunk`'s lists are values, so "emitted lists are copies" holds trivially.
- Formatter.ScoreBar: `codereview/formatter.py:40-41` holds the block characters double-encoded (UTF-8 bytes read as Windows-1252, three code points each). The model draws the intended U+2588 and U+2591, so the 10-character claim of `ScoreBarShape` is about those glyphs; as written, the bar is 30 code points.
- Formatter.SuggestionLabel: `codereview/formatter.py:60` holds the light-bulb emoji double-encoded in the same way. The model uses the intended U+1F4A1.
- Reviewer.AnswerDependsOnRequest: the `send` parameter fails only with `RuntimeError` and succeeds only with a string. The code at `codereview/reviewer.py:141-166` lets other errors escape: other `requests` exceptions such as `MissingSchema` or `InvalidURL`, a `TypeError` from a reply of unexpected shape, and the `AttributeError` that a `null` content raises at `raw.strip()` later.
- `str.format` on the templates: the templates are kept with `{{`/`}}` already turned into `{`/`}`. `{code}` is filled with the code verbatim.
