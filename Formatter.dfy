/** The display logic of codereview/formatter.py that is not layout: the
    score colour and bar, the per-severity counts, the order issues are
    shown in, and which parts of an issue panel appear. */
module Formatter {
  import opened Text
  import opened Json
  import opened Sorting
  import opened Reviewer

  /** SCORE_COLORS: half-open ranges `[lo, hi)` and their colours, in the
      dict's order. */
  const ScoreColors: seq<(int, int, string)> := [
    (0, 4, "bold red"),
    (4, 7, "bold yellow"),
    (7, 9, "bold green"),
    (9, 11, "bold bright_green")]

  /** The colour of the first range holding `score`, or "white". */
  function ColorLookup(table: seq<(int, int, string)>, score: int): (color: string)
    ensures color == "white" || exists i :: 0 <= i < |table| && table[i].2 == color && table[i].0 <= score < table[i].1
    ensures (forall i :: 0 <= i < |table| ==> !(table[i].0 <= score < table[i].1)) ==> color == "white"
    decreases |table|
  {
    if table == [] then "white"
    else if table[0].0 <= score < table[0].1 then table[0].2
    else ColorLookup(table[1..], score)
  }

  /** When some range holds the score, the colour is that of the first
      such range in table order. */
  lemma {:induction false} ColorLookupFirstRange(table: seq<(int, int, string)>, score: int, i: int)
    requires 0 <= i < |table| && table[i].0 <= score < table[i].1
    requires forall j :: 0 <= j < i ==> !(table[j].0 <= score < table[j].1)
    ensures ColorLookup(table, score) == table[i].2
    decreases i
  {
    if i > 0 {
      ColorLookupFirstRange(table[1..], score, i - 1);
    }
  }

  /** `get_score_color` */
  function ScoreColor(score: int): string {
    ColorLookup(ScoreColors, score)
  }

  /** The colour bands of the score. */
  lemma ScoreColorBands(score: int)
    ensures 0 <= score <= 3 ==> ScoreColor(score) == "bold red"
    ensures 4 <= score <= 6 ==> ScoreColor(score) == "bold yellow"
    ensures 7 <= score <= 8 ==> ScoreColor(score) == "bold green"
    ensures 9 <= score <= 10 ==> ScoreColor(score) == "bold bright_green"
    ensures (score < 0 || score > 10) ==> ScoreColor(score) == "white"
  {
  }

  const FullBlock: char := '\U{2588}'
  const LightShade: char := '\U{2591}'

  /** `get_score_bar`: `"█" * score + "░" * (10 - score)`; Python repeats
      a string a negative number of times as the empty string. */
  function ScoreBar(score: int): string {
    Repeat(FullBlock, score) + Repeat(LightShade, 10 - score)
  }

  /** On the 0–10 scale the bar is ten characters: `score` full blocks,
      then light shades. Outside it, the bar is longer than ten. */
  lemma ScoreBarShape(score: int)
    ensures 0 <= score <= 10 ==>
              |ScoreBar(score)| == 10
              && (forall i :: 0 <= i < score ==> ScoreBar(score)[i] == FullBlock)
              && (forall i :: score <= i < 10 ==> ScoreBar(score)[i] == LightShade)
    ensures score > 10 ==> |ScoreBar(score)| == score && forall i :: 0 <= i < score ==> ScoreBar(score)[i] == FullBlock
    ensures score < 0 ==> |ScoreBar(score)| == 10 - score && forall i :: 0 <= i < 10 - score ==> ScoreBar(score)[i] == LightShade
  {
    var full := Repeat(FullBlock, score);
    var shade := Repeat(LightShade, 10 - score);
    assert forall i :: 0 <= i < |full| ==> ScoreBar(score)[i] == full[i];
    assert forall i :: |full| <= i < |full| + |shade| ==> ScoreBar(score)[i] == shade[i - |full|];
  }

  /** The number of issues of severity `s`. */
  function CountOf(issues: seq<Issue>, s: Severity): nat
    decreases |issues|
  {
    if issues == [] then 0
    else CountOf(issues[..|issues| - 1], s) + (if issues[|issues| - 1].severity == s then 1 else 0)
  }

  /** The four counts add up to the number of issues. */
  lemma {:induction false} CountsSum(issues: seq<Issue>)
    ensures CountOf(issues, Critical) + CountOf(issues, Warning) + CountOf(issues, Info) + CountOf(issues, Style)
            == |issues|
    decreases |issues|
  {
    if issues != [] {
      CountsSum(issues[..|issues| - 1]);
    }
  }

  /** `any(counts.values())` holds exactly when there are issues. */
  lemma AnyCountIffIssues(issues: seq<Issue>)
    ensures (CountOf(issues, Critical) > 0 || CountOf(issues, Warning) > 0
             || CountOf(issues, Info) > 0 || CountOf(issues, Style) > 0) <==> issues != []
  {
    CountsSum(issues);
  }

  /** The counting loop of `print_review`. */
  method CountSeverities(issues: seq<Issue>) returns (counts: map<Severity, nat>)
    ensures counts.Keys == {Critical, Warning, Info, Style}
    ensures forall s :: s in counts ==> counts[s] == CountOf(issues, s)
  {
    counts := map[Critical := 0, Warning := 0, Info := 0, Style := 0];
    assert issues[..0] == [];
    for i := 0 to |issues|
      invariant counts.Keys == {Critical, Warning, Info, Style}
      invariant forall s :: s in counts ==> counts[s] == CountOf(issues[..i], s)
    {
      assert issues[..i + 1][..i] == issues[..i];
      var severity := issues[i].severity;
      assert severity in {Critical, Warning, Info, Style} by {
        match severity
        case Critical =>
        case Warning =>
        case Info =>
        case Style =>
      }
      counts := counts[severity := counts[severity] + 1];
    }
    assert issues[..|issues|] == issues;
  }

  /** `list(Severity).index(i.severity)` */
  function Rank(i: Issue): int {
    match i.severity
    case Critical => 0
    case Warning => 1
    case Info => 2
    case Style => 3
  }

  /** The order `print_review` shows issues in: Python's stable `sorted` by
      rank. */
  function DisplayOrder(issues: seq<Issue>): seq<Issue> {
    SortBy(issues, Rank)
  }

  /** The displayed issues are the issues, most severe first, and issues
      of equal severity keep their order. */
  lemma DisplayOrderIsStableSort(issues: seq<Issue>)
    ensures multiset(DisplayOrder(issues)) == multiset(issues)
    ensures forall i, j :: 0 <= i < j < |DisplayOrder(issues)| ==>
              Rank(DisplayOrder(issues)[i]) <= Rank(DisplayOrder(issues)[j])
    ensures forall k :: WithKey(DisplayOrder(issues), Rank, k) == WithKey(issues, Rank, k)
  {
    forall k ensures WithKey(DisplayOrder(issues), Rank, k) == WithKey(issues, Rank, k) {
      SortByStable(issues, Rank, k);
    }
  }

  /** A piece of an issue panel's body: fixed text, or a field of the issue
      as formatted by `str`. */
  datatype Segment = Lit(text: string) | Val(value: Json)

  const SuggestionLabel: string := "\n\U{1F4A1} Suggestion: "

  /** The body `format_issue` builds, without styles. */
  function IssueContent(issue: Issue): seq<Segment> {
    [Val(issue.description), Lit("\n\n")]
    + (if Truthy(issue.file) then
         [Lit("File: "), Val(issue.file)]
         + (if Truthy(issue.line) then [Lit(":"), Val(issue.line)] else [])
         + [Lit("\n")]
       else [])
    + (if Truthy(issue.suggestion) then [Lit(SuggestionLabel), Val(issue.suggestion)] else [])
  }

  /** The location is shown only for a non-empty file, and `:line` only
      when there is a file and a truthy line; the suggestion section only
      for a non-empty suggestion. The description always comes first. */
  lemma IssueContentParts(issue: Issue)
    ensures IssueContent(issue)[0] == Val(issue.description)
    ensures Lit("File: ") in IssueContent(issue) <==> Truthy(issue.file)
    ensures Lit(":") in IssueContent(issue) <==> Truthy(issue.file) && Truthy(issue.line)
    ensures Lit(SuggestionLabel) in IssueContent(issue) <==> Truthy(issue.suggestion)
  {
    var c := IssueContent(issue);
    var fileParts := if Truthy(issue.file) then
         [Lit("File: "), Val(issue.file)]
         + (if Truthy(issue.line) then [Lit(":"), Val(issue.line)] else [])
         + [Lit("\n")]
       else [];
    var suggestionParts := if Truthy(issue.suggestion) then [Lit(SuggestionLabel), Val(issue.suggestion)] else [];
    assert c == [Val(issue.description), Lit("\n\n")] + fileParts + suggestionParts;
    assert SuggestionLabel[1] == '\U{1F4A1}';
    assert forall x :: x in c <==> x in [Val(issue.description), Lit("\n\n")] || x in fileParts || x in suggestionParts;
  }
}
