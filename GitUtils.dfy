/** The diff tokenizer of codereview/git_utils.py, and the post-processing
    of two git listings. Running git is not modelled: its standard output
    is the input text. */
module GitUtils {
  import opened Wrappers
  import opened Text
  import opened Sorting

  /** One file section of a diff. `oldStart` and `newStart` are never
      filled in by the tokenizer. */
  datatype DiffHunk = DiffHunk(
    file: string,
    oldStart: int,
    newStart: int,
    content: string,
    addedLines: seq<string>,
    removedLines: seq<string>)

  function OptionToSeq<T>(o: Option<T>): seq<T> {
    if o.Some? then [o.value] else []
  }

  /** `line.startswith("diff --git")` */
  predicate IsHeader(line: string) {
    StartsWith(line, "diff --git")
  }

  /** `line.startswith("@@")` */
  predicate IsRangeMarker(line: string) {
    StartsWith(line, "@@")
  }

  /** `line.startswith(m) and not line.startswith(m * 3)`: an added (`+`)
      or removed (`-`) line, as opposed to a `+++`/`---` file marker. */
  predicate IsMarked(line: string, m: char) {
    StartsWith(line, [m]) && !StartsWith(line, [m, m, m])
  }

  /** The file named by a `diff --git` header: the last piece of
      `header.split(" b/")`, or "unknown" when there is no " b/". */
  function FileName(header: string): string {
    var parts := Split(header, " b/");
    if |parts| > 1 then parts[|parts| - 1] else "unknown"
  }

  lemma FileNameAfterLastSeparator(header: string)
    ensures Contains(header, " b/") ==>
              var name := FileName(header);
              && |name| + 3 <= |header|
              && OccursAt(header, " b/", |header| - |name| - 3)
              && name == header[|header| - |name|..]
              && !Contains(name, " b/")
    ensures !Contains(header, " b/") ==> FileName(header) == "unknown"
  {
    if Contains(header, " b/") {
      assert |Split(header, " b/")| > 1 by {
        SplitFirstPiece(header, " b/");
      }
      SplitLastPiece(header, " b/");
    } else {
      SplitFirstPiece(header, " b/");
    }
  }

  /** `_finalize_hunk`: a hunk only for a named file with some content. */
  function FinalizeHunk(file: Option<string>, content: seq<string>,
                        added: seq<string>, removed: seq<string>): (r: Option<DiffHunk>)
    ensures r.Some? <==> file.Some? && file.value != "" && content != []
    ensures r.Some? ==> r.value.file == file.value && r.value.oldStart == 0 && r.value.newStart == 0
    ensures r.Some? ==> r.value.addedLines == added && r.value.removedLines == removed
  {
    if file.Some? && file.value != "" && content != [] then
      Some(DiffHunk(file.value, 0, 0, Join(content, "\n"), added, removed))
    else None
  }

  /** The joined content of a hunk splits back into its lines. */
  lemma HunkContentSplitsBack(file: Option<string>, content: seq<string>,
                              added: seq<string>, removed: seq<string>)
    requires FinalizeHunk(file, content, added, removed).Some?
    requires forall i :: 0 <= i < |content| ==> '\n' !in content[i]
    ensures Split(FinalizeHunk(file, content, added, removed).value.content, "\n") == content
  {
    JoinSplitOneChar(content, '\n');
  }

  /** The lines of `body` that carry marker `m`, with the marker removed. */
  function MarkedLines(body: seq<string>, m: char): seq<string>
    decreases |body|
  {
    if body == [] then []
    else
      var line := body[|body| - 1];
      MarkedLines(body[..|body| - 1], m) + (if IsMarked(line, m) then [line[1..]] else [])
  }

  /** The lines of `body` that carry marker `m`, as they stand. */
  function MarkedRaw(body: seq<string>, m: char): seq<string>
    decreases |body|
  {
    if body == [] then []
    else
      var line := body[|body| - 1];
      MarkedRaw(body[..|body| - 1], m) + (if IsMarked(line, m) then [line] else [])
  }

  function Remark(m: char, lines: seq<string>): seq<string> {
    seq(|lines|, i requires 0 <= i < |lines| => [m] + lines[i])
  }

  /** Putting the marker back on the stored lines gives the raw marked
      lines of the body, in order. */
  lemma {:induction false} MarkedLinesRestore(body: seq<string>, m: char)
    ensures Remark(m, MarkedLines(body, m)) == MarkedRaw(body, m)
    decreases |body|
  {
    if body != [] {
      var init := body[..|body| - 1];
      var line := body[|body| - 1];
      MarkedLinesRestore(init, m);
      if IsMarked(line, m) {
        assert [m] + line[1..] == line;
        var a := MarkedLines(init, m);
        assert Remark(m, a + [line[1..]]) == Remark(m, a) + [[m] + line[1..]];
      } else {
        assert MarkedLines(body, m) == MarkedLines(init, m);
      }
    }
  }

  /** A `diff --git` header line and the lines after it, up to the next
      header or the end of the input. */
  datatype Section = Section(header: string, body: seq<string>)

  /** The sections of a sequence of lines; lines before the first header
      belong to no section. */
  function Sections(lines: seq<string>): seq<Section>
    decreases |lines|
  {
    if lines == [] then []
    else
      var init := Sections(lines[..|lines| - 1]);
      var line := lines[|lines| - 1];
      if IsHeader(line) then init + [Section(line, [])]
      else if init == [] then []
      else
        var last := init[|init| - 1];
        init[..|init| - 1] + [Section(last.header, last.body + [line])]
  }

  /** The header lines, in order. */
  function HeaderLines(lines: seq<string>): seq<string>
    decreases |lines|
  {
    if lines == [] then []
    else
      var line := lines[|lines| - 1];
      HeaderLines(lines[..|lines| - 1]) + (if IsHeader(line) then [line] else [])
  }

  /** The lines that sections consist of, in order. */
  function Flatten(ss: seq<Section>): seq<string>
    decreases |ss|
  {
    if ss == [] then []
    else Flatten(ss[..|ss| - 1]) + [ss[|ss| - 1].header] + ss[|ss| - 1].body
  }

  /** There is one section per header line, headed by it, in order. */
  lemma {:induction false} SectionsFollowHeaders(lines: seq<string>)
    ensures |Sections(lines)| == |HeaderLines(lines)|
    ensures forall i :: 0 <= i < |Sections(lines)| ==> Sections(lines)[i].header == HeaderLines(lines)[i]
    decreases |lines|
  {
    if lines != [] {
      SectionsFollowHeaders(lines[..|lines| - 1]);
    }
  }

  /** No section body holds a header line. */
  lemma {:induction false} SectionBodiesHeaderFree(lines: seq<string>)
    ensures forall i, j :: 0 <= i < |Sections(lines)| && 0 <= j < |Sections(lines)[i].body|
                           ==> !IsHeader(Sections(lines)[i].body[j])
    decreases |lines|
  {
    if lines != [] {
      SectionBodiesHeaderFree(lines[..|lines| - 1]);
    }
  }

  /** One more line either extends the flattened sections or, before
      the first header, is dropped. */
  lemma FlattenStep(init: seq<string>, line: string)
    ensures Sections(init) == [] && !IsHeader(line) ==> Sections(init + [line]) == []
    ensures Sections(init) != [] || IsHeader(line) ==>
              Flatten(Sections(init + [line])) == Flatten(Sections(init)) + [line]
  {
    assert (init + [line])[..|init|] == init;
    var ss := Sections(init);
    if IsHeader(line) {
      var ss' := ss + [Section(line, [])];
      assert ss'[..|ss'| - 1] == ss;
    } else if ss != [] {
      var last := ss[|ss| - 1];
      var ss' := ss[..|ss| - 1] + [Section(last.header, last.body + [line])];
      assert ss'[..|ss'| - 1] == ss[..|ss| - 1];
      assert ss == ss[..|ss| - 1] + [last];
    }
  }

  /** The length of the preamble: the lines before the first header, or
      all of them when there is none. */
  function Preamble(lines: seq<string>): (p: nat)
    ensures p <= |lines|
    ensures forall i :: 0 <= i < p ==> !IsHeader(lines[i])
    ensures p < |lines| ==> IsHeader(lines[p])
    decreases |lines|
  {
    if lines == [] then 0
    else
      var init := lines[..|lines| - 1];
      var p := Preamble(init);
      if p < |init| then p
      else if IsHeader(lines[|lines| - 1]) then |init|
      else |lines|
  }

  lemma DropSnoc<T>(s: seq<T>, x: T, p: nat)
    requires p <= |s|
    ensures (s + [x])[p..] == s[p..] + [x]
  {
  }

  lemma PreambleStep(init: seq<string>, line: string)
    ensures Preamble(init + [line])
            == if Preamble(init) < |init| || IsHeader(line) then Preamble(init) else |init| + 1
  {
    assert (init + [line])[..|init|] == init;
  }

  /** The sections are the input with the preamble dropped: no line is
      lost, duplicated or reordered. */
  lemma {:induction false} SectionsCoverInput(lines: seq<string>)
    ensures Flatten(Sections(lines)) == lines[Preamble(lines)..]
    decreases |lines|
  {
    if lines != [] {
      var n := |lines|;
      var init := lines[..n - 1];
      var line := lines[n - 1];
      assert lines == init + [line];
      SectionsCoverInput(init);
      FlattenStep(init, line);
      PreambleStep(init, line);
      var p := Preamble(init);
      if Sections(init) == [] && !IsHeader(line) {
        assert init[p..] == [];
      } else {
        assert p < |init| || IsHeader(line) by {
          if p == |init| {
            assert Flatten(Sections(init)) == [];
          }
        }
        DropSnoc(init, line, p);
      }
    }
  }

  /** `_finalize_hunk` applied to one section. */
  function HunkOf(s: Section): Option<DiffHunk> {
    FinalizeHunk(Some(FileName(s.header)), s.body, MarkedLines(s.body, '+'), MarkedLines(s.body, '-'))
  }

  /** The hunks of the sections that have one, in section order. */
  function Emit(ss: seq<Section>): seq<DiffHunk>
    decreases |ss|
  {
    if ss == [] then []
    else Emit(ss[..|ss| - 1]) + OptionToSeq(HunkOf(ss[|ss| - 1]))
  }

  /** The hunks `parse_diff` returns, defined by sections. */
  function DiffHunks(diffText: string): seq<DiffHunk> {
    Emit(Sections(Split(diffText, "\n")))
  }

  /** `parse_diff`: one pass over the lines with a current file and three
      accumulators. */
  method ParseDiff(diffText: string) returns (hunks: seq<DiffHunk>)
    ensures hunks == DiffHunks(diffText)
  {
    var lines := Split(diffText, "\n");
    hunks := [];
    var currentFile: Option<string> := None;
    var currentContent: seq<string> := [];
    var added: seq<string> := [];
    var removed: seq<string> := [];
    for i := 0 to |lines|
      invariant Scanned(lines[..i], hunks, currentFile, currentContent, added, removed)
    {
      var line := lines[i];
      assert lines[..i + 1] == lines[..i] + [line];
      MarkerKinds(line);
      if IsHeader(line) {
        ScanHeader(lines[..i], line, hunks, currentFile, currentContent, added, removed);
        var hunk := FinalizeHunk(currentFile, currentContent, added, removed);
        if hunk.Some? {
          hunks := hunks + [hunk.value];
        }
        currentFile := Some(FileName(line));
        currentContent := [];
        added := [];
        removed := [];
      } else {
        ScanBodyLine(lines[..i], line, hunks, currentFile, currentContent, added, removed);
        if IsRangeMarker(line) {
          currentContent := currentContent + [line];
        } else if IsMarked(line, '+') {
          added := added + [line[1..]];
          currentContent := currentContent + [line];
        } else if IsMarked(line, '-') {
          removed := removed + [line[1..]];
          currentContent := currentContent + [line];
        } else {
          currentContent := currentContent + [line];
        }
      }
    }
    assert lines[..|lines|] == lines;
    ScanDone(lines, hunks, currentFile, currentContent, added, removed);
    var final := FinalizeHunk(currentFile, currentContent, added, removed);
    if final.Some? {
      hunks := hunks + [final.value];
    }
  }

  /** The scanner's state after `prefix`: the hunks of all sections but the
      last, and the last section held in the accumulators. */
  ghost predicate Scanned(prefix: seq<string>, hunks: seq<DiffHunk>, file: Option<string>,
                          content: seq<string>, added: seq<string>, removed: seq<string>)
  {
    var ss := Sections(prefix);
    if ss == [] then file.None? && hunks == []
    else
      var last := ss[|ss| - 1];
      && hunks == Emit(ss[..|ss| - 1])
      && file == Some(FileName(last.header))
      && content == last.body
      && added == MarkedLines(last.body, '+')
      && removed == MarkedLines(last.body, '-')
  }

  lemma ScanHeader(prefix: seq<string>, line: string, hunks: seq<DiffHunk>, file: Option<string>,
                    content: seq<string>, added: seq<string>, removed: seq<string>)
    requires Scanned(prefix, hunks, file, content, added, removed)
    requires IsHeader(line)
    ensures Scanned(prefix + [line], hunks + OptionToSeq(FinalizeHunk(file, content, added, removed)),
                    Some(FileName(line)), [], [], [])
  {
    assert (prefix + [line])[..|prefix|] == prefix;
    var ss := Sections(prefix);
    var ss' := ss + [Section(line, [])];
    assert Sections(prefix + [line]) == ss';
    assert ss'[..|ss'| - 1] == ss;
  }

  lemma ScanBodyLine(prefix: seq<string>, line: string, hunks: seq<DiffHunk>, file: Option<string>,
                     content: seq<string>, added: seq<string>, removed: seq<string>)
    requires Scanned(prefix, hunks, file, content, added, removed)
    requires !IsHeader(line)
    ensures Scanned(prefix + [line], hunks, file, content + [line],
                    added + (if IsMarked(line, '+') then [line[1..]] else []),
                    removed + (if IsMarked(line, '-') then [line[1..]] else []))
  {
    assert (prefix + [line])[..|prefix|] == prefix;
    assert (content + [line])[..|content|] == content;
    var ss := Sections(prefix);
    if ss != [] {
      var last := ss[|ss| - 1];
      var ss' := ss[..|ss| - 1] + [Section(last.header, last.body + [line])];
      assert Sections(prefix + [line]) == ss';
      assert ss'[..|ss'| - 1] == ss[..|ss| - 1];
    }
  }

  /** Closing the last section completes the hunks of the whole input. */
  lemma ScanDone(lines: seq<string>, hunks: seq<DiffHunk>, file: Option<string>,
                 content: seq<string>, added: seq<string>, removed: seq<string>)
    requires Scanned(lines, hunks, file, content, added, removed)
    ensures hunks + OptionToSeq(FinalizeHunk(file, content, added, removed)) == Emit(Sections(lines))
  {
  }

  lemma MarkerKinds(line: string)
    ensures IsRangeMarker(line) ==> !IsMarked(line, '+') && !IsMarked(line, '-')
    ensures IsMarked(line, '+') ==> !IsMarked(line, '-')
  {
    if IsRangeMarker(line) {
      assert line[0] == '@';
    }
    if IsMarked(line, '+') {
      assert line[0] == '+';
    }
  }

  /** Hunks come out in section order. */
  lemma {:induction false} EmitAppend(a: seq<Section>, b: seq<Section>)
    ensures Emit(a + b) == Emit(a) + Emit(b)
    decreases |b|
  {
    if b != [] {
      var b' := b[..|b| - 1];
      assert (a + b)[..|a + b| - 1] == a + b';
      EmitAppend(a, b');
    } else {
      assert a + b == a;
    }
  }

  /** Each section contributes its own hunk, if it has one, and nothing else. */
  lemma EmitOne(s: Section)
    ensures Emit([s]) == OptionToSeq(HunkOf(s))
  {
    assert [s][..0] == [];
  }

  /** At most one hunk per section. */
  lemma {:induction false} EmitAtMostOnePerSection(ss: seq<Section>)
    ensures |Emit(ss)| <= |ss|
    decreases |ss|
  {
    if ss != [] {
      EmitAtMostOnePerSection(ss[..|ss| - 1]);
    }
  }

  /** Every section with a hunk contributes it. */
  lemma {:induction false} EmitIncludesEvery(ss: seq<Section>)
    ensures forall i :: 0 <= i < |ss| && HunkOf(ss[i]).Some? ==> HunkOf(ss[i]).value in Emit(ss)
    decreases |ss|
  {
    if ss != [] {
      var init := ss[..|ss| - 1];
      EmitIncludesEvery(init);
      forall i | 0 <= i < |init| && HunkOf(ss[i]).Some? ensures HunkOf(ss[i]).value in Emit(ss) {
        assert ss[i] == init[i];
      }
    }
  }

  /** Every emitted hunk is the hunk of some section. */
  lemma {:induction false} EmitOnlyFromSections(ss: seq<Section>)
    ensures forall h :: h in Emit(ss) ==> exists i :: 0 <= i < |ss| && HunkOf(ss[i]) == Some(h)
    decreases |ss|
  {
    if ss != [] {
      var init := ss[..|ss| - 1];
      EmitOnlyFromSections(init);
      forall h | h in Emit(ss) ensures exists i :: 0 <= i < |ss| && HunkOf(ss[i]) == Some(h) {
        if h in Emit(init) {
          var i :| 0 <= i < |init| && HunkOf(init[i]) == Some(h);
          assert ss[i] == init[i];
        } else {
          assert HunkOf(ss[|ss| - 1]) == Some(h);
        }
      }
    }
  }

  /** No more hunks than `diff --git` headers. */
  lemma HunksAtMostHeaders(diffText: string)
    ensures |DiffHunks(diffText)| <= |HeaderLines(Split(diffText, "\n"))|
  {
    var lines := Split(diffText, "\n");
    SectionsFollowHeaders(lines);
    EmitAtMostOnePerSection(Sections(lines));
  }

  lemma {:induction false} NoHeaderNoSections(lines: seq<string>)
    requires forall i :: 0 <= i < |lines| ==> !IsHeader(lines[i])
    ensures Sections(lines) == []
    decreases |lines|
  {
    if lines != [] {
      NoHeaderNoSections(lines[..|lines| - 1]);
    }
  }

  /** A text without a `diff --git` line yields no hunks, whatever else
      it holds. */
  lemma NoHeaderNoHunks(diffText: string)
    requires forall i :: 0 <= i < |Split(diffText, "\n")| ==> !IsHeader(Split(diffText, "\n")[i])
    ensures DiffHunks(diffText) == []
  {
    NoHeaderNoSections(Split(diffText, "\n"));
  }

  /** An empty diff splits into one empty line and yields no hunks. */
  lemma EmptyDiffNoHunks()
    ensures Split("", "\n") == [""]
    ensures DiffHunks("") == []
  {
    SplitFirstPiece("", "\n");
    NoHeaderNoHunks("");
  }

  /** Every line of a section body is a line of the input. */
  lemma {:induction false} BodyLinesFromInput(lines: seq<string>)
    ensures forall i, j :: 0 <= i < |Sections(lines)| && 0 <= j < |Sections(lines)[i].body|
                           ==> Sections(lines)[i].body[j] in lines
    decreases |lines|
  {
    if lines != [] {
      var init := lines[..|lines| - 1];
      BodyLinesFromInput(init);
      assert forall x :: x in init ==> x in lines;
    }
  }

  /** The content of every hunk `parse_diff` returns splits back into the
      lines of its section, and that section's hunk is among the results. */
  lemma HunkContentRoundTrip(diffText: string, i: nat)
    requires i < |Sections(Split(diffText, "\n"))|
    requires HunkOf(Sections(Split(diffText, "\n"))[i]).Some?
    ensures var s := Sections(Split(diffText, "\n"))[i];
            var h := HunkOf(s).value;
            h in DiffHunks(diffText) && Split(h.content, "\n") == s.body
            && h.file == FileName(s.header)
  {
    var lines := Split(diffText, "\n");
    var s := Sections(lines)[i];
    EmitIncludesEvery(Sections(lines));
    BodyLinesFromInput(lines);
    SplitPiecesFree(diffText, "\n");
    forall j | 0 <= j < |s.body| ensures '\n' !in s.body[j] {
      ContainsChar(s.body[j], '\n');
    }
    HunkContentSplitsBack(Some(FileName(s.header)), s.body, MarkedLines(s.body, '+'), MarkedLines(s.body, '-'));
  }

  /** The non-empty strings of `lines`, in order. */
  function NonEmpty(lines: seq<string>): (r: seq<string>)
    ensures forall i :: 0 <= i < |r| ==> r[i] != ""
  {
    if lines == [] then []
    else (if lines[0] != "" then [lines[0]] else []) + NonEmpty(lines[1..])
  }

  /** Every non-empty string is kept as often as it occurs. */
  lemma {:induction false} NonEmptyCounts(lines: seq<string>)
    ensures forall x :: x != "" ==> multiset(NonEmpty(lines))[x] == multiset(lines)[x]
    decreases |lines|
  {
    if lines != [] {
      assert lines == [lines[0]] + lines[1..];
      NonEmptyCounts(lines[1..]);
    }
  }

  /** Filtering keeps the order: the kept strings of a concatenation are
      those of its first part, then those of its second. */
  lemma {:induction false} NonEmptyAppend(a: seq<string>, b: seq<string>)
    ensures NonEmpty(a + b) == NonEmpty(a) + NonEmpty(b)
    decreases |a|
  {
    if a == [] {
      assert a + b == b;
    } else {
      var kept := if a[0] != "" then [a[0]] else [];
      assert (a + b)[0] == a[0] && (a + b)[1..] == a[1..] + b;
      NonEmptyAppend(a[1..], b);
      calc {
        NonEmpty(a + b);
        kept + NonEmpty(a[1..] + b);
        kept + (NonEmpty(a[1..]) + NonEmpty(b));
        (kept + NonEmpty(a[1..])) + NonEmpty(b);
        NonEmpty(a) + NonEmpty(b);
      }
    }
  }

  /** `get_changed_files` on the output of `git diff --name-only`: the
      non-empty lines of the stripped output. */
  function ChangedFiles(gitOutput: string): (files: seq<string>)
    ensures forall i :: 0 <= i < |files| ==> files[i] != "" && '\n' !in files[i]
    ensures forall f :: f != "" ==> multiset(files)[f] == multiset(Split(Strip(gitOutput), "\n"))[f]
  {
    var lines := Split(Strip(gitOutput), "\n");
    SplitPiecesFree(Strip(gitOutput), "\n");
    var files := NonEmpty(lines);
    NonEmptyCounts(lines);
    forall i | 0 <= i < |files| ensures '\n' !in files[i] {
      assert files[i] in multiset(lines);
      var j :| 0 <= j < |lines| && lines[j] == files[i];
      ContainsChar(lines[j], '\n');
    }
    files
  }

  /** `f.rsplit(".", 1)[-1].lower()` when `"." in f`: the lower-cased text
      after the last dot. */
  function Extension(path: string): Option<string> {
    if Contains(path, ".") then
      var parts := Split(path, ".");
      Some(Lower(parts[|parts| - 1]))
    else None
  }

  lemma ExtensionAfterLastDot(path: string)
    ensures Extension(path).Some? <==> '.' in path
    ensures Extension(path).Some? ==>
              var ext := Extension(path).value;
              var i := |path| - |ext| - 1;
              && 0 <= i && path[i] == '.'
              && ext == Lower(path[i + 1..])
              && '.' !in path[i + 1..]
  {
    assert "." == ['.'];
    ContainsChar(path, '.');
    if Contains(path, ".") {
      SplitLastPiece(path, ".");
      var parts := Split(path, ".");
      var last := parts[|parts| - 1];
      var i := |path| - |last| - 1;
      assert last == path[i + 1..];
      assert Extension(path) == Some(Lower(last));
      OneCharOccurs(path, '.', i);
      ContainsChar(last, '.');
    }
  }

  /** The extensions of the paths that have one, in order. */
  function Extensions(paths: seq<string>): seq<string>
    decreases |paths|
  {
    if paths == [] then []
    else Extensions(paths[..|paths| - 1]) + OptionToSeq(Extension(paths[|paths| - 1]))
  }

  lemma ExtensionsSnoc(paths: seq<string>, n: nat)
    requires n < |paths|
    ensures Extensions(paths[..n + 1]) == Extensions(paths[..n]) + OptionToSeq(Extension(paths[n]))
  {
    assert paths[..n + 1][..n] == paths[..n];
  }

  /** The extensions of the paths `git ls-files` listed. */
  function ListedExtensions(lsFilesOutput: string): seq<string> {
    Extensions(Split(Strip(lsFilesOutput), "\n"))
  }

  /** `s.index(x)`, or `|s|` when `x` does not occur: where `x` was first
      seen. */
  function FirstIndex<T(==)>(s: seq<T>, x: T): (r: nat)
    ensures r <= |s|
    ensures r < |s| <==> x in s
    ensures r < |s| ==> s[r] == x
    ensures forall k :: 0 <= k < r ==> s[k] != x
  {
    if s == [] then 0
    else if s[0] == x then 0
    else 1 + FirstIndex(s[1..], x)
  }

  /** Ranks a tallied pair by where its extension was first seen. */
  function ByFirstSeen(exts: seq<string>): ((string, nat)) -> int {
    (entry: (string, nat)) => FirstIndex(exts, entry.0)
  }

  function NegatedCount(entry: (string, nat)): int {
    0 - entry.1 as int
  }

  lemma DistinctCountsOne<T>(s: seq<T>)
    requires forall a, b :: 0 <= a < b < |s| ==> s[a] != s[b]
    ensures forall x :: multiset(s)[x] <= 1
  {
    if s != [] {
      assert s == [s[0]] + s[1..];
      DistinctCountsOne(s[1..]);
      assert s[0] !in s[1..];
    }
  }

  lemma RepeatedCountsTwo<T>(s: seq<T>, a: int, b: int)
    requires 0 <= a < b < |s| && s[a] == s[b]
    ensures multiset(s)[s[a]] >= 2
  {
    assert s == s[..b] + [s[b]] + s[b + 1..];
    assert s[a] in s[..b];
  }

  /** `counts` and `order` tally `exts`: each extension seen once in
      `order`, with its number of occurrences in `counts`. */
  ghost predicate Tally(exts: seq<string>, counts: map<string, nat>, order: seq<string>) {
    && (forall e :: e in counts <==> e in order)
    && (forall a, b :: 0 <= a < b < |order| ==> order[a] != order[b])
    && (forall e :: e in counts ==> counts[e] >= 1 && counts[e] == multiset(exts)[e])
    && (forall e :: e !in counts ==> multiset(exts)[e] == 0)
  }

  lemma TallyAdd(exts: seq<string>, counts: map<string, nat>, order: seq<string>, e: string)
    requires Tally(exts, counts, order)
    ensures Tally(exts + [e], counts[e := (if e in counts then counts[e] else 0) + 1],
                  if e in counts then order else order + [e])
  {
    assert multiset(exts + [e]) == multiset(exts) + multiset{e};
  }

  /** `order` lists extensions seen in `exts`, each after those first seen
      before it. */
  ghost predicate FirstSeenOrder(exts: seq<string>, order: seq<string>) {
    && (forall a :: 0 <= a < |order| ==> order[a] in exts)
    && (forall a, b :: 0 <= a < b < |order| ==> FirstIndex(exts, order[a]) < FirstIndex(exts, order[b]))
  }

  /** Appending `e` keeps `order` in first-seen order, and a new `e` goes
      last. */
  lemma FirstSeenAdd(exts: seq<string>, order: seq<string>, e: string, isNew: bool)
    requires FirstSeenOrder(exts, order)
    requires isNew ==> e !in exts
    ensures FirstSeenOrder(exts + [e], if isNew then order + [e] else order)
  {
    forall a | 0 <= a < |order| ensures FirstIndex(exts + [e], order[a]) == FirstIndex(exts, order[a]) < |exts| {
      FirstIndexExtend(exts, e, order[a]);
    }
    if isNew {
      FirstIndexExtend(exts, e, e);
    }
  }

  /** Appending to a sequence does not move what was already seen; a new
      element is first seen at the old end. */
  lemma FirstIndexExtend<T>(s: seq<T>, y: T, x: T)
    ensures FirstIndex(s + [y], x) == if x in s then FirstIndex(s, x) else if x == y then |s| else |s| + 1
  {
    var r := FirstIndex(s + [y], x);
    if x in s {
      var r0 := FirstIndex(s, x);
      assert (s + [y])[r0] == x;
    } else if x == y {
      assert (s + [y])[|s|] == x;
    } else {
      assert x !in s + [y];
    }
  }

  /** The counting loop of `get_repo_language_stats`: each extension's
      count, and the extensions in the order they were first seen (the
      insertion order of the source's dictionary). */
  method CountExtensions(files: seq<string>) returns (counts: map<string, nat>, order: seq<string>)
    ensures Tally(Extensions(files), counts, order)
    ensures FirstSeenOrder(Extensions(files), order)
  {
    counts := map[];
    order := [];
    for i := 0 to |files|
      invariant Tally(Extensions(files[..i]), counts, order)
      invariant FirstSeenOrder(Extensions(files[..i]), order)
    {
      ExtensionsSnoc(files, i);
      var found := Extension(files[i]);
      if found.Some? {
        var ext := found.value;
        assert Extensions(files[..i + 1]) == Extensions(files[..i]) + [ext];
        TallyAdd(Extensions(files[..i]), counts, order, ext);
        assert ext !in counts ==> multiset(Extensions(files[..i]))[ext] == 0;
        FirstSeenAdd(Extensions(files[..i]), order, ext, ext !in counts);
        if ext !in counts {
          order := order + [ext];
        }
        counts := counts[ext := (if ext in counts then counts[ext] else 0) + 1];
      } else {
        assert Extensions(files[..i + 1]) == Extensions(files[..i]);
      }
    }
    assert files[..|files|] == files;
  }

  /** What `get_repo_language_stats` promises of its ranking `top` of the
      extensions `exts`: at most ten entries with distinct names and true
      counts, most frequent first, ties in first-seen order; and anything
      left out ranks after the tenth entry (no more frequent, and if
      equally frequent then first seen later). */
  ghost predicate TopTen(exts: seq<string>, top: seq<(string, nat)>) {
    TopCounts(exts, top) && TopTies(exts, top)
  }

  /** The counts part of `TopTen`. */
  ghost predicate TopCounts(exts: seq<string>, top: seq<(string, nat)>) {
    && |top| <= 10
    && (forall i, j :: 0 <= i < j < |top| ==> top[i].1 >= top[j].1)
    && (forall i :: 0 <= i < |top| ==> top[i].1 >= 1 && top[i].1 == multiset(exts)[top[i].0])
    && (forall i, j :: 0 <= i < j < |top| ==> top[i].0 != top[j].0)
    && (forall e :: e in multiset(exts) && (forall i :: 0 <= i < |top| ==> top[i].0 != e)
          ==> |top| == 10 && multiset(exts)[e] <= top[9].1)
  }

  /** The tie-breaking part of `TopTen`. */
  ghost predicate TopTies(exts: seq<string>, top: seq<(string, nat)>) {
    && (forall i, j :: 0 <= i < j < |top| && top[i].1 == top[j].1 ==>
          FirstIndex(exts, top[i].0) < FirstIndex(exts, top[j].0))
    && (forall e :: e in multiset(exts) && (forall i :: 0 <= i < |top| ==> top[i].0 != e)
          && |top| == 10 && multiset(exts)[e] == top[9].1
          ==> FirstIndex(exts, top[9].0) < FirstIndex(exts, e))
  }

  /** `get_repo_language_stats` on the output of `git ls-files`: extension
      counts, the ten most frequent, most frequent first. */
  method LanguageStats(lsFilesOutput: string) returns (top: seq<(string, nat)>)
    ensures TopTen(ListedExtensions(lsFilesOutput), top)
  {
    var files := Split(Strip(lsFilesOutput), "\n");
    var counts, order := CountExtensions(files);
    var pairs := seq(|order|, j requires 0 <= j < |order| => (order[j], counts[order[j]]));
    var sorted := SortBy(pairs, NegatedCount);
    top := Take(sorted, 10);
    RankedTop(ListedExtensions(lsFilesOutput), counts, order, pairs, sorted, top);
    RankedTopTies(ListedExtensions(lsFilesOutput), counts, order, pairs, top);
  }

  /** The tallied pairs, in tally order, are in first-seen order. */
  lemma PairsFirstSeen(exts: seq<string>, order: seq<string>, pairs: seq<(string, nat)>)
    requires FirstSeenOrder(exts, order)
    requires |pairs| == |order| && forall j :: 0 <= j < |order| ==> pairs[j].0 == order[j]
    ensures forall a, b :: 0 <= a < b < |pairs| ==> ByFirstSeen(exts)(pairs[a]) < ByFirstSeen(exts)(pairs[b])
  {
  }

  lemma RankedTop(exts: seq<string>, counts: map<string, nat>, order: seq<string>,
                  pairs: seq<(string, nat)>, sorted: seq<(string, nat)>, top: seq<(string, nat)>)
    requires Tally(exts, counts, order)
    requires |pairs| == |order| && forall j :: 0 <= j < |order| ==> pairs[j] == (order[j], counts[order[j]])
    requires multiset(sorted) == multiset(pairs) && SortedBy(sorted, NegatedCount)
    requires top == Take(sorted, 10)
    ensures TopCounts(exts, top)
  {
    RankedCounts(exts, counts, order, pairs, sorted);
    RankedDistinct(pairs, sorted);
    RankedOmitted(exts, counts, order, pairs, sorted, top);
    forall i, j | 0 <= i < j < |top| ensures top[i].1 >= top[j].1 {
      assert NegatedCount(sorted[i]) <= NegatedCount(sorted[j]);
    }
  }

  /** Ties in count, among the ten and at the cut after the tenth, are
      broken by first-seen order. */
  lemma RankedTopTies(exts: seq<string>, counts: map<string, nat>, order: seq<string>,
                      pairs: seq<(string, nat)>, top: seq<(string, nat)>)
    requires Tally(exts, counts, order) && FirstSeenOrder(exts, order)
    requires |pairs| == |order| && forall j :: 0 <= j < |order| ==> pairs[j] == (order[j], counts[order[j]])
    requires top == Take(SortBy(pairs, NegatedCount), 10)
    ensures TopTies(exts, top)
  {
    var sorted := SortBy(pairs, NegatedCount);
    PairsFirstSeen(exts, order, pairs);
    SortByTies(pairs, NegatedCount, ByFirstSeen(exts));
    RankedTies(exts, sorted, top);
    RankedOmittedTie(exts, counts, order, pairs, sorted, top);
  }

  /** Equal counts among the ten keep first-seen order. */
  lemma RankedTies(exts: seq<string>, sorted: seq<(string, nat)>, top: seq<(string, nat)>)
    requires TieOrdered(sorted, NegatedCount, ByFirstSeen(exts))
    requires top == Take(sorted, 10)
    ensures forall i, j :: 0 <= i < j < |top| && top[i].1 == top[j].1 ==>
              FirstIndex(exts, top[i].0) < FirstIndex(exts, top[j].0)
  {
    forall i, j | 0 <= i < j < |top| && top[i].1 == top[j].1
      ensures FirstIndex(exts, top[i].0) < FirstIndex(exts, top[j].0)
    {
      assert NegatedCount(sorted[i]) == NegatedCount(sorted[j]);
      assert ByFirstSeen(exts)(sorted[i]) < ByFirstSeen(exts)(sorted[j]);
    }
  }

  /** A permutation of the tallied pairs carries true counts. */
  lemma RankedCounts(exts: seq<string>, counts: map<string, nat>, order: seq<string>,
                     pairs: seq<(string, nat)>, sorted: seq<(string, nat)>)
    requires Tally(exts, counts, order)
    requires |pairs| == |order| && forall j :: 0 <= j < |order| ==> pairs[j] == (order[j], counts[order[j]])
    requires multiset(sorted) == multiset(pairs)
    ensures forall i :: 0 <= i < |sorted| ==> sorted[i].1 >= 1 && sorted[i].1 == multiset(exts)[sorted[i].0]
    ensures forall a, b :: 0 <= a < b < |pairs| ==> pairs[a].0 != pairs[b].0
  {
    forall i | 0 <= i < |sorted|
      ensures sorted[i].1 >= 1 && sorted[i].1 == multiset(exts)[sorted[i].0]
    {
      assert sorted[i] in multiset(pairs);
      var j :| 0 <= j < |pairs| && pairs[j] == sorted[i];
    }
  }

  /** A permutation of pairs with distinct keys has distinct keys. */
  lemma RankedDistinct(pairs: seq<(string, nat)>, sorted: seq<(string, nat)>)
    requires forall a, b :: 0 <= a < b < |pairs| ==> pairs[a].0 != pairs[b].0
    requires multiset(sorted) == multiset(pairs)
    ensures forall i, j :: 0 <= i < j < |sorted| ==> sorted[i].0 != sorted[j].0
  {
    DistinctCountsOne(pairs);
    forall i, j | 0 <= i < j < |sorted| ensures sorted[i].0 != sorted[j].0 {
      if sorted[i].0 == sorted[j].0 {
        assert sorted[i] in multiset(pairs) && sorted[j] in multiset(pairs);
        var a :| 0 <= a < |pairs| && pairs[a] == sorted[i];
        var b :| 0 <= b < |pairs| && pairs[b] == sorted[j];
        assert a == b;
        RepeatedCountsTwo(sorted, i, j);
        assert false;
      }
    }
  }

  /** An extension left out of the ten is no more frequent than the tenth. */
  lemma RankedOmitted(exts: seq<string>, counts: map<string, nat>, order: seq<string>,
                      pairs: seq<(string, nat)>, sorted: seq<(string, nat)>, top: seq<(string, nat)>)
    requires Tally(exts, counts, order)
    requires |pairs| == |order| && forall j :: 0 <= j < |order| ==> pairs[j] == (order[j], counts[order[j]])
    requires multiset(sorted) == multiset(pairs) && SortedBy(sorted, NegatedCount)
    requires top == Take(sorted, 10)
    ensures forall e :: e in multiset(exts) && (forall i :: 0 <= i < |top| ==> top[i].0 != e)
              ==> |top| == 10 && multiset(exts)[e] <= top[9].1
  {
    forall e | e in multiset(exts) && (forall i :: 0 <= i < |top| ==> top[i].0 != e)
      ensures |top| == 10 && multiset(exts)[e] <= top[9].1
    {
      var k := RankOf(exts, counts, order, pairs, sorted, top, e);
      assert NegatedCount(sorted[9]) <= NegatedCount(sorted[k]);
    }
  }

  /** An extension left out of the ten ties with the tenth only if it was
      first seen after it. */
  lemma RankedOmittedTie(exts: seq<string>, counts: map<string, nat>, order: seq<string>,
                         pairs: seq<(string, nat)>, sorted: seq<(string, nat)>, top: seq<(string, nat)>)
    requires Tally(exts, counts, order)
    requires |pairs| == |order| && forall j :: 0 <= j < |order| ==> pairs[j] == (order[j], counts[order[j]])
    requires multiset(sorted) == multiset(pairs)
    requires TieOrdered(sorted, NegatedCount, ByFirstSeen(exts))
    requires top == Take(sorted, 10)
    ensures forall e :: e in multiset(exts) && (forall i :: 0 <= i < |top| ==> top[i].0 != e)
              && |top| == 10 && multiset(exts)[e] == top[9].1
              ==> FirstIndex(exts, top[9].0) < FirstIndex(exts, e)
  {
    forall e | e in multiset(exts) && (forall i :: 0 <= i < |top| ==> top[i].0 != e)
               && |top| == 10 && multiset(exts)[e] == top[9].1
      ensures FirstIndex(exts, top[9].0) < FirstIndex(exts, e)
    {
      var k := RankOf(exts, counts, order, pairs, sorted, top, e);
      assert NegatedCount(sorted[9]) == NegatedCount(sorted[k]);
      assert ByFirstSeen(exts)(sorted[9]) < ByFirstSeen(exts)(sorted[k]);
    }
  }

  /** Where a tallied extension left out of the ten sits in the sorted
      pairs. */
  lemma RankOf(exts: seq<string>, counts: map<string, nat>, order: seq<string>,
               pairs: seq<(string, nat)>, sorted: seq<(string, nat)>, top: seq<(string, nat)>, e: string)
    returns (k: nat)
    requires Tally(exts, counts, order)
    requires |pairs| == |order| && forall j :: 0 <= j < |order| ==> pairs[j] == (order[j], counts[order[j]])
    requires multiset(sorted) == multiset(pairs)
    requires top == Take(sorted, 10)
    requires e in multiset(exts) && forall i :: 0 <= i < |top| ==> top[i].0 != e
    ensures |top| <= k < |sorted| && sorted[k] == (e, multiset(exts)[e])
  {
    assert e in order;
    var j :| 0 <= j < |order| && order[j] == e;
    assert pairs[j] in multiset(sorted);
    k :| 0 <= k < |sorted| && sorted[k] == pairs[j];
    assert k >= |top|;
  }
}
