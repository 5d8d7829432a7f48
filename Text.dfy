/** The Python string operations the tool relies on: `strip`, `lower`,
    `startswith`, `in`, `split`, `join`, `rstrip` of one character, slicing
    and repetition, each with the contract Python gives it. */
module Text {
  import opened Wrappers

  /** The characters for which Python's `str.isspace()` holds. */
  const SpaceChars: set<char> := {
    ' ', '\t', '\n', '\U{0B}', '\U{0C}', '\r', '\U{1C}', '\U{1D}', '\U{1E}', '\U{1F}',
    '\U{85}', '\U{A0}', '\U{1680}',
    '\U{2000}', '\U{2001}', '\U{2002}', '\U{2003}', '\U{2004}', '\U{2005}',
    '\U{2006}', '\U{2007}', '\U{2008}', '\U{2009}', '\U{200A}',
    '\U{2028}', '\U{2029}', '\U{202F}', '\U{205F}', '\U{3000}'}

  /** Python's `str.isspace()` for one character. */
  predicate IsSpace(c: char) {
    c in SpaceChars
  }

  predicate AllSpace(s: string) {
    forall i :: 0 <= i < |s| ==> IsSpace(s[i])
  }

  /** `s.lstrip()` */
  function TrimLeft(s: string): (r: string)
    ensures |r| <= |s|
    decreases |s|
  {
    if s != [] && IsSpace(s[0]) then TrimLeft(s[1..]) else s
  }

  /** `lstrip` removes exactly the leading whitespace. */
  lemma {:induction false} TrimLeftShape(s: string)
    ensures TrimLeft(s) == s[|s| - |TrimLeft(s)|..]
    ensures forall k :: 0 <= k < |s| - |TrimLeft(s)| ==> IsSpace(s[k])
    ensures TrimLeft(s) == [] || !IsSpace(TrimLeft(s)[0])
    decreases |s|
  {
    if s != [] && IsSpace(s[0]) {
      var tail := s[1..];
      TrimLeftShape(tail);
      assert TrimLeft(s) == TrimLeft(tail);
      forall k | 1 <= k < |s| - |TrimLeft(s)|
        ensures IsSpace(s[k])
      {
        assert s[k] == tail[k - 1];
      }
    }
  }

  /** `s.rstrip()` */
  function TrimRight(s: string): (r: string)
    ensures |r| <= |s|
    decreases |s|
  {
    if s != [] && IsSpace(s[|s| - 1]) then TrimRight(s[..|s| - 1]) else s
  }

  /** `rstrip` removes exactly the trailing whitespace. */
  lemma {:induction false} TrimRightShape(s: string)
    ensures TrimRight(s) == s[..|TrimRight(s)|]
    ensures forall k :: |TrimRight(s)| <= k < |s| ==> IsSpace(s[k])
    ensures TrimRight(s) == [] || !IsSpace(TrimRight(s)[|TrimRight(s)| - 1])
    decreases |s|
  {
    if s != [] && IsSpace(s[|s| - 1]) {
      var init := s[..|s| - 1];
      TrimRightShape(init);
      assert TrimRight(s) == TrimRight(init);
      forall k | |TrimRight(s)| <= k < |s| - 1
        ensures IsSpace(s[k])
      {
        assert s[k] == init[k];
      }
    }
  }

  /** `s.strip()` */
  function Strip(s: string): string {
    TrimRight(TrimLeft(s))
  }

  /** What is stripped: a slice of `s` cut out between two all-whitespace
      margins, starting where `lstrip` stops. */
  lemma StripSlice(s: string)
    ensures var r := Strip(s);
            var i := |s| - |TrimLeft(s)|;
            && i + |r| <= |s| && r == s[i..i + |r|]
            && (forall k :: 0 <= k < i ==> IsSpace(s[k]))
            && (forall k :: i + |r| <= k < |s| ==> IsSpace(s[k]))
  {
    StripSliceBounds(s);
    StripMargins(s);
  }

  lemma StripSliceBounds(s: string)
    ensures var i := |s| - |TrimLeft(s)|;
            i + |Strip(s)| <= |s| && Strip(s) == s[i..i + |Strip(s)|]
  {
    var left := TrimLeft(s);
    var i := |s| - |left|;
    TrimLeftShape(s);
    TrimRightShape(left);
    assert s[i..i + |Strip(s)|] == left[..|Strip(s)|];
  }

  lemma StripMargins(s: string)
    ensures var i := |s| - |TrimLeft(s)|;
            && i + |Strip(s)| <= |s|
            && (forall k :: 0 <= k < i ==> IsSpace(s[k]))
            && (forall k :: i + |Strip(s)| <= k < |s| ==> IsSpace(s[k]))
  {
    TrimLeftShape(s);
    StripRightMargin(s);
  }

  lemma StripRightMargin(s: string)
    ensures forall k :: |s| - |TrimLeft(s)| + |Strip(s)| <= k < |s| ==> IsSpace(s[k])
  {
    var left := TrimLeft(s);
    var i := |s| - |left|;
    var r := TrimRight(left);
    assert Strip(s) == r;
    TrimLeftShape(s);
    TrimRightShape(left);
    forall k | i + |r| <= k < |s|
      ensures IsSpace(s[k])
    {
      assert s[k] == left[k - i];
    }
  }

  /** What is left neither starts nor ends with whitespace, so the slice
      is the longest such. */
  lemma StripEnds(s: string)
    ensures var r := Strip(s);
            r == [] || (!IsSpace(r[0]) && !IsSpace(r[|r| - 1]))
  {
    var left := TrimLeft(s);
    TrimLeftShape(s);
    TrimRightShape(left);
    assert Strip(s) != [] ==> Strip(s)[0] == left[0];
  }

  /** Python's `not s.strip()`: the text is empty or only whitespace. */
  lemma StripEmptyIffAllSpace(s: string)
    ensures Strip(s) == [] <==> AllSpace(s)
  {
    var left := TrimLeft(s);
    var i := |s| - |left|;
    TrimLeftShape(s);
    TrimRightShape(left);
    assert Strip(s) == TrimRight(left);
  }

  /** Stripping twice is stripping once. */
  lemma StripIdempotent(s: string)
    ensures Strip(Strip(s)) == Strip(s)
  {
    var r := Strip(s);
    StripEnds(s);
    assert TrimLeft(r) == r;
    assert TrimRight(r) == r;
  }

  function LowerChar(c: char): char {
    if 'A' <= c <= 'Z' then (c as int + 32) as char else c
  }

  /** `s.lower()` restricted to ASCII letters; other characters are kept. */
  function Lower(s: string): (r: string)
    ensures |r| == |s|
    ensures forall i :: 0 <= i < |s| ==> r[i] == LowerChar(s[i])
  {
    seq(|s|, i requires 0 <= i < |s| => LowerChar(s[i]))
  }

  /** `s.startswith(p)` */
  predicate StartsWith(s: string, p: string) {
    |p| <= |s| && s[..|p|] == p
  }

  /** `sep` occurs in `s` at index `j`. */
  predicate OccursAt(s: string, sep: string, j: int) {
    0 <= j && j + |sep| <= |s| && s[j..j + |sep|] == sep
  }

  /** `s.find(sep, i)`, as an option: the first occurrence at or after `i`. */
  function FindFrom(s: string, sep: string, i: nat): (r: Option<nat>)
    ensures r.Some? ==> i <= r.value && OccursAt(s, sep, r.value)
    ensures r.Some? ==> forall j :: i <= j < r.value ==> !OccursAt(s, sep, j)
    ensures r.None? ==> forall j :: i <= j ==> !OccursAt(s, sep, j)
    decreases |s| - i
  {
    if i + |sep| > |s| then None
    else if s[i..i + |sep|] == sep then Some(i)
    else FindFrom(s, sep, i + 1)
  }

  function Find(s: string, sep: string): (r: Option<nat>)
    ensures r.Some? ==> OccursAt(s, sep, r.value)
    ensures r.Some? ==> forall j :: 0 <= j < r.value ==> !OccursAt(s, sep, j)
    ensures r.None? ==> forall j :: !OccursAt(s, sep, j)
  {
    FindFrom(s, sep, 0)
  }

  /** Python's `sep in s`. */
  predicate Contains(s: string, sep: string) {
    Find(s, sep).Some?
  }

  lemma FindIsFirst(s: string, sep: string, k: nat)
    requires OccursAt(s, sep, k)
    requires forall j :: 0 <= j < k ==> !OccursAt(s, sep, j)
    ensures Find(s, sep) == Some(k)
  {
  }

  /** `s.split(sep)`: the pieces between the non-overlapping occurrences of
      `sep`, scanning from the left. */
  function Split(s: string, sep: string): (r: seq<string>)
    requires |sep| > 0
    ensures |r| >= 1
    decreases |s|
  {
    match Find(s, sep)
    case None => [s]
    case Some(k) => [s[..k]] + Split(s[k + |sep|..], sep)
  }

  /** `sep.join(parts)` */
  function Join(parts: seq<string>, sep: string): string
  {
    if |parts| == 0 then ""
    else if |parts| == 1 then parts[0]
    else parts[0] + sep + Join(parts[1..], sep)
  }

  /** The text of a join starts with the first part. */
  lemma JoinStartsWithFirst(parts: seq<string>, sep: string, i: nat)
    requires |parts| >= 1 && i < |parts[0]|
    ensures i < |Join(parts, sep)| && Join(parts, sep)[i] == parts[0][i]
  {
  }

  lemma JoinCons(a: string, t: seq<string>, sep: string)
    requires |t| >= 1
    ensures Join([a] + t, sep) == a + sep + Join(t, sep)
  {
    assert ([a] + t)[1..] == t;
  }

  lemma {:induction false} JoinSnoc(parts: seq<string>, sep: string)
    requires |parts| >= 2
    ensures Join(parts, sep) == Join(parts[..|parts| - 1], sep) + sep + parts[|parts| - 1]
    decreases |parts|
  {
    if |parts| > 2 {
      JoinSnoc(parts[1..], sep);
      assert parts[1..][..|parts| - 2] == parts[..|parts| - 1][1..];
    }
  }

  lemma SplitAt(s: string, sep: string, k: nat)
    requires |sep| > 0 && Find(s, sep) == Some(k)
    ensures Split(s, sep) == [s[..k]] + Split(s[k + |sep|..], sep)
    ensures s == s[..k] + sep + s[k + |sep|..]
  {
    assert s == s[..k] + s[k..k + |sep|] + s[k + |sep|..];
  }

  /** Joining the pieces of a split with the same separator gives back the text. */
  lemma {:induction false} SplitJoin(s: string, sep: string)
    requires |sep| > 0
    ensures Join(Split(s, sep), sep) == s
    decreases |s|
  {
    var f := Find(s, sep);
    if f.Some? {
      var k := f.value;
      var rest := s[k + |sep|..];
      SplitJoin(rest, sep);
      SplitAt(s, sep, k);
      JoinCons(s[..k], Split(rest, sep), sep);
    }
  }

  lemma OccursInPrefix(s: string, sep: string, n: nat, j: int)
    requires n <= |s| && OccursAt(s[..n], sep, j)
    ensures OccursAt(s, sep, j) && j + |sep| <= n
  {
    assert s[..n][j..j + |sep|] == s[j..j + |sep|];
  }

  lemma OccursInSuffix(s: string, sep: string, n: nat, j: int)
    requires n <= |s| && OccursAt(s[n..], sep, j)
    ensures OccursAt(s, sep, n + j)
  {
    assert s[n..][j..j + |sep|] == s[n + j..n + j + |sep|];
  }

  /** No piece of a split contains the separator. */
  lemma {:induction false} SplitPiecesFree(s: string, sep: string)
    requires |sep| > 0
    ensures forall i :: 0 <= i < |Split(s, sep)| ==> !Contains(Split(s, sep)[i], sep)
    decreases |s|
  {
    match Find(s, sep)
    case None =>
    case Some(k) =>
      var rest := s[k + |sep|..];
      SplitPiecesFree(rest, sep);
      if Contains(s[..k], sep) {
        var j := Find(s[..k], sep).value;
        OccursInPrefix(s, sep, k, j);
        assert false;
      }
      var parts := Split(s, sep);
      assert parts == [s[..k]] + Split(rest, sep);
      forall i | 0 <= i < |parts| ensures !Contains(parts[i], sep) {
        if i > 0 { assert parts[i] == Split(rest, sep)[i - 1]; }
      }
  }

  /** The first piece of a split is the text up to the first occurrence. */
  lemma SplitFirstPiece(s: string, sep: string)
    requires |sep| > 0
    ensures Find(s, sep).None? ==> Split(s, sep) == [s]
    ensures Find(s, sep).Some? ==> Split(s, sep)[0] == s[..Find(s, sep).value]
    ensures Find(s, sep).Some? ==> |Split(s, sep)| >= 2
    ensures Find(s, sep).Some? ==>
              Split(s, sep)[1] == Split(s[Find(s, sep).value + |sep|..], sep)[0]
  {
  }

  /** The last piece of a split with at least one separator is the text
      after the last occurrence of the separator. */
  lemma {:induction false} SplitLastPiece(s: string, sep: string)
    requires |sep| > 0 && Contains(s, sep)
    ensures var last := Split(s, sep)[|Split(s, sep)| - 1];
            && |last| + |sep| <= |s|
            && OccursAt(s, sep, |s| - |last| - |sep|)
            && last == s[|s| - |last|..]
            && !Contains(last, sep)
  {
    var parts := Split(s, sep);
    SplitFirstPiece(s, sep);
    SplitJoin(s, sep);
    SplitPiecesFree(s, sep);
    JoinSnoc(parts, sep);
    var i := |Join(parts[..|parts| - 1], sep)|;
    assert s == Join(parts[..|parts| - 1], sep) + sep + parts[|parts| - 1];
    assert s[i..i + |sep|] == sep;
    assert s[i + |sep|..] == parts[|parts| - 1];
    assert OccursAt(s, sep, i);
  }

  lemma OneCharOccurs(s: string, c: char, j: int)
    ensures OccursAt(s, [c], j) <==> 0 <= j < |s| && s[j] == c
  {
    if 0 <= j < |s| && s[j] == c { assert s[j..j + 1] == [c]; }
  }

  /** `c in s` for a one-character separator. */
  lemma ContainsChar(s: string, c: char)
    ensures Contains(s, [c]) <==> c in s
  {
    if c in s {
      var j :| 0 <= j < |s| && s[j] == c;
      OneCharOccurs(s, c, j);
    }
    if Contains(s, [c]) {
      OneCharOccurs(s, c, Find(s, [c]).value);
    }
  }

  /** Splitting on one character, then joining, round-trips pieces that do
      not contain that character. */
  lemma {:induction false} JoinSplitOneChar(parts: seq<string>, c: char)
    requires |parts| >= 1
    requires forall i :: 0 <= i < |parts| ==> c !in parts[i]
    ensures Split(Join(parts, [c]), [c]) == parts
    decreases |parts|
  {
    var p := parts[0];
    forall j ensures !OccursAt(p, [c], j) { OneCharOccurs(p, c, j); }
    if |parts| == 1 {
      assert Find(p, [c]).None?;
    } else {
      var tail := Join(parts[1..], [c]);
      var s := p + [c] + tail;
      assert Join(parts, [c]) == s;
      OneCharOccurs(s, c, |p|);
      forall j | 0 <= j < |p| ensures !OccursAt(s, [c], j) {
        OneCharOccurs(s, c, j);
        OneCharOccurs(p, c, j);
      }
      FindIsFirst(s, [c], |p|);
      assert s[|p| + 1..] == tail;
      assert s[..|p|] == p;
      assert Split(s, [c]) == [p] + Split(tail, [c]);
      JoinSplitOneChar(parts[1..], c);
      assert parts == [p] + parts[1..];
    }
  }

  /** Number of occurrences of `c` in `s`. */
  function CountChar(s: string, c: char): nat {
    multiset(s)[c]
  }

  /** `len(s.split(c))` is one more than the number of `c` in `s`. */
  lemma {:induction false} SplitCountsSeparators(s: string, c: char)
    ensures |Split(s, [c])| == CountChar(s, c) + 1
    decreases |s|
  {
    match Find(s, [c])
    case None =>
      forall j | 0 <= j < |s| ensures s[j] != c { OneCharOccurs(s, c, j); }
      assert c !in multiset(s);
    case Some(k) =>
      OneCharOccurs(s, c, k);
      forall j | 0 <= j < k ensures s[..k][j] != c { OneCharOccurs(s, c, j); }
      assert c !in multiset(s[..k]);
      assert s == s[..k] + [c] + s[k + 1..];
      assert multiset(s) == multiset(s[..k]) + multiset{c} + multiset(s[k + 1..]);
      SplitCountsSeparators(s[k + 1..], c);
  }

  /** `c * n` for a one-character string `c`; empty when `n <= 0`. */
  function Repeat(c: char, n: int): (r: string)
    ensures |r| == if n > 0 then n else 0
    ensures forall i :: 0 <= i < |r| ==> r[i] == c
    decreases if n > 0 then n else 0
  {
    if n <= 0 then "" else [c] + Repeat(c, n - 1)
  }

  /** `s[:n]` */
  function Take<T>(s: seq<T>, n: nat): (r: seq<T>)
    ensures |r| == if |s| <= n then |s| else n
    ensures r == s[..|r|]
  {
    if |s| <= n then s else s[..n]
  }

  /** `s.rstrip(c)` for one character `c`. */
  function RStripChar(s: string, c: char): (r: string)
    ensures |r| <= |s| && r == s[..|r|]
    ensures r == [] || r[|r| - 1] != c
    ensures forall i :: |r| <= i < |s| ==> s[i] == c
    decreases |s|
  {
    if s != [] && s[|s| - 1] == c then RStripChar(s[..|s| - 1], c) else s
  }

  /** The number a string of decimal digits denotes, most significant
      digit first. */
  function DigitsValue(s: string): int {
    if s == [] then 0
    else DigitsValue(s[..|s| - 1]) * 10 + (s[|s| - 1] as int - '0' as int)
  }

  /** `str(n)` for a natural number: its decimal digits, with no leading
      zero. */
  function Decimal(n: nat): (r: string)
    ensures |r| >= 1
    ensures forall i :: 0 <= i < |r| ==> '0' <= r[i] <= '9'
    ensures DigitsValue(r) == n
    ensures n >= 10 ==> r[0] != '0'
  {
    var d := ['0' + (n % 10) as char];
    if n < 10 then d else Decimal(n / 10) + d
  }

  /** `str(n)` for an integer. */
  function IntToString(n: int): string {
    if n < 0 then "-" + Decimal(-n) else Decimal(n)
  }
}
