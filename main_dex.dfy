/**
 * `MainDexGenerator`: drops from the main-dex keep list every line that
 * mentions an excluded item. The Gradle task's input files are given as values
 * (path and lines); the rewritten file is returned in place of the old one.
 * The constructor's `excludedList` is the `excluded` argument here.
 */
module MainDex {
  import opened Strings

  const MAIN_DEX_FILE := "mainDexList.txt"

  datatype InputFile = InputFile(path: string, lines: seq<string>)

  /** `isNotMatch`: scans the exclusions in order, false on the first hit. */
  function IsNotMatch(excluded: seq<string>, line: string): (r: bool)
    ensures r <==> forall k :: 0 <= k < |excluded| ==> !Contains(line, excluded[k])
    ensures excluded == [] ==> r
  {
    if excluded == [] then true
    else if Contains(line, excluded[0]) then false
    else
      var r := IsNotMatch(excluded[1..], line);
      assert forall k :: 1 <= k < |excluded| ==> excluded[k] == excluded[1..][k - 1];
      r
  }

  /** `lines.filter { isNotMatch(it) }`. */
  function Kept(excluded: seq<string>, lines: seq<string>): (r: seq<string>)
    ensures |r| <= |lines|
    ensures forall k :: 0 <= k < |r| ==> IsNotMatch(excluded, r[k])
    ensures forall k :: 0 <= k < |lines| && IsNotMatch(excluded, lines[k]) ==> lines[k] in r
  {
    if lines == [] then []
    else
      var rest := Kept(excluded, lines[1..]);
      assert forall k :: 1 <= k < |lines| ==> lines[k] == lines[1..][k - 1];
      if IsNotMatch(excluded, lines[0]) then [lines[0]] + rest else rest
  }

  /** `a` is `b` with some elements left out, the rest in their order. */
  ghost predicate Subsequence(a: seq<string>, b: seq<string>)
    decreases |b|
  {
    if a == [] then true
    else if b == [] then false
    else if a[0] == b[0] then Subsequence(a[1..], b[1..])
    else Subsequence(a, b[1..])
  }

  /**
   * The kept lines are the input lines in their original order, none of
   * them mentioning an excluded item; with no exclusions nothing is dropped.
   */
  lemma {:induction false} KeptIsOrderedSubsequence(excluded: seq<string>, lines: seq<string>)
    ensures Subsequence(Kept(excluded, lines), lines)
    ensures forall k, x :: 0 <= k < |excluded| && x in Kept(excluded, lines) ==> !Contains(x, excluded[k])
    ensures excluded == [] ==> Kept(excluded, lines) == lines
    decreases |lines|
  {
    if lines != [] {
      KeptIsOrderedSubsequence(excluded, lines[1..]);
      var rest := Kept(excluded, lines[1..]);
      if !IsNotMatch(excluded, lines[0]) && rest != [] {
        // a dropped line cannot be the first kept one
        assert rest[0] != lines[0];
      }
    }
  }

  /**
   * Each line is kept as many times as it occurs when it mentions no
   * excluded item, and not at all otherwise: duplicates survive the filter.
   */
  lemma {:induction false} KeptMultiplicity(excluded: seq<string>, lines: seq<string>)
    ensures forall x :: multiset(Kept(excluded, lines))[x] == if IsNotMatch(excluded, x) then multiset(lines)[x] else 0
    decreases |lines|
  {
    if lines != [] {
      KeptMultiplicity(excluded, lines[1..]);
      assert lines == [lines[0]] + lines[1..];
    }
  }

  /** `k` is the first input whose path ends with the main-dex file name. */
  ghost predicate IsFirstMainDex(files: seq<InputFile>, k: int) {
    && 0 <= k < |files|
    && EndsWith(files[k].path, MAIN_DEX_FILE)
    && forall j :: 0 <= j < k ==> !EndsWith(files[j].path, MAIN_DEX_FILE)
  }

  /**
   * `execute`: rewrites the first input whose path ends with
   * `mainDexList.txt` to its kept lines, then stops; every other input is
   * left as it was.
   */
  method Execute(excluded: seq<string>, files: seq<InputFile>) returns (result: seq<InputFile>)
    ensures |result| == |files|
    ensures forall k :: IsFirstMainDex(files, k) ==>
      result[k] == InputFile(files[k].path, Kept(excluded, files[k].lines))
    ensures forall k :: 0 <= k < |files| && !IsFirstMainDex(files, k) ==> result[k] == files[k]
  {
    result := files;
    var i := 0;
    while i < |files|
      invariant 0 <= i <= |files|
      invariant result == files
      invariant forall j :: 0 <= j < i ==> !EndsWith(files[j].path, MAIN_DEX_FILE)
    {
      var inputFile := files[i];
      if EndsWith(inputFile.path, MAIN_DEX_FILE) {
        var kept := Kept(excluded, inputFile.lines);
        result := files[i := InputFile(inputFile.path, kept)];
        assert IsFirstMainDex(files, i);
        return;
      }
      i := i + 1;
    }
  }
}
