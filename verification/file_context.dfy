/** One file under check: its paths, whether it has failed, and the reasons
    recorded so far. The record is immutable; `Fail` returns the updated
    record. */
module FileContexts {
  import opened Wrappers
  import opened Text
  import opened Seqs

  datatype FileContext = FileContext(
    fullPath: string,
    relativePath: string,
    failed: bool,
    failReasons: seq<string>)

  /** A file with recorded reasons has failed. */
  predicate Valid(f: FileContext) {
    |f.failReasons| > 0 ==> f.failed
  }

  /** The path below the repository root, with `/` separators: the root and
      the one separator after it are cut off by length, and every backslash
      becomes a slash. A path shorter than that cannot be cut. */
  function RelativePath(root: string, fullPath: string): (r: Result<string, string>)
    ensures r.Success? <==> |fullPath| >= |root| + 1
    ensures r.Success? ==> |r.value| == |fullPath| - |root| - 1
    ensures r.Success? ==> '\\' !in r.value
    ensures r.Success? ==> forall i :: 0 <= i < |r.value| && fullPath[|root| + 1 + i] != '\\' ==>
                              r.value[i] == fullPath[|root| + 1 + i]
    ensures r.Success? ==> forall i :: 0 <= i < |r.value| && fullPath[|root| + 1 + i] == '\\' ==> r.value[i] == '/'
  {
    if |fullPath| < |root| + 1 then Failure("ArgumentOutOfRangeException: startIndex")
    else Success(Replace(fullPath[|root| + 1..], '\\', '/'))
  }

  /** A file found under the root has the remainder of its path as its
      relative path, whatever the separator character after the root. */
  lemma RelativePathOfChild(root: string, sep: char, rest: string)
    ensures RelativePath(root, root + [sep] + rest) == Success(Replace(rest, '\\', '/'))
  {
    assert (root + [sep] + rest)[|root| + 1..] == rest;
  }

  /** `new FileContext(path)`: not failed, no reasons. */
  function NewFile(root: string, fullPath: string): (r: Result<FileContext, string>)
    ensures r.Success? <==> RelativePath(root, fullPath).Success?
    ensures r.Success? ==> Valid(r.value) && !r.value.failed && r.value.fullPath == fullPath
  {
    var relative :- RelativePath(root, fullPath);
    Success(FileContext(fullPath, relative, false, []))
  }

  /** `Fail(reason)`: marks the file failed and records the reason when one
      is given. */
  function Fail(f: FileContext, reason: Option<string>): (r: FileContext)
    ensures r.failed && Valid(r)
    ensures r.fullPath == f.fullPath && r.relativePath == f.relativePath
    ensures reason.None? ==> r.failReasons == f.failReasons
    ensures reason.Some? ==> r.failReasons == f.failReasons + [reason.value]
  {
    f.(failed := true, failReasons := f.failReasons + (if reason.Some? then [reason.value] else []))
  }

  /** A sequence of `Fail` calls, applied in order. */
  function FailAll(f: FileContext, calls: seq<Option<string>>): FileContext
    decreases |calls|
  {
    if |calls| == 0 then f else FailAll(Fail(f, calls[0]), calls[1..])
  }

  /** Repeated `Fail` calls keep every given reason, in call order and with
      duplicates; the file is failed exactly when it was before or some call
      was made; the paths never change; and validity is preserved. */
  lemma FailAllKeepsReasons(f: FileContext, calls: seq<Option<string>>)
    ensures FailAll(f, calls).failReasons == f.failReasons + Present(calls)
    ensures FailAll(f, calls).failed <==> f.failed || |calls| > 0
    ensures FailAll(f, calls).fullPath == f.fullPath
    ensures FailAll(f, calls).relativePath == f.relativePath
    ensures Valid(f) ==> Valid(FailAll(f, calls))
  {
    FailAllReasons(f, calls);
    FailAllFlags(f, calls);
  }

  lemma {:induction false} FailAllReasons(f: FileContext, calls: seq<Option<string>>)
    ensures FailAll(f, calls).failReasons == f.failReasons + Present(calls)
    decreases |calls|
  {
    if |calls| > 0 {
      var g := Fail(f, calls[0]);
      var mine := if calls[0].Some? then [calls[0].value] else [];
      var rest := Present(calls[1..]);
      assert g.failReasons == f.failReasons + mine;
      FailAllReasons(g, calls[1..]);
      assert FailAll(f, calls).failReasons == (f.failReasons + mine) + rest;
      PresentCons(calls);
      AppendAssociates(f.failReasons, mine, rest);
    }
  }

  lemma {:induction false} FailAllFlags(f: FileContext, calls: seq<Option<string>>)
    ensures FailAll(f, calls).failed <==> f.failed || |calls| > 0
    ensures FailAll(f, calls).fullPath == f.fullPath
    ensures FailAll(f, calls).relativePath == f.relativePath
    ensures Valid(f) ==> Valid(FailAll(f, calls))
    decreases |calls|
  {
    if |calls| > 0 {
      FailAllFlags(Fail(f, calls[0]), calls[1..]);
    }
  }

  /** A failed file never becomes un-failed. */
  lemma FailureIsPermanent(f: FileContext, calls: seq<Option<string>>)
    requires f.failed
    ensures FailAll(f, calls).failed
  {
    FailAllKeepsReasons(f, calls);
  }

  /** `ToString`: "OK" for a passing file; for a failed one, "Failed: "
      followed by the single reason, "(no reason)", or the decimal count of
      reasons followed by " reasons". */
  function Describe(f: FileContext): (r: string)
    ensures r == "OK" <==> !f.failed
    ensures f.failed ==> StartsWith(r, "Failed: ")
    ensures f.failed && |f.failReasons| == 0 ==> r == "Failed: (no reason)"
    ensures f.failed && |f.failReasons| == 1 ==> r == "Failed: " + f.failReasons[0]
    ensures f.failed && |f.failReasons| >= 2 ==>
      && |r| >= 17 && r[|r| - 8..] == " reasons"
      && (forall i :: 8 <= i < |r| - 8 ==> IsDigit(r[i]))
      && DigitsValue(r[8..|r| - 8]) == |f.failReasons|
  {
    if !f.failed then "OK"
    else if |f.failReasons| == 0 then "Failed: (no reason)"
    else if |f.failReasons| == 1 then "Failed: " + f.failReasons[0]
    else
      var count := NatToString(|f.failReasons|);
      var r := "Failed: " + count + " reasons";
      assert r[8..|r| - 8] == count;
      NatToStringValue(|f.failReasons|);
      r
  }
}
