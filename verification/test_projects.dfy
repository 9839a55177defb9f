/** The test-project framework rule: the .NET versions the CI workflow sets
    up, mapped to target frameworks, against the target frameworks of every
    SDK-style test project; and the check that all test projects agree. */
module TestProjectRules {
  import opened Wrappers
  import opened Text
  import opened Seqs
  import opened Json
  import opened ActionsWorkflow
  import opened FileContexts
  import opened Projects
  import opened TestRunners

  // ---------------------------------------------------------------------
  // dotnet-version to target framework.
  // ---------------------------------------------------------------------

  /** The end of the run of digits starting at `i`. */
  function DigitRunEnd(s: string, i: nat): (j: nat)
    requires i <= |s|
    ensures i <= j <= |s|
    ensures forall k :: i <= k < j ==> IsDigit(s[k])
    ensures j == |s| || !IsDigit(s[j])
    decreases |s| - i
  {
    if i < |s| && IsDigit(s[i]) then DigitRunEnd(s, i + 1) else i
  }

  /** `(\d+)\.0\.x` matches at position `i`. Since the digits are followed by
      a `.`, the digit group is the whole digit run starting at `i`. */
  predicate MajorAt(v: string, i: nat) {
    i < |v| && IsDigit(v[i]) && StartsWith(v[DigitRunEnd(v, i)..], ".0.x")
  }

  /** The leftmost match position at or after `i`. */
  function FirstMajorFrom(v: string, i: nat): (r: Option<nat>)
    requires i <= |v|
    ensures r.Some? ==> i <= r.value && MajorAt(v, r.value) && forall k :: i <= k < r.value ==> !MajorAt(v, k)
    ensures r.None? ==> forall k :: i <= k ==> !MajorAt(v, k)
    decreases |v| - i
  {
    if i == |v| then None
    else if MajorAt(v, i) then Some(i)
    else FirstMajorFrom(v, i + 1)
  }

  /** `DotNetVersionToTargetFramework`: the two `netcoreapp` versions by
      name, otherwise `net<major>.0` from the leftmost `<major>.0.x` in the
      value; anything else throws. */
  function DotNetVersionToTargetFramework(v: string): (r: Result<string, string>)
    ensures v == "2.1.x" ==> r == Success("netcoreapp2.1")
    ensures v == "3.1.x" ==> r == Success("netcoreapp3.1")
    ensures r.Success? ==> StartsWith(r.value, "net")
  {
    assert StartsWith("netcoreapp2.1", "net") && StartsWith("netcoreapp3.1", "net") by {
      assert "netcoreapp2.1"[..3] == "net" && "netcoreapp3.1"[..3] == "net";
    }
    if v == "2.1.x" then Success("netcoreapp2.1")
    else if v == "3.1.x" then Success("netcoreapp3.1")
    else
      match FirstMajorFrom(v, 0)
      case Some(i) =>
        var name := "net" + v[i..DigitRunEnd(v, i)] + ".0";
        assert name[..3] == "net";
        Success(name)
      case None =>
        Failure(UnmappableMessage(v))
  }

  function UnmappableMessage(v: string): string {
    UnmappableHead + v + UnmappableTail
  }

  const UnmappableHead := "Unable to map dotnet-version value (i.e. '8.0.x') to target framework (i.e. 'net8.0'. A mapping for the value '"
  const UnmappableTail := "' may be missing, or it may be incorrect."

  /** Apart from the two named versions, a value maps exactly when it holds
      `<digits>.0.x` somewhere, and then to `net<digits>.0` for the leftmost
      such occurrence. */
  lemma LeftmostMajorMapping(v: string)
    requires v != "2.1.x" && v != "3.1.x"
    ensures DotNetVersionToTargetFramework(v).Success? <==> exists i: nat :: MajorAt(v, i)
    ensures DotNetVersionToTargetFramework(v).Success? ==>
      exists i: nat :: MajorAt(v, i) && (forall k: nat :: k < i ==> !MajorAt(v, k)) &&
        DotNetVersionToTargetFramework(v).value == "net" + v[i..DigitRunEnd(v, i)] + ".0"
  {
    match FirstMajorFrom(v, 0)
    case Some(i) =>
    case None =>
  }

  /** Any major version written as `<major>.0.x` maps to `net<major>.0`. */
  lemma MajorVersionMaps(digits: string)
    requires |digits| > 0 && forall k :: 0 <= k < |digits| ==> IsDigit(digits[k])
    ensures DotNetVersionToTargetFramework(digits + ".0.x") == Success("net" + digits + ".0")
  {
    var v := digits + ".0.x";
    assert DigitRunEnd(v, 0) == |digits| by {
      DigitRunAcross(v, 0, |digits|);
    }
    assert v[|digits|..] == ".0.x";
    assert MajorAt(v, 0);
    assert v[0..|digits|] == digits;
    assert v != "2.1.x" && v != "3.1.x";
  }

  lemma {:induction false} DigitRunAcross(s: string, i: nat, j: nat)
    requires i <= j < |s|
    requires forall k :: i <= k < j ==> IsDigit(s[k])
    requires !IsDigit(s[j])
    ensures DigitRunEnd(s, i) == j
    decreases j - i
  {
    if i < j {
      DigitRunAcross(s, i + 1, j);
    }
  }

  /** Values with no `<digits>.0.x` in them are rejected. */
  lemma UnmappableVersion()
    ensures DotNetVersionToTargetFramework("9.0.1xx").Failure?
    ensures DotNetVersionToTargetFramework("").Failure?
  {
    var v := "9.0.1xx";
    assert DigitRunEnd(v, 0) == 1 && v[1..] == ".0.1xx";
    assert DigitRunEnd(v, 2) == 3 && v[3..] == ".1xx";
    assert DigitRunEnd(v, 4) == 5 && v[5..] == "xx";
    forall k | 0 <= k
      ensures !MajorAt(v, k)
    {
      if k < |v| && IsDigit(v[k]) {
        assert k == 0 || k == 2 || k == 4;
      }
    }
  }

  // ---------------------------------------------------------------------
  // Version lists.
  // ---------------------------------------------------------------------

  function DropCarriageReturn(s: string): (r: string)
    ensures r == s || r + "\r" == s
  {
    if |s| > 0 && s[|s| - 1] == '\r' then s[..|s| - 1] else s
  }

  lemma AddedCarriageReturnDropped(s: string)
    ensures DropCarriageReturn(s + "\r") == s
  {
    var t := s + "\r";
    assert t[|t| - 1] == '\r' && t[..|t| - 1] == s;
  }

  /** The pieces between line breaks (`\n` or `\r\n`). Once blank pieces are
      dropped this is what splitting on `(\r?\n)+` leaves, since a run of
      line breaks only contributes blank pieces. */
  function LinePieces(s: string): (r: seq<string>)
    ensures forall i :: 0 <= i < |r| ==> '\n' !in r[i]
  {
    DropBreakCarriageReturns(Split(s, '\n'))
  }

  /** The `\r` of a `\r\n` break: dropped from every piece but the last. */
  function DropBreakCarriageReturns(parts: seq<string>): (r: seq<string>)
    ensures |r| == |parts|
    ensures forall i :: 0 <= i < |r| ==> r[i] == parts[i] || r[i] + "\r" == parts[i]
  {
    if |parts| <= 1 then parts else [DropCarriageReturn(parts[0])] + DropBreakCarriageReturns(parts[1..])
  }

  predicate NotBlank(s: string) {
    !IsBlank(s)
  }

  /** A multi-line `dotnet-version` value: one entry per non-blank line. */
  function VersionList(s: string): (r: seq<string>)
    ensures forall i :: 0 <= i < |r| ==> !IsBlank(r[i]) && '\n' !in r[i]
  {
    Filter(LinePieces(s), NotBlank)
  }

  predicate PlainLines(lines: seq<string>) {
    forall i :: 0 <= i < |lines| ==> NotBlank(lines[i]) && '\n' !in lines[i] && '\r' !in lines[i]
  }

  lemma {:induction false} NoCarriageReturnsToDrop(lines: seq<string>)
    requires PlainLines(lines)
    ensures DropBreakCarriageReturns(lines) == lines
  {
    if |lines| > 1 {
      NoCarriageReturnsToDrop(lines[1..]);
      assert |lines[0]| > 0 ==> lines[0][|lines[0]| - 1] != '\r';
    }
  }

  lemma {:induction false} BreakCarriageReturnsDropped(lines: seq<string>)
    requires |lines| >= 1
    requires PlainLines(lines)
    ensures DropBreakCarriageReturns(WithCarriageReturns(lines)) == lines
  {
    if |lines| > 1 {
      var tail := lines[1..];
      PlainTail(lines);
      BreakCarriageReturnsDropped(tail);
      WithCarriageReturnsStep(lines);
      DropBreakStep(lines[0] + "\r", WithCarriageReturns(tail));
      AddedCarriageReturnDropped(lines[0]);
      assert lines == [lines[0]] + tail;
    }
  }

  lemma PlainTail(lines: seq<string>)
    requires |lines| >= 1 && PlainLines(lines)
    ensures PlainLines(lines[1..])
  {
    var tail := lines[1..];
    forall i | 0 <= i < |tail|
      ensures NotBlank(tail[i]) && '\n' !in tail[i] && '\r' !in tail[i]
    {
      assert tail[i] == lines[i + 1];
    }
  }

  lemma WithCarriageReturnsStep(lines: seq<string>)
    requires |lines| > 1
    ensures WithCarriageReturns(lines) == [lines[0] + "\r"] + WithCarriageReturns(lines[1..])
  {
  }

  lemma DropBreakStep(first: string, rest: seq<string>)
    requires |rest| >= 1
    ensures DropBreakCarriageReturns([first] + rest) == [DropCarriageReturn(first)] + DropBreakCarriageReturns(rest)
  {
    assert ([first] + rest)[1..] == rest;
  }

  /** Lines joined with `\n` split back into the same lines, as long as
      each is non-blank and holds no line break or carriage return. */
  lemma VersionListOfLines(lines: seq<string>)
    requires |lines| >= 1
    requires PlainLines(lines)
    ensures VersionList(Join("\n", lines)) == lines
  {
    SplitJoin(lines, '\n');
    NoCarriageReturnsToDrop(lines);
    FilterKeepsAll(lines, NotBlank);
  }

  /** The same lines joined with `\r\n` split back the same way. */
  lemma VersionListOfCrLfLines(lines: seq<string>)
    requires |lines| >= 1
    requires PlainLines(lines)
    ensures VersionList(Join("\r\n", lines)) == lines
  {
    var withCr := WithCarriageReturns(lines);
    JoinCrLf(lines);
    CarriageReturnsAddNoBreaks(lines);
    SplitJoin(withCr, '\n');
    assert LinePieces(Join("\r\n", lines)) == DropBreakCarriageReturns(withCr);
    BreakCarriageReturnsDropped(lines);
    FilterKeepsAll(lines, NotBlank);
  }

  /** Every line but the last with a `\r` appended. */
  function WithCarriageReturns(lines: seq<string>): (r: seq<string>)
    requires |lines| >= 1
    ensures |r| == |lines|
    ensures forall i :: 0 <= i < |lines| - 1 ==> r[i] == lines[i] + "\r"
    ensures r[|lines| - 1] == lines[|lines| - 1]
  {
    if |lines| == 1 then lines else [lines[0] + "\r"] + WithCarriageReturns(lines[1..])
  }

  lemma CarriageReturnsAddNoBreaks(lines: seq<string>)
    requires |lines| >= 1
    requires PlainLines(lines)
    ensures forall i :: 0 <= i < |lines| ==> '\n' !in WithCarriageReturns(lines)[i]
  {
    var w := WithCarriageReturns(lines);
    forall i | 0 <= i < |lines|
      ensures '\n' !in w[i]
    {
      if i < |lines| - 1 {
        assert w[i] == lines[i] + "\r";
      }
    }
  }

  lemma {:induction false} JoinCrLf(lines: seq<string>)
    requires |lines| >= 1
    ensures Join("\r\n", lines) == Join("\n", WithCarriageReturns(lines))
  {
    if |lines| > 1 {
      JoinCrLf(lines[1..]);
      var w := WithCarriageReturns(lines);
      assert w[1..] == WithCarriageReturns(lines[1..]);
      assert lines[0] + "\r\n" + Join("\r\n", lines[1..]) == (lines[0] + "\r") + "\n" + Join("\n", w[1..]);
    }
  }

  /** Two version lists are `Is.EquivalentTo` each other: the same entries
      the same number of times, in any order. */
  predicate Equivalent(a: seq<string>, b: seq<string>) {
    multiset(a) == multiset(b)
  }

  predicate AllEquivalent(lists: seq<seq<string>>) {
    forall i :: 1 <= i < |lists| ==> Equivalent(lists[0], lists[i])
  }

  // ---------------------------------------------------------------------
  // Requested versions.
  // ---------------------------------------------------------------------

  const NullDictionary := "Value cannot be null. (Parameter 'dictionary')"

  /** `with.GetValueOrDefault(key)`: a missing or null value is null. */
  function WithValue(with: Settings, key: string): Option<string> {
    match Find(with, key)
    case None => None
    case Some(v) => v
  }

  predicate SetsUpDotNet(step: Step) {
    step.uses.Some? && StartsWith(step.uses.value, "actions/setup-dotnet@")
  }

  /** The `major.minor` SDK version of the `global-json-file` a step names,
      when it names one and `globalJsonVersion` knows its version.
      `globalJsonVersion` stands for reading that file: the `major.minor` of
      its SDK version, if the file exists and states one. */
  function GlobalJsonSdk(with: Settings, globalJsonVersion: string -> Option<string>): Option<string> {
    var at := WithValue(with, "global-json-file");
    if at.Some? then globalJsonVersion(at.value) else None
  }

  /** The version text of one `setup-dotnet` step: its `dotnet-version`,
      preceded by `<major.minor>.x` and a line break when the step names a
      `global-json-file` whose SDK version is known. A null `with` throws. */
  function StepVersions(step: Step, globalJsonVersion: string -> Option<string>): (r: Result<Option<string>, string>)
    ensures r.Failure? <==> step.with.None?
    ensures step.with.None? ==> r == Failure(NullDictionary)
    ensures step.with.Some? && GlobalJsonSdk(step.with.value, globalJsonVersion).Some? ==>
      r == Success(Some(GlobalJsonSdk(step.with.value, globalJsonVersion).value + ".x\n"
                        + WithValue(step.with.value, "dotnet-version").GetOr("")))
    ensures step.with.Some? && GlobalJsonSdk(step.with.value, globalJsonVersion).None? ==>
      r == Success(WithValue(step.with.value, "dotnet-version"))
    ensures r.Success? && WithValue(step.with.value, "global-json-file").None? ==>
      r.value == WithValue(step.with.value, "dotnet-version")
    ensures r.Success? && r.value.Some? && WithValue(step.with.value, "dotnet-version").Some? ==>
      EndsWith(r.value.value, WithValue(step.with.value, "dotnet-version").value)
  {
    if step.with.None? then Failure(NullDictionary)
    else
      var versions := WithValue(step.with.value, "dotnet-version");
      var sdk := GlobalJsonSdk(step.with.value, globalJsonVersion);
      if sdk.Some? then
        var prefix := sdk.value + ".x\n";
        var text := prefix + versions.GetOr("");
        assert versions.Some? ==> text[|prefix|..] == versions.value;
        Success(Some(text))
      else Success(versions)
  }

  predicate EndsWith(s: string, suffix: string) {
    |suffix| <= |s| && s[|s| - |suffix|..] == suffix
  }

  /** With a known `global.json` SDK version, the step's version list is
      that version's `major.minor.x` followed by the `dotnet-version` lines. */
  lemma GlobalJsonVersionListedFirst(step: Step, globalJsonVersion: string -> Option<string>)
    requires step.with.Some? && GlobalJsonSdk(step.with.value, globalJsonVersion).Some?
    requires '\n' !in GlobalJsonSdk(step.with.value, globalJsonVersion).value
    ensures StepVersions(step, globalJsonVersion).Success?
    ensures StepVersions(step, globalJsonVersion).value.Some?
    ensures VersionList(StepVersions(step, globalJsonVersion).value.value) ==
      [GlobalJsonSdk(step.with.value, globalJsonVersion).value + ".x"]
        + VersionList(WithValue(step.with.value, "dotnet-version").GetOr(""))
  {
    var head := GlobalJsonSdk(step.with.value, globalJsonVersion).value + ".x";
    var versions := WithValue(step.with.value, "dotnet-version").GetOr("");
    assert StepVersions(step, globalJsonVersion).value.value == head + "\n" + versions;
    VersionListAfterLine(head, versions);
  }

  /** A non-blank line without a line break, then a break, then more text:
      the line comes first in the version list. */
  lemma VersionListAfterLine(head: string, versions: string)
    requires |head| > 0 && head[|head| - 1] == 'x' && '\n' !in head
    ensures VersionList(head + "\n" + versions) == [head] + VersionList(versions)
  {
    SplitPrefix(head, versions, '\n');
    var rest := Split(versions, '\n');
    DropBreakStep(head, rest);
    assert DropCarriageReturn(head) == head;
    var pieces := [head] + DropBreakCarriageReturns(rest);
    assert !IsBlank(head) by {
      assert !IsWhiteSpace(head[|head| - 1]);
    }
    assert pieces[1..] == DropBreakCarriageReturns(rest);
  }

  /** The selected steps of one job, in order, read as a separate first
      stage. A null `steps` or a null step throws. */
  function DotNetSteps(steps: Option<seq<Option<Step>>>): (r: Result<seq<Step>, string>)
    ensures r.Success? <==> steps.Some? && forall i :: 0 <= i < |steps.value| ==> steps.value[i].Some?
    ensures r.Success? ==> forall i :: 0 <= i < |r.value| ==> SetsUpDotNet(r.value[i]) && Some(r.value[i]) in steps.value
    ensures r.Success? ==> forall i :: 0 <= i < |steps.value| && SetsUpDotNet(steps.value[i].value) ==>
      steps.value[i].value in r.value
    decreases if steps.Some? then |steps.value| else 0
  {
    if steps.None? then Failure(NullSource)
    else if |steps.value| == 0 then Success([])
    else if steps.value[0].None? then Failure(NullReference)
    else
      var rest :- DotNetSteps(Some(steps.value[1..]));
      var step := steps.value[0].value;
      assert forall i :: 1 <= i < |steps.value| ==> steps.value[i] == steps.value[1..][i - 1];
      Success((if SetsUpDotNet(step) then [step] else []) + rest)
  }

  /** The version texts of steps that all have a `with`, one per step. */
  function StepTexts(steps: seq<Step>, globalJsonVersion: string -> Option<string>): (r: seq<Option<string>>)
    requires forall i :: 0 <= i < |steps| ==> steps[i].with.Some?
    ensures |r| == |steps|
    ensures forall i :: 0 <= i < |steps| ==> StepVersions(steps[i], globalJsonVersion) == Success(r[i])
  {
    seq(|steps|, i requires 0 <= i < |steps| => StepVersions(steps[i], globalJsonVersion).value)
  }

  /** The version texts of already selected `setup-dotnet` steps, nulls
      dropped, in order; the first step without a `with` throws. */
  function StepListVersions(steps: seq<Step>, globalJsonVersion: string -> Option<string>): (r: Result<seq<string>, string>)
    ensures r.Success? <==> forall i :: 0 <= i < |steps| ==> steps[i].with.Some?
    ensures r.Success? ==> |r.value| <= |steps|
    ensures r.Success? ==> r.value == Present(StepTexts(steps, globalJsonVersion))
    ensures r.Failure? ==> r == Failure(NullDictionary)
  {
    if |steps| == 0 then Success([])
    else
      var v :- StepVersions(steps[0], globalJsonVersion);
      var rest :- StepListVersions(steps[1..], globalJsonVersion);
      assert forall i :: 1 <= i < |steps| ==> steps[i] == steps[1..][i - 1];
      assert StepTexts(steps, globalJsonVersion)[1..] == StepTexts(steps[1..], globalJsonVersion);
      Success((if v.Some? then [v.value] else []) + rest)
  }

  /** What one step of a job contributes as the lazy query reaches it: a
      null step throws in the `Uses?` test, a `setup-dotnet` step is mapped
      to its version text at once, any other step contributes nothing. */
  function StepOutcome(step: Option<Step>, globalJsonVersion: string -> Option<string>): (r: Result<Option<string>, string>)
    ensures r.Failure? <==> step.None? || (SetsUpDotNet(step.value) && step.value.with.None?)
    ensures step.None? ==> r == Failure(NullReference)
    ensures step.Some? && SetsUpDotNet(step.value) && step.value.with.None? ==> r == Failure(NullDictionary)
    ensures step.Some? && !SetsUpDotNet(step.value) ==> r == Success(None)
    ensures r.Success? && r.value.Some? ==> SetsUpDotNet(step.value) && step.value.with.Some?
  {
    if step.None? then Failure(NullReference)
    else if SetsUpDotNet(step.value) then StepVersions(step.value, globalJsonVersion)
    else Success(None)
  }

  /** The version texts of one job, evaluated step by step as the deferred
      `Where`/`Select` chain does: a null `steps` throws, and otherwise the
      first step that throws decides the error. */
  function JobVersions(steps: Option<seq<Option<Step>>>, globalJsonVersion: string -> Option<string>): (r: Result<seq<string>, string>)
    ensures steps.None? ==> r == Failure(NullSource)
    ensures r.Success? <==> steps.Some? && forall i :: 0 <= i < |steps.value| ==> StepOutcome(steps.value[i], globalJsonVersion).Success?
    ensures steps.Some? ==> forall i ::
      (&& 0 <= i < |steps.value| && StepOutcome(steps.value[i], globalJsonVersion).Failure?
       && forall j :: 0 <= j < i ==> StepOutcome(steps.value[j], globalJsonVersion).Success?)
      ==> r == Failure(StepOutcome(steps.value[i], globalJsonVersion).error)
    decreases if steps.Some? then |steps.value| else 0
  {
    if steps.None? then Failure(NullSource)
    else if |steps.value| == 0 then Success([])
    else
      var first :- StepOutcome(steps.value[0], globalJsonVersion);
      var rest :- JobVersions(Some(steps.value[1..]), globalJsonVersion);
      assert forall i :: 1 <= i < |steps.value| ==> steps.value[i] == steps.value[1..][i - 1];
      Success((if first.Some? then [first.value] else []) + rest)
  }

  /** When no step throws, reading a job lazily gives what the two stages
      give when run one after the other: select the `setup-dotnet` steps,
      then map each to its version text. */
  lemma {:induction false} LazyAgreesWithStaged(steps: seq<Option<Step>>, globalJsonVersion: string -> Option<string>)
    requires JobVersions(Some(steps), globalJsonVersion).Success?
    ensures DotNetSteps(Some(steps)).Success?
    ensures StepListVersions(DotNetSteps(Some(steps)).value, globalJsonVersion) == JobVersions(Some(steps), globalJsonVersion)
  {
    if |steps| > 0 {
      assert steps[1..] == steps[1..];
      assert StepOutcome(steps[0], globalJsonVersion).Success?;
      assert JobVersions(Some(steps[1..]), globalJsonVersion).Success?;
      LazyAgreesWithStaged(steps[1..], globalJsonVersion);
      StagedStep(steps, globalJsonVersion);
    }
  }

  /** One step of the staged reading: selecting the `setup-dotnet` steps
      first and mapping them afterwards gives, for a non-null first step,
      its text followed by the texts of the remaining steps. */
  lemma StagedStep(steps: seq<Option<Step>>, globalJsonVersion: string -> Option<string>)
    requires |steps| > 0 && steps[0].Some?
    requires StepOutcome(steps[0], globalJsonVersion).Success?
    requires DotNetSteps(Some(steps[1..])).Success?
    requires StepListVersions(DotNetSteps(Some(steps[1..])).value, globalJsonVersion).Success?
    ensures DotNetSteps(Some(steps)).Success?
    ensures var first := StepOutcome(steps[0], globalJsonVersion).value;
      StepListVersions(DotNetSteps(Some(steps)).value, globalJsonVersion) ==
        Success((if first.Some? then [first.value] else []) + StepListVersions(DotNetSteps(Some(steps[1..])).value, globalJsonVersion).value)
  {
    var step := steps[0].value;
    var tail := DotNetSteps(Some(steps[1..])).value;
    assert DotNetSteps(Some(steps)) == Success((if SetsUpDotNet(step) then [step] else []) + tail);
    if SetsUpDotNet(step) {
      StepListCons(step, tail, globalJsonVersion);
    } else {
      assert StepOutcome(steps[0], globalJsonVersion) == Success(None);
      assert DotNetSteps(Some(steps)).value == tail;
      var texts := StepListVersions(tail, globalJsonVersion).value;
      assert [] + texts == texts;
    }
  }

  lemma StepListCons(step: Step, tail: seq<Step>, globalJsonVersion: string -> Option<string>)
    requires StepVersions(step, globalJsonVersion).Success?
    requires StepListVersions(tail, globalJsonVersion).Success?
    ensures var first := StepVersions(step, globalJsonVersion).value;
      StepListVersions([step] + tail, globalJsonVersion) ==
        Success((if first.Some? then [first.value] else []) + StepListVersions(tail, globalJsonVersion).value)
  {
    var selected := [step] + tail;
    assert selected[0] == step && selected[1..] == tail;
  }

  /** Lazy evaluation shows in the error: a `setup-dotnet` step without a
      `with` ahead of a null step throws for the missing `with`, where
      selecting all steps first would have thrown for the null step. */
  lemma ErrorsInterleavePerStep(step: Step, globalJsonVersion: string -> Option<string>)
    requires SetsUpDotNet(step) && step.with.None?
    ensures JobVersions(Some([Some(step), None]), globalJsonVersion) == Failure(NullDictionary)
    ensures DotNetSteps(Some([Some(step), None])) == Failure(NullReference)
  {
    assert StepOutcome(Some(step), globalJsonVersion) == Failure(NullDictionary);
    assert [Some(step), None][1..] == [None];
    var last: seq<Option<Step>> := [None];
    assert last[1..] == [];
  }

  /** The version texts of every `setup-dotnet` step of every job, nulls
      dropped, in job and step order; the first step (or null job step
      list) that throws decides the error. */
  function RequestedVersions(jobs: seq<Job>, globalJsonVersion: string -> Option<string>): (r: Result<seq<string>, string>)
    ensures r.Success? <==> forall i :: 0 <= i < |jobs| ==> JobVersions(jobs[i].steps, globalJsonVersion).Success?
    ensures forall i ::
      (&& 0 <= i < |jobs| && JobVersions(jobs[i].steps, globalJsonVersion).Failure?
       && forall j :: 0 <= j < i ==> JobVersions(jobs[j].steps, globalJsonVersion).Success?)
      ==> r == Failure(JobVersions(jobs[i].steps, globalJsonVersion).error)
    ensures |jobs| == 1 ==> r == JobVersions(jobs[0].steps, globalJsonVersion)
    ensures r.Success? ==> forall i :: 0 <= i < |jobs| ==> DotNetSteps(jobs[i].steps).Success?
  {
    if |jobs| == 0 then Success([])
    else
      var mine :- JobVersions(jobs[0].steps, globalJsonVersion);
      var rest :- RequestedVersions(jobs[1..], globalJsonVersion);
      LazyAgreesWithStaged(jobs[0].steps.value, globalJsonVersion);
      assert |jobs| == 1 ==> rest == [] && mine + rest == mine;
      assert forall i :: 1 <= i < |jobs| ==> jobs[i] == jobs[1..][i - 1];
      Success(mine + rest)
  }

  /** Two readings one after the other: the first to throw decides the
      error, and otherwise the texts are joined in order. */
  function Then(x: Result<seq<string>, string>, y: Result<seq<string>, string>): Result<seq<string>, string> {
    match x
    case Failure(e) => Failure(e)
    case Success(u) =>
      match y
      case Failure(e) => Failure(e)
      case Success(v) => Success(u + v)
  }

  lemma ThenAssociates(x: Result<seq<string>, string>, y: Result<seq<string>, string>, z: Result<seq<string>, string>)
    ensures Then(x, Then(y, z)) == Then(Then(x, y), z)
  {
    if x.Success? && y.Success? && z.Success? {
      assert x.value + (y.value + z.value) == (x.value + y.value) + z.value;
    }
  }

  /** The first job is read before the others. */
  lemma RequestedVersionsCons(jobs: seq<Job>, globalJsonVersion: string -> Option<string>)
    requires |jobs| > 0
    ensures RequestedVersions(jobs, globalJsonVersion) ==
      Then(JobVersions(jobs[0].steps, globalJsonVersion), RequestedVersions(jobs[1..], globalJsonVersion))
  {
  }

  /** The jobs are read one after the other: the texts of two lists of jobs
      are the texts of the first followed by those of the second, and the
      first to throw decides the error. */
  lemma {:induction false} RequestedVersionsOfAppended(a: seq<Job>, b: seq<Job>, globalJsonVersion: string -> Option<string>)
    ensures RequestedVersions(a + b, globalJsonVersion) ==
      Then(RequestedVersions(a, globalJsonVersion), RequestedVersions(b, globalJsonVersion))
  {
    if |a| == 0 {
      assert a + b == b;
      var other := RequestedVersions(b, globalJsonVersion);
      if other.Success? {
        assert [] + other.value == other.value;
      }
    } else {
      assert (a + b)[0] == a[0];
      assert (a + b)[1..] == a[1..] + b;
      RequestedVersionsOfAppended(a[1..], b, globalJsonVersion);
      RequestedVersionsCons(a + b, globalJsonVersion);
      RequestedVersionsCons(a, globalJsonVersion);
      ThenAssociates(JobVersions(a[0].steps, globalJsonVersion), RequestedVersions(a[1..], globalJsonVersion),
                     RequestedVersions(b, globalJsonVersion));
    }
  }

  function VersionLists(versions: seq<string>): (r: seq<seq<string>>)
    ensures |r| == |versions|
    ensures forall i :: 0 <= i < |versions| ==> r[i] == VersionList(versions[i])
  {
    seq(|versions|, i requires 0 <= i < |versions| => VersionList(versions[i]))
  }

  /** The expected target frameworks: the mapping of every entry of the
      first version list, in order; the first unmappable entry throws. */
  function ExpectedFrameworks(versions: seq<string>): (r: Result<seq<string>, string>)
    ensures r.Success? <==> forall i :: 0 <= i < |versions| ==> DotNetVersionToTargetFramework(versions[i]).Success?
    ensures r.Success? ==> |r.value| == |versions|
    ensures r.Success? ==> forall i :: 0 <= i < |versions| ==> DotNetVersionToTargetFramework(versions[i]) == Success(r.value[i])
  {
    MapOrFail(versions, DotNetVersionToTargetFramework)
  }

  // ---------------------------------------------------------------------
  // The per-project check.
  // ---------------------------------------------------------------------

  /** `tfm.Contains('-') ? tfm.Split('-')[0] : tfm` over the `;`-separated list. */
  function NormalizeFrameworks(text: string): (r: seq<string>)
    ensures |r| == |Split(text, ';')|
    ensures forall i :: 0 <= i < |r| ==> r[i] == Before(Split(text, ';')[i], '-')
  {
    var parts := Split(text, ';');
    seq(|parts|, i requires 0 <= i < |parts| => Before(parts[i], '-'))
  }

  /** A platform suffix is cut off: `net8.0-windows` is `net8.0`. */
  lemma PlatformSuffixIsCut(tfm: string, platform: string)
    requires ';' !in tfm && '-' !in tfm && ';' !in platform
    ensures NormalizeFrameworks(tfm + "-" + platform) == [tfm]
  {
    var text := tfm + "-" + platform;
    assert ';' !in text by {
      assert forall k :: 0 <= k < |text| ==> text[k] == (if k < |tfm| then tfm[k] else if k == |tfm| then '-' else platform[k - |tfm| - 1]);
    }
    SplitNoSeparator(text, ';');
    BeforeSeparator(tfm, '-', platform);
  }

  predicate IsNetFramework(tfm: string) {
    StartsWith(tfm, "net4")
  }

  predicate IsModernFramework(tfm: string) {
    !IsNetFramework(tfm)
  }

  const FrameworksMismatch := "Target frameworks don't match the dotnet-versions in the ci.yml workflow"

  /** What the check records for a project (its non-.NET-Framework target
      frameworks, `;`-joined) and the `Fail` calls it makes: one, exactly
      when some such framework is not expected. */
  function CheckProject(p: Project, expected: seq<string>): (r: Result<(string, seq<Option<string>>), string>)
    ensures r.Success? <==> TargetFrameworksText(p).Success?
    ensures r.Success? ==>
      var frameworks := NormalizeFrameworks(TargetFrameworksText(p).value);
      && r.value.0 == Join(";", Filter(frameworks, IsModernFramework))
      && (r.value.1 == [] || r.value.1 == [Some(FrameworksMismatch)])
      && (r.value.1 != [] <==> exists i :: 0 <= i < |frameworks| && !IsNetFramework(frameworks[i]) && frameworks[i] !in expected)
  {
    var text :- TargetFrameworksText(p);
    var frameworks := NormalizeFrameworks(text);
    var modern := Filter(frameworks, IsModernFramework);
    var allExpected := forall i :: 0 <= i < |modern| ==> modern[i] in expected;
    Success((Join(";", modern), if allExpected then [] else [Some(FrameworksMismatch)]))
  }

  /** The per-file check handed to the runner. */
  function ProjectCheck(load: Loader, expected: seq<string>): (check: Check)
    ensures forall f :: check(f).Success? <==> TargetFrameworksText(load(f.fullPath)).Success?
    ensures forall f :: check(f).Success? ==>
      var frameworks := NormalizeFrameworks(TargetFrameworksText(load(f.fullPath)).value);
      && (check(f).value == [] || check(f).value == [Some(FrameworksMismatch)])
      && (check(f).value != [] <==> exists i :: 0 <= i < |frameworks| && !IsNetFramework(frameworks[i]) && frameworks[i] !in expected)
  {
    (f: FileContext) =>
      match CheckProject(load(f.fullPath), expected)
      case Success(outcome) => Success(outcome.1)
      case Failure(e) => Failure(e)
  }

  /** The recorded framework strings of the files, in order. */
  function Collected(files: seq<FileContext>, load: Loader, expected: seq<string>): (r: Result<seq<string>, string>)
    ensures r.Success? <==> forall i :: 0 <= i < |files| ==> CheckProject(load(files[i].fullPath), expected).Success?
    ensures r.Success? ==> |r.value| == |files|
    ensures r.Success? ==> forall i :: 0 <= i < |files| ==> r.value[i] == CheckProject(load(files[i].fullPath), expected).value.0
  {
    var record := Recorded(load, expected);
    var r := MapOrFail(files, record);
    assert forall i :: 0 <= i < |files| ==>
      (record(files[i]).Success? <==> CheckProject(load(files[i].fullPath), expected).Success?);
    r
  }

  /** The framework string the check records for one file. */
  function Recorded(load: Loader, expected: seq<string>): FileContext -> Result<string, string> {
    (f: FileContext) =>
      match CheckProject(load(f.fullPath), expected)
      case Success(outcome) => Success(outcome.0)
      case Failure(e) => Failure(e)
  }

  /** Two of the strings are non-empty and differ. */
  predicate TwoDistinct(collected: seq<string>) {
    exists i, j :: 0 <= i < |collected| && 0 <= j < |collected| &&
      collected[i] != "" && collected[j] != "" && collected[i] != collected[j]
  }

  /** The grouping check: after dropping empty strings, the recorded
      framework strings form more than one group. */
  function GroupsDiffer(collected: seq<string>): (r: bool)
    ensures r <==> TwoDistinct(collected)
  {
    var keys := set k | k in collected && k != "";
    GroupCount(collected, keys);
    |keys| > 1
  }

  lemma GroupCount(collected: seq<string>, keys: set<string>)
    requires keys == set k | k in collected && k != ""
    ensures |keys| > 1 <==> TwoDistinct(collected)
  {
    if |keys| > 1 {
      var a :| a in keys;
      assert |keys - {a}| == |keys| - 1;
      var b :| b in keys - {a};
      var i :| 0 <= i < |collected| && collected[i] == a;
      var j :| 0 <= j < |collected| && collected[j] == b;
    }
    if TwoDistinct(collected) {
      var i, j :| 0 <= i < |collected| && 0 <= j < |collected| &&
        collected[i] != "" && collected[j] != "" && collected[i] != collected[j];
      var pair := {collected[i], collected[j]};
      assert |pair| == 2;
      SubsetCardinality(pair, keys);
    }
  }

  lemma {:induction false} SubsetCardinality<T>(a: set<T>, b: set<T>)
    requires a <= b
    ensures |a| <= |b|
    decreases |b|
  {
    if a != {} {
      var x :| x in a;
      SubsetCardinality(a - {x}, b - {x});
    }
  }

  const GroupsHeading := "The target frameworks of the test projects do not all match:"

  const VersionsDiffer := "All the .NET versions requested by jobs in ci.yml should be the same"

  datatype Outcome = Ignored(reason: string) | Decided(verdict: Verdict)

  const NoWorkflow := "No ci.yml workflow found in root directory"

  /** `ValidateProjectFrameworks`. `ci` is the parsed `ci.yml`, absent when
      the file does not exist, and `discovered` are the `*.csproj` files. */
  function ValidateProjectFrameworks(
    ci: Option<JNode>, globalJsonVersion: string -> Option<string>,
    discovered: seq<FileContext>, load: Loader): (r: Result<Outcome, string>)
    ensures ci.None? ==> r.Success? && r.value.Ignored?
    ensures r.Success? && r.value == Decided(Pass) ==>
      && ParseWorkflow(ci.value).Success?
      && RequestedVersions(ParseWorkflow(ci.value).value.jobs, globalJsonVersion).Success?
      && AllEquivalent(VersionLists(RequestedVersions(ParseWorkflow(ci.value).value.jobs, globalJsonVersion).value))
      && |discovered| > 0
    ensures (&& ci.Some? && ParseWorkflow(ci.value).Success?
             && RequestedVersions(ParseWorkflow(ci.value).value.jobs, globalJsonVersion).Success?
             && !AllEquivalent(VersionLists(RequestedVersions(ParseWorkflow(ci.value).value.jobs, globalJsonVersion).value)))
      ==> r == Success(Decided(Fail(VersionsDiffer)))
  {
    if ci.None? then Success(Ignored(NoWorkflow))
    else
      var workflow :- ParseWorkflow(ci.value);
      var versions :- RequestedVersions(workflow.jobs, globalJsonVersion);
      var lists := VersionLists(versions);
      if !AllEquivalent(lists) then
        Success(Decided(Fail(VersionsDiffer)))
      else
        var expected :- if |lists| == 0 then Success([]) else ExpectedFrameworks(lists[0]);
        match NewRunner("*.csproj", "Find tests", true, discovered)
        case Failure(message) => Success(Decided(Fail(message)))
        case Success(runner) =>
          var selected := TestProjects(SdkProjects(runner, load), load);
          var verdict :- Run(selected, ProjectCheck(load, expected));
          if verdict.Fail? then Success(Decided(verdict))
          else
            var collected :- Collected(selected.files, load, expected);
            if GroupsDiffer(collected) then Success(Decided(Fail(GroupsHeading)))
            else Success(Decided(Pass))
  }
}
