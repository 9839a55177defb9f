/** The `InternalsVisibleTo` rules: attributes in code files must move to
    the project file, signed projects use the right key, and project-file
    `InternalsVisibleTo` items name existing projects. The project set is
    every `*.csproj` of the repository, in discovery order. */
module InternalsVisibleToRules {
  import opened Wrappers
  import opened Text
  import opened Projects
  import opened Seqs

  datatype ProjectFile = ProjectFile(fullPath: string, doc: Project)

  /** `Path.GetFileName` with `/` as the directory separator. */
  function FileName(path: string): (r: string)
    ensures '/' !in r
    ensures '/' !in path ==> r == path
    ensures |r| <= |path| && r == path[|path| - |r|..]
  {
    if |path| == 0 then ""
    else if path[|path| - 1] == '/' then ""
    else
      var init := FileName(path[..|path| - 1]);
      assert path[..|path| - 1][|path| - 1 - |init|..] == path[|path| - 1 - |init|..|path| - 1];
      init + [path[|path| - 1]]
  }

  /** The position of the last `.` in `s`, if any. */
  function LastDot(s: string): (r: Option<nat>)
    ensures r.Some? ==> r.value < |s| && s[r.value] == '.' && '.' !in s[r.value + 1..]
    ensures r.None? ==> '.' !in s
  {
    if |s| == 0 then None
    else if s[|s| - 1] == '.' then Some(|s| - 1)
    else
      match LastDot(s[..|s| - 1])
      case None => None
      case Some(i) =>
        assert s[i + 1..] == s[..|s| - 1][i + 1..] + [s[|s| - 1]];
        Some(i)
  }

  /** `Path.GetFileNameWithoutExtension`: the file name up to its last `.`. */
  function FileNameWithoutExtension(path: string): (r: string)
    ensures StartsWith(FileName(path), r)
    ensures '/' !in r
    ensures '.' !in FileName(path) ==> r == FileName(path)
    ensures '.' in FileName(path) ==>
      |r| < |FileName(path)| && FileName(path)[|r|] == '.' && '.' !in FileName(path)[|r| + 1..]
  {
    var name := FileName(path);
    match LastDot(name)
    case None =>
      assert name[..|name|] == name;
      name
    case Some(i) =>
      CutAtDot(name, i);
      name[..i]
  }

  /** The piece of a file name before a dot keeps the name's prefix. */
  lemma CutAtDot(name: string, i: nat)
    requires i < |name| && name[i] == '.' && '/' !in name
    ensures StartsWith(name, name[..i]) && '/' !in name[..i]
  {
    assert forall c :: c in name[..i] ==> c in name;
  }

  /** The project file name of `name` and extension `.csproj` under any
      directory has `name` as its project name. */
  lemma ProjectNameOfPath(dir: string, name: string)
    requires '/' !in name
    ensures FileNameWithoutExtension(dir + "/" + name + ".csproj") == name
  {
    var file := name + ".csproj";
    assert dir + "/" + name + ".csproj" == (dir + "/") + file;
    FileNameOfChild(dir + "/", file);
    LastDotOfExtension(name, "csproj");
    assert file[..|name|] == name;
  }

  /** The last dot of `name.ext` is the one before `ext` when `ext` has no
      dot, whatever dots `name` holds. */
  lemma {:induction false} LastDotOfExtension(name: string, ext: string)
    requires '.' !in ext
    ensures LastDot(name + "." + ext) == Some(|name|)
    decreases |ext|
  {
    var s := name + "." + ext;
    if |ext| == 0 {
      assert s[|s| - 1] == '.';
    } else {
      assert s[..|s| - 1] == name + "." + ext[..|ext| - 1];
      assert '.' !in ext[..|ext| - 1] by {
        assert forall c :: c in ext[..|ext| - 1] ==> c in ext;
      }
      LastDotOfExtension(name, ext[..|ext| - 1]);
      assert s[|s| - 1] == ext[|ext| - 1];
    }
  }

  /** A character other than `/` at the end of a path ends its file name. */
  lemma FileNameSnoc(path: string, c: char)
    requires c != '/'
    ensures FileName(path + [c]) == FileName(path) + [c]
  {
    assert (path + [c])[..|path|] == path;
  }

  lemma {:induction false} FileNameOfChild(dir: string, file: string)
    requires |dir| > 0 && dir[|dir| - 1] == '/'
    requires '/' !in file
    ensures FileName(dir + file) == file
    decreases |file|
  {
    if |file| == 0 {
      assert dir + file == dir;
    } else {
      var init, last := file[..|file| - 1], file[|file| - 1];
      assert '/' !in init && last != '/' by {
        assert last in file;
        assert forall c :: c in init ==> c in file;
      }
      assert dir + file == (dir + init) + [last];
      FileNameOfChild(dir, init);
      FileNameSnoc(dir + init, last);
      assert file == init + [last];
    }
  }

  // ---------------------------------------------------------------------
  // Attributes in code files.
  // ---------------------------------------------------------------------

  /** `f`'s file name without extension is exactly `name`. */
  predicate NamedAs(f: ProjectFile, name: string) {
    FileNameWithoutExtension(f.fullPath) == name
  }

  /** `projects[i]` is the first project named `name`. */
  predicate FirstNamed(projects: seq<ProjectFile>, i: int, name: string) {
    FirstWhere(projects, i, Named(name))
  }

  /** `NamedAs` as a selection predicate. */
  function Named(name: string): ProjectFile -> bool {
    f => NamedAs(f, name)
  }

  /** `FirstOrDefault`: the first project whose file name without extension
      is exactly `name`. */
  function FindProject(projects: seq<ProjectFile>, name: string): (r: Option<ProjectFile>)
    ensures r.Some? ==> r.value in projects && FileNameWithoutExtension(r.value.fullPath) == name
    ensures r.None? ==> forall i :: 0 <= i < |projects| ==> FileNameWithoutExtension(projects[i].fullPath) != name
    ensures r.Some? ==> exists i :: FirstNamed(projects, i, name) && r.value == projects[i]
  {
    if |projects| == 0 then None
    else if NamedAs(projects[0], name) then
      assert FirstNamed(projects, 0, name);
      Some(projects[0])
    else
      var r := FindProject(projects[1..], name);
      if r.Some? then
        var i :| FirstNamed(projects[1..], i, name) && r.value == projects[1..][i];
        FirstWhereShift(projects, i, Named(name));
        r
      else r
  }

  /** Searching two lists of projects one after the other finds the match
      in the first list when there is one. */
  lemma {:induction false} FindProjectOfAppended(a: seq<ProjectFile>, b: seq<ProjectFile>, name: string)
    ensures FindProject(a + b, name) == if FindProject(a, name).Some? then FindProject(a, name) else FindProject(b, name)
  {
    if |a| > 0 {
      assert (a + b)[0] == a[0];
      assert (a + b)[1..] == a[1..] + b;
      FindProjectOfAppended(a[1..], b, name);
    } else {
      assert a + b == b;
    }
  }

  const PackageKeyExpression := "Key=\"$(NServiceBusKey)\" "
  const TestsKeyExpression := "Key=\"$(NServiceBusTestsKey)\" "

  /** The `Key` part of the suggested item: none for an unsigned project;
      for a signed one, the package key when the target is a library
      package, else the tests key when it is a test project, else an error. */
  function KeyExpression(projectIsSigned: bool, target: Project, customIsPackable: Option<bool>): (r: Result<string, string>)
    ensures !projectIsSigned ==> r == Success("")
    ensures projectIsSigned && ProducesLibraryNuGetPackage(target, customIsPackable) ==> r == Success(PackageKeyExpression)
    ensures projectIsSigned && !ProducesLibraryNuGetPackage(target, customIsPackable) && IsTestProject(target) ==>
      r == Success(TestsKeyExpression)
    ensures r.Failure? <==>
      projectIsSigned && !ProducesLibraryNuGetPackage(target, customIsPackable) && !IsTestProject(target)
  {
    if !projectIsSigned then Success("")
    else if ProducesLibraryNuGetPackage(target, customIsPackable) then Success(PackageKeyExpression)
    else if IsTestProject(target) then Success(TestsKeyExpression)
    else Failure(SignedOddity)
  }

  const SignedOddity := "Project is signed but visible to project is not a package or a test project? What is going on?"

  function MissingProjectReason(visibleTo: string): string {
    MissingProjectHead + visibleTo + MissingProjectTail
  }

  const MissingProjectHead := "Declares InternalsVisibleTo project '"
  const MissingProjectTail := "' that does not exist in the solution."

  function MoveToProjectFileReason(visibleTo: string, keyExpression: string): string {
    MoveToProjectFileHead + visibleTo + "\" " + keyExpression + "/>'"
  }

  const MoveToProjectFileHead := "Express in project file in an ItemGroup using '<InternalsVisibleTo Include=\""

  /** The reason for an attribute naming `visibleTo`, whose project (if
      any) is `target`: the project does not exist, or the item to write
      instead, with the key the signing demands. */
  function ReasonFor(visibleTo: string, target: Option<Project>, projectIsSigned: bool, customIsPackable: Option<bool>): (r: Result<string, string>)
    ensures target.None? ==> r == Success(MissingProjectReason(visibleTo))
    ensures target.Some? ==> (r.Failure? <==> KeyExpression(projectIsSigned, target.value, customIsPackable).Failure?)
    ensures target.Some? && r.Success? ==>
      r.value == MoveToProjectFileReason(visibleTo, KeyExpression(projectIsSigned, target.value, customIsPackable).value)
  {
    match target
    case None => Success(MissingProjectReason(visibleTo))
    case Some(t) =>
      var key := KeyExpression(projectIsSigned, t, customIsPackable);
      if key.Failure? then Failure(key.error) else Success(MoveToProjectFileReason(visibleTo, key.value))
  }

  /** The project an attribute's captured assembly name designates: the
      name is cut at its first comma, then looked up exactly. */
  function TargetOf(captured: string, projects: seq<ProjectFile>): (r: Option<Project>)
    ensures r.None? <==> FindProject(projects, Before(captured, ',')).None?
    ensures r.Some? ==> r.value == FindProject(projects, Before(captured, ',')).value.doc
  {
    match FindProject(projects, Before(captured, ','))
    case None => None
    case Some(t) => Some(t.doc)
  }

  /** The reason for one attribute occurrence: the name before the first
      comma is looked up among the projects; a missing project is named as
      missing, a found one gets the item to write with its signing key. */
  function AttributeReason(captured: string, projectIsSigned: bool, projects: seq<ProjectFile>, customIsPackable: Option<bool>): (r: Result<string, string>)
    ensures var found := FindProject(projects, Before(captured, ','));
      && (found.None? ==> r == Success(MissingProjectReason(Before(captured, ','))))
      && (found.Some? ==> (r.Failure? <==> KeyExpression(projectIsSigned, found.value.doc, customIsPackable).Failure?))
      && (found.Some? && r.Success? ==>
            r.value == MoveToProjectFileReason(Before(captured, ','), KeyExpression(projectIsSigned, found.value.doc, customIsPackable).value))
  {
    ReasonFor(Before(captured, ','), TargetOf(captured, projects), projectIsSigned, customIsPackable)
  }

  /** A strong-named assembly reference names the project before its comma. */
  lemma StrongNameIsCut(name: string, rest: string)
    requires ',' !in name
    ensures Before(name + "," + rest, ',') == name
  {
    BeforeSeparator(name, ',', rest);
  }

  /** `CheckFileForInternalsVisibleToAttribute`. `owner` is the project the
      code file belongs to (none found throws) and `captured` the assembly
      names of the attribute occurrences, in order: one reason each. */
  function AttributeReasons(
    owner: Option<Project>, captured: seq<string>,
    projects: seq<ProjectFile>, customIsPackable: Option<bool>): (r: Result<seq<string>, string>)
    ensures owner.None? ==> r.Failure?
    ensures owner.Some? ==> (r.Success? <==> forall i :: 0 <= i < |captured| ==>
      AttributeReason(captured[i], GetBoolean(Property(owner.value, "SignAssembly")).GetOr(false), projects, customIsPackable).Success?)
    ensures r.Success? ==> |r.value| == |captured|
    ensures r.Success? ==> forall i :: 0 <= i < |captured| ==>
      AttributeReason(captured[i], GetBoolean(Property(owner.value, "SignAssembly")).GetOr(false), projects, customIsPackable)
        == Success(r.value[i])
  {
    if owner.None? then Failure(NullReference)
    else
      var signed := GetBoolean(Property(owner.value, "SignAssembly")).GetOr(false);
      var r := MapOrFail(captured, AttributeCheck(signed, projects, customIsPackable));
      assert forall i :: 0 <= i < |captured| ==>
        AttributeCheck(signed, projects, customIsPackable)(captured[i]) == AttributeReason(captured[i], signed, projects, customIsPackable);
      r
  }

  /** An unsigned project never throws: each attribute gets the missing-project
      reason, or the advice to write the item without a key. */
  lemma UnsignedOwnerNeverThrows(owner: Project, captured: seq<string>, projects: seq<ProjectFile>, customIsPackable: Option<bool>)
    requires GetBoolean(Property(owner, "SignAssembly")) != Some(true)
    ensures var r := AttributeReasons(Some(owner), captured, projects, customIsPackable);
      && r.Success?
      && forall i :: 0 <= i < |captured| ==>
        r.value[i] == if FindProject(projects, Before(captured[i], ',')).None? then MissingProjectReason(Before(captured[i], ','))
                      else MoveToProjectFileReason(Before(captured[i], ','), "")
  {
    var signed := GetBoolean(Property(owner, "SignAssembly")).GetOr(false);
    assert !signed;
    forall i | 0 <= i < |captured|
      ensures AttributeReason(captured[i], signed, projects, customIsPackable).Success?
    {
      UnsignedReason(captured[i], projects, customIsPackable);
    }
    var r := AttributeReasons(Some(owner), captured, projects, customIsPackable);
    forall i | 0 <= i < |captured|
      ensures r.value[i] == if FindProject(projects, Before(captured[i], ',')).None? then MissingProjectReason(Before(captured[i], ','))
                            else MoveToProjectFileReason(Before(captured[i], ','), "")
    {
      UnsignedReason(captured[i], projects, customIsPackable);
    }
  }

  /** One attribute of an unsigned project: never a failure, and no key. */
  lemma UnsignedReason(captured: string, projects: seq<ProjectFile>, customIsPackable: Option<bool>)
    ensures var r := AttributeReason(captured, false, projects, customIsPackable);
      && r.Success?
      && r.value == if FindProject(projects, Before(captured, ',')).None? then MissingProjectReason(Before(captured, ','))
                    else MoveToProjectFileReason(Before(captured, ','), "")
  {
  }

  function AttributeCheck(signed: bool, projects: seq<ProjectFile>, customIsPackable: Option<bool>): string -> Result<string, string> {
    captured => AttributeReason(captured, signed, projects, customIsPackable)
  }

  // ---------------------------------------------------------------------
  // Signing keys.
  // ---------------------------------------------------------------------

  const PackageKeyFile := "..\\NServiceBus.snk"
  const TestsKeyFile := "..\\NServiceBusTests.snk"

  const WrongPackageKey :=
    "Projects creating NuGet packages should be signed with '<AssemblyOriginatorKeyFile>..\\NServiceBus.snk</AssemblyOriginatorKeyFile>' and not use the $(SolutionDir) variable."
  const WrongTestsKey :=
    "Test projects that need to be signed for InternalsVisibleTo should be signed with '<AssemblyOriginatorKeyFile>..\\NServiceBusTests.snk</AssemblyOriginatorKeyFile>' and not use the $(SolutionDir) variable."

  function UnneededSigning(projectName: string): string {
    "Test project " + projectName + UnneededSigningTail
  }

  const UnneededSigningTail := " is not used in an InternalsVisibleTo element in any other project and therefore should not be signed."

  /** Some project has an `InternalsVisibleTo` item whose `Include` is
      `name`, ignoring case. */
  predicate NamedInInternalsVisibleTo(projects: seq<ProjectFile>, name: string) {
    exists j, x :: 0 <= j < |projects| && x in ItemsOfKind(projects[j].doc, "InternalsVisibleTo") &&
      Attribute(x.attributes, "Include").Some? && EqualsIgnoreCase(Attribute(x.attributes, "Include").value, name)
  }

  /** `ProjectsShouldBeSignedWithCorrectKey` on one project. */
  function SigningReasons(f: ProjectFile, projects: seq<ProjectFile>, customIsPackable: Option<bool>): (r: seq<string>)
    ensures |r| <= 1
    ensures Property(f.doc, "AssemblyOriginatorKeyFile").None? ==> r == []
    ensures Property(f.doc, "AssemblyOriginatorKeyFile").Some? && ProducesLibraryNuGetPackage(f.doc, customIsPackable) ==>
      (r == [] || r == [WrongPackageKey]) &&
      (r != [] <==> !GetBoolean(Property(f.doc, "IncludeSourceFilesInPackage")).GetOr(false) &&
                    Property(f.doc, "AssemblyOriginatorKeyFile").value != PackageKeyFile)
    ensures Property(f.doc, "AssemblyOriginatorKeyFile").Some? && !ProducesLibraryNuGetPackage(f.doc, customIsPackable) &&
            IsTestProject(f.doc) ==>
      if Property(f.doc, "AssemblyOriginatorKeyFile").value != TestsKeyFile then r == [WrongTestsKey]
      else (r == [] <==> NamedInInternalsVisibleTo(projects, FileNameWithoutExtension(f.fullPath))) &&
           (r != [] ==> r == [UnneededSigning(FileNameWithoutExtension(f.fullPath))])
    ensures !ProducesLibraryNuGetPackage(f.doc, customIsPackable) && !IsTestProject(f.doc) ==> r == []
  {
    match Property(f.doc, "AssemblyOriginatorKeyFile")
    case None => []
    case Some(keyFile) =>
      if ProducesLibraryNuGetPackage(f.doc, customIsPackable) then
        var isSourcePackage := GetBoolean(Property(f.doc, "IncludeSourceFilesInPackage")).GetOr(false);
        if isSourcePackage then []
        else if keyFile != PackageKeyFile then [WrongPackageKey]
        else []
      else if IsTestProject(f.doc) then
        if keyFile != TestsKeyFile then [WrongTestsKey]
        else
          var projectName := FileNameWithoutExtension(f.fullPath);
          if NamedInInternalsVisibleTo(projects, projectName) then [] else [UnneededSigning(projectName)]
      else []
  }

  // ---------------------------------------------------------------------
  // Items naming projects that do not exist.
  // ---------------------------------------------------------------------

  /** The project names, compared ignoring case. */
  function ProjectNames(projects: seq<ProjectFile>): (r: seq<string>)
    ensures |r| == |projects|
    ensures forall i :: 0 <= i < |projects| ==> r[i] == FileNameWithoutExtension(projects[i].fullPath)
  {
    seq(|projects|, i requires 0 <= i < |projects| => FileNameWithoutExtension(projects[i].fullPath))
  }

  function UnknownTargetReason(name: string): string {
    "InternalsVisibleTo element for '" + name + UnknownTargetTail
  }

  const UnknownTargetTail := "' does not match any project in the solution."

  /** The `Include` of an item, empty when there is none. */
  function IncludeOf(x: Item): string {
    Attribute(x.attributes, "Include").GetOr("")
  }

  /** An item naming a project that is not among `names`. */
  predicate NamesUnknownProject(x: Item, names: seq<string>) {
    Attribute(x.attributes, "Include").Some? && !InIgnoreCase(IncludeOf(x), names)
  }

  /** One `InternalsVisibleTo` item: a reason when its `Include` names no
      project; an item without `Include` throws. */
  function UnknownTarget(x: Item, names: seq<string>): (r: Result<Option<string>, string>)
    ensures r.Failure? <==> Attribute(x.attributes, "Include").None?
    ensures r.Success? ==> (r.value.Some? <==> NamesUnknownProject(x, names))
    ensures r.Success? && r.value.Some? ==> r.value.value == UnknownTargetReason(IncludeOf(x))
  {
    match Attribute(x.attributes, "Include")
    case None => Failure(NullReference)
    case Some(name) => if InIgnoreCase(name, names) then Success(None) else Success(Some(UnknownTargetReason(name)))
  }

  /** `reason` is the reason of some item naming no project among `names`. */
  predicate ReasonOfUnknown(items: seq<Item>, names: seq<string>, reason: string) {
    exists i :: 0 <= i < |items| && NamesUnknownProject(items[i], names) && reason == UnknownTargetReason(IncludeOf(items[i]))
  }

  /** The reasons for a list of `InternalsVisibleTo` items: one per item
      naming no known project, in order; an item without `Include` throws. */
  function UnknownTargetReasons(items: seq<Item>, names: seq<string>): (r: Result<seq<string>, string>)
    ensures r.Success? <==> forall i :: 0 <= i < |items| ==> Attribute(items[i].attributes, "Include").Some?
    ensures r.Success? ==> forall k :: 0 <= k < |r.value| ==> ReasonOfUnknown(items, names, r.value[k])
    ensures r.Success? ==> forall i :: 0 <= i < |items| && NamesUnknownProject(items[i], names) ==>
      UnknownTargetReason(IncludeOf(items[i])) in r.value
    ensures r.Success? ==> |r.value| == |Filter(items, UnknownIn(names))|
    ensures r.Success? ==> forall k :: 0 <= k < |r.value| ==>
      r.value[k] == UnknownTargetReason(IncludeOf(Filter(items, UnknownIn(names))[k]))
  {
    UnknownTargetFacts(items, names);
    CollectReasons(items, UnknownTargetCheck(names))
  }

  /** What the collected reasons of `UnknownTarget` say about the items. */
  lemma UnknownTargetFacts(items: seq<Item>, names: seq<string>)
    ensures var r := CollectReasons(items, UnknownTargetCheck(names));
      && (r.Success? <==> forall i :: 0 <= i < |items| ==> Attribute(items[i].attributes, "Include").Some?)
      && (r.Success? ==> forall k :: 0 <= k < |r.value| ==> ReasonOfUnknown(items, names, r.value[k]))
      && (r.Success? ==> forall i :: 0 <= i < |items| && NamesUnknownProject(items[i], names) ==>
            UnknownTargetReason(IncludeOf(items[i])) in r.value)
      && (r.Success? ==> |r.value| == |Filter(items, UnknownIn(names))|)
      && (r.Success? ==> forall k :: 0 <= k < |r.value| ==>
            r.value[k] == UnknownTargetReason(IncludeOf(Filter(items, UnknownIn(names))[k])))
  {
    var f := UnknownTargetCheck(names);
    var r := CollectReasons(items, f);
    forall i | 0 <= i < |items|
      ensures f(items[i]) == UnknownTarget(items[i], names)
    {
    }
    FilterAgree(items, Gives(f), UnknownIn(names));
    if r.Success? {
      forall k | 0 <= k < |r.value|
        ensures ReasonOfUnknown(items, names, r.value[k])
      {
        var i :| 0 <= i < |items| && f(items[i]) == Success(Some(r.value[k]));
        UnknownTargetGiven(items[i], names, r.value[k]);
      }
      var kept := Filter(items, UnknownIn(names));
      forall k | 0 <= k < |r.value|
        ensures r.value[k] == UnknownTargetReason(IncludeOf(kept[k]))
      {
        UnknownTargetGiven(kept[k], names, r.value[k]);
      }
    }
  }

  /** A reason an item gives names the unknown project in its `Include`. */
  lemma UnknownTargetGiven(x: Item, names: seq<string>, reason: string)
    requires UnknownTargetCheck(names)(x) == Success(Some(reason))
    ensures NamesUnknownProject(x, names) && reason == UnknownTargetReason(IncludeOf(x))
  {
    assert UnknownTarget(x, names) == Success(Some(reason));
  }

  /** The reasons for two lists of items side by side are the reasons for
      the first followed by those for the second, and the whole throws
      exactly when one of the parts does. */
  lemma UnknownTargetReasonsAppend(a: seq<Item>, b: seq<Item>, names: seq<string>)
    ensures UnknownTargetReasons(a + b, names).Success? <==>
      UnknownTargetReasons(a, names).Success? && UnknownTargetReasons(b, names).Success?
    ensures UnknownTargetReasons(a + b, names).Success? ==>
      UnknownTargetReasons(a + b, names).value == UnknownTargetReasons(a, names).value + UnknownTargetReasons(b, names).value
  {
    CollectReasonsAppend(a, b, UnknownTargetCheck(names));
  }

  /** `NoInternalsVisibleToForNonexistantProjects` on one project, given
      every project of the solution. */
  function NonexistentTargetReasons(p: Project, projects: seq<ProjectFile>): (r: Result<seq<string>, string>)
    ensures var items := ItemsOfKind(p, "InternalsVisibleTo");
      && (r.Success? <==> forall i :: 0 <= i < |items| ==> Attribute(items[i].attributes, "Include").Some?)
      && (r.Success? ==> |r.value| == |Filter(items, UnknownIn(ProjectNames(projects)))|)
      && (r.Success? ==> forall k :: 0 <= k < |r.value| ==>
            r.value[k] == UnknownTargetReason(IncludeOf(Filter(items, UnknownIn(ProjectNames(projects)))[k])))
  {
    UnknownTargetReasons(ItemsOfKind(p, "InternalsVisibleTo"), ProjectNames(projects))
  }

  /** The items naming no project among `names`, as a selection predicate. */
  function UnknownIn(names: seq<string>): Item -> bool {
    x => NamesUnknownProject(x, names)
  }

  function UnknownTargetCheck(names: seq<string>): Item -> Result<Option<string>, string> {
    x => UnknownTarget(x, names)
  }
}
