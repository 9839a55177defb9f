/** The package-reference rules: framework-package classification, not
    mixing reference item types, build tools marked `PrivateAssets="All"`,
    no mocking frameworks, sorted references, and the target-framework part
    of the LTS rule. */
module PackageReferenceRules {
  import opened Wrappers
  import opened Text
  import opened Seqs
  import opened Projects

  // ---------------------------------------------------------------------
  // Framework packages.
  // ---------------------------------------------------------------------

  /** Packages whose names look like framework packages but are not. */
  const NotFrameworkPackages: seq<string> := ["System.CommandLine", "System.Linq.Async", "System.Net.Http", "System.Data.SqlClient"]

  /** A Microsoft framework package: named `System.*` or
      `Microsoft.Extensions.*` (any letter case), and not one of the
      exceptions (any letter case). */
  function IsMicrosoftFrameworkPackage(name: string): (r: bool)
    ensures r <==> !InIgnoreCase(name, NotFrameworkPackages) &&
                   (StartsWithIgnoreCase(name, "System.") || StartsWithIgnoreCase(name, "Microsoft.Extensions."))
  {
    if InIgnoreCase(name, NotFrameworkPackages) then false
    else StartsWithIgnoreCase(name, "System.") || StartsWithIgnoreCase(name, "Microsoft.Extensions.")
  }

  lemma LowerAllPrefix(s: string, n: nat)
    requires n <= |s|
    ensures LowerAll(s[..n]) == LowerAll(s)[..n]
  {
  }

  lemma StartsWithIgnoreCaseRespectsCase(a: string, b: string, prefix: string)
    requires EqualsIgnoreCase(a, b)
    ensures StartsWithIgnoreCase(a, prefix) <==> StartsWithIgnoreCase(b, prefix)
  {
    if |prefix| <= |a| {
      LowerAllPrefix(a, |prefix|);
      LowerAllPrefix(b, |prefix|);
    }
  }

  /** The classification ignores letter case: two names that differ only in
      case are classified alike. */
  lemma FrameworkPackageIgnoresCase(a: string, b: string)
    requires EqualsIgnoreCase(a, b)
    ensures IsMicrosoftFrameworkPackage(a) == IsMicrosoftFrameworkPackage(b)
  {
    StartsWithIgnoreCaseRespectsCase(a, b, "System.");
    StartsWithIgnoreCaseRespectsCase(a, b, "Microsoft.Extensions.");
  }

  /** The exceptions are excluded whatever their letter case. */
  lemma ExceptionsAreNotFrameworkPackages(name: string)
    requires exists i :: 0 <= i < |NotFrameworkPackages| && EqualsIgnoreCase(NotFrameworkPackages[i], name)
    ensures !IsMicrosoftFrameworkPackage(name)
  {
  }

  /** Other `System.` packages are framework packages. */
  lemma SystemTextJsonIsFrameworkPackage()
    ensures IsMicrosoftFrameworkPackage("System.Text.Json")
  {
    assert "System.Text.Json"[..7] == "System.";
    var name := "System.Text.Json";
    forall i | 0 <= i < |NotFrameworkPackages|
      ensures !EqualsIgnoreCase(NotFrameworkPackages[i], name)
    {
      assert |LowerAll(NotFrameworkPackages[i])| != |LowerAll(name)|;
    }
  }

  // ---------------------------------------------------------------------
  // Reference item types.
  // ---------------------------------------------------------------------

  /** Item types that are references. */
  const ReferenceElementNames: seq<string> := ["ProjectReference", "PackageReference", "Reference", "FrameworkReference"]

  /** `Distinct()`: the first occurrence of each name, in order. */
  function Distinct(names: seq<string>): (r: seq<string>)
    ensures forall x :: x in r <==> x in names
    ensures forall i, j :: 0 <= i < j < |r| ==> r[i] != r[j]
  {
    if |names| == 0 then []
    else
      var seen := Distinct(names[..|names| - 1]);
      var last := names[|names| - 1];
      assert names == names[..|names| - 1] + [last];
      if last in seen then seen else seen + [last]
  }

  /** More than one distinct name means two names that differ. */
  lemma DistinctCount(names: seq<string>)
    ensures |Distinct(names)| > 1 <==> exists i, j :: 0 <= i < |names| && 0 <= j < |names| && names[i] != names[j]
  {
    var d := Distinct(names);
    if |d| > 1 {
      assert d[0] in names && d[1] in names;
    }
    if exists i, j :: 0 <= i < |names| && 0 <= j < |names| && names[i] != names[j] {
      var i, j :| 0 <= i < |names| && 0 <= j < |names| && names[i] != names[j];
      assert names[i] in d && names[j] in d;
    }
  }

  function Kinds(g: ItemGroup): (r: seq<string>)
    ensures |r| == |g.items|
    ensures forall i :: 0 <= i < |g.items| ==> r[i] == g.items[i].kind
  {
    seq(|g.items|, i requires 0 <= i < |g.items| => g.items[i].kind)
  }

  /** An item group that mixes a reference type with another item type. */
  predicate Mixes(g: ItemGroup) {
    var names := Distinct(Kinds(g));
    |names| > 1 && exists i :: 0 <= i < |names| && names[i] in ReferenceElementNames
  }

  /** The group at `g` is the first mixing one. */
  predicate FirstMixing(groups: seq<ItemGroup>, g: int) {
    0 <= g < |groups| && Mixes(groups[g]) && forall h :: 0 <= h < g ==> !Mixes(groups[h])
  }

  function MixedReason(g: ItemGroup): string {
    "ItemGroup mixes " + Join(", ", Distinct(Kinds(g)))
  }

  /** `DoNotMixReferenceTypes`: one reason, naming the item types of the first
      mixing item group, if there is such a group. */
  function MixedReferenceReasons(groups: seq<ItemGroup>): (r: seq<string>)
    ensures |r| <= 1
    ensures |r| == 1 <==> exists g :: 0 <= g < |groups| && Mixes(groups[g])
    ensures |r| == 1 ==> exists g :: FirstMixing(groups, g) && r[0] == MixedReason(groups[g])
  {
    if |groups| == 0 then []
    else if Mixes(groups[0]) then
      assert FirstMixing(groups, 0);
      [MixedReason(groups[0])]
    else
      var rest := MixedReferenceReasons(groups[1..]);
      assert forall g :: 1 <= g < |groups| ==> groups[g] == groups[1..][g - 1];
      if |rest| == 1 then
        var g :| FirstMixing(groups[1..], g) && rest[0] == MixedReason(groups[1..][g]);
        FirstMixingShifts(groups, g);
        rest
      else
        rest
  }

  /** The first mixing group stays the first when a group that does not
      mix is put in front. */
  lemma FirstMixingShifts(groups: seq<ItemGroup>, g: int)
    requires |groups| > 0 && !Mixes(groups[0]) && FirstMixing(groups[1..], g)
    ensures FirstMixing(groups, g + 1) && groups[g + 1] == groups[1..][g]
  {
    forall h | 1 <= h < g + 1
      ensures !Mixes(groups[h])
    {
      assert groups[h] == groups[1..][h - 1];
    }
  }

  /** A group mixes exactly when it has two different item types and one of
      its item types is a reference type. */
  lemma MixesMeaning(g: ItemGroup)
    ensures Mixes(g) <==>
      (exists i, j :: 0 <= i < |g.items| && 0 <= j < |g.items| && g.items[i].kind != g.items[j].kind) &&
      (exists i :: 0 <= i < |g.items| && g.items[i].kind in ReferenceElementNames)
  {
    var kinds := Kinds(g);
    DistinctCount(kinds);
    var names := Distinct(kinds);
    if exists i :: 0 <= i < |g.items| && g.items[i].kind in ReferenceElementNames {
      var i :| 0 <= i < |g.items| && g.items[i].kind in ReferenceElementNames;
      assert kinds[i] in names;
    }
    if exists i :: 0 <= i < |names| && names[i] in ReferenceElementNames {
      var i :| 0 <= i < |names| && names[i] in ReferenceElementNames;
      assert names[i] in kinds;
    }
    if exists i, j :: 0 <= i < |kinds| && 0 <= j < |kinds| && kinds[i] != kinds[j] {
      var i, j :| 0 <= i < |kinds| && 0 <= j < |kinds| && kinds[i] != kinds[j];
      assert g.items[i].kind != g.items[j].kind;
    }
  }

  // ---------------------------------------------------------------------
  // PrivateAssets="All".
  // ---------------------------------------------------------------------

  const KnownBuildToolPackages: seq<string> := [
    "Particular.Packaging", "Particular.CodeRules", "Particular.Analyzers", "Fody",
    "Obsolete.Fody", "Janitor.Fody", "ILRepack", "NServiceBus.Transport.Msmq.Sources"]

  const AlsoPrivateAssetsInSourcePackages: seq<string> := [
    "GitHubActionsTestLogger", "Microsoft.NET.Test.Sdk", "NUnit3TestAdapter", "Particular.Approvals"]

  function MustBePrivate(name: string): string {
    "PackageReference '" + name + MustBePrivateTail
  }

  function AlsoMustBePrivate(name: string): string {
    AlsoMustBePrivateHead + name + "' also" + MustBePrivateTail
  }

  const MustBePrivateTail := "' must be marked PrivateAssets=\"All\""
  const AlsoMustBePrivateHead := "Because this is a source package, PackageReference '"

  /** One package reference: nothing when it is `PrivateAssets="All"`
      (exact text); otherwise a reason for a known build tool, or, in a
      source package, for a test tool. A reference without `Include`
      throws. */
  function PrivateAssetsReason(reference: Item, sourcePackage: bool): (r: Result<Option<string>, string>)
    ensures Attribute(reference.attributes, "PrivateAssets") == Some("All") ==> r == Success(None)
    ensures Attribute(reference.attributes, "PrivateAssets") != Some("All") ==>
      (r.Failure? <==> Attribute(reference.attributes, "Include").None?)
    ensures r.Success? && r.value.Some? ==>
      var name := Attribute(reference.attributes, "Include").value;
      || (InIgnoreCase(name, KnownBuildToolPackages) &&
          r.value.value == MustBePrivate(name))
      || (sourcePackage && !InIgnoreCase(name, KnownBuildToolPackages) && InIgnoreCase(name, AlsoPrivateAssetsInSourcePackages) &&
          r.value.value == AlsoMustBePrivate(name))
    ensures r.Success? && Attribute(reference.attributes, "PrivateAssets") != Some("All") ==>
      (r.value.Some? <==>
        var name := Attribute(reference.attributes, "Include").value;
        InIgnoreCase(name, KnownBuildToolPackages) || (sourcePackage && InIgnoreCase(name, AlsoPrivateAssetsInSourcePackages)))
  {
    if Attribute(reference.attributes, "PrivateAssets") == Some("All") then Success(None)
    else match Attribute(reference.attributes, "Include")
      case None => Failure(NullReference)
      case Some(name) =>
        if InIgnoreCase(name, KnownBuildToolPackages) then
          Success(Some(MustBePrivate(name)))
        else if sourcePackage && InIgnoreCase(name, AlsoPrivateAssetsInSourcePackages) then
          Success(Some(AlsoMustBePrivate(name)))
        else Success(None)
  }

  /** `PrivateAssetsReason` with the project's source-package flag fixed. */
  function PrivateAssetsCheck(sourcePackage: bool): Item -> Result<Option<string>, string> {
    (x: Item) => PrivateAssetsReason(x, sourcePackage)
  }

  /** The `PrivateAssets` reasons for a list of package references: a
      reference without `Include` that is not `PrivateAssets="All"` throws;
      otherwise every reason comes from one reference that is not
      `PrivateAssets="All"` and every such offending reference gives its reason. */
  function PrivateAssetsReasons(refs: seq<Item>, sourcePackage: bool): (r: Result<seq<string>, string>)
    ensures r.Success? <==> forall i :: 0 <= i < |refs| ==>
      Attribute(refs[i].attributes, "PrivateAssets") == Some("All") || Attribute(refs[i].attributes, "Include").Some?
    ensures r.Success? ==> |r.value| <= |refs|
    ensures r.Success? ==> forall k :: 0 <= k < |r.value| ==> ReasonOfUnmarked(refs, sourcePackage, r.value[k])
    ensures r.Success? ==> forall i :: 0 <= i < |refs| && PrivateAssetsReason(refs[i], sourcePackage).value.Some? ==>
      PrivateAssetsReason(refs[i], sourcePackage).value.value in r.value
    ensures r.Success? ==> |r.value| == |Filter(refs, Unmarked(sourcePackage))|
    ensures r.Success? ==> forall k :: 0 <= k < |r.value| ==>
      PrivateAssetsReason(Filter(refs, Unmarked(sourcePackage))[k], sourcePackage) == Success(Some(r.value[k]))
  {
    PrivateAssetsFacts(refs, sourcePackage);
    CollectReasons(refs, PrivateAssetsCheck(sourcePackage))
  }

  /** What the collected reasons of `PrivateAssetsReason` say about the references. */
  lemma PrivateAssetsFacts(refs: seq<Item>, sourcePackage: bool)
    ensures var r := CollectReasons(refs, PrivateAssetsCheck(sourcePackage));
      && (r.Success? <==> forall i :: 0 <= i < |refs| ==>
            Attribute(refs[i].attributes, "PrivateAssets") == Some("All") || Attribute(refs[i].attributes, "Include").Some?)
      && (r.Success? ==> |r.value| <= |refs|)
      && (r.Success? ==> forall k :: 0 <= k < |r.value| ==> ReasonOfUnmarked(refs, sourcePackage, r.value[k]))
      && (r.Success? ==> forall i :: 0 <= i < |refs| && PrivateAssetsReason(refs[i], sourcePackage).value.Some? ==>
            PrivateAssetsReason(refs[i], sourcePackage).value.value in r.value)
      && (r.Success? ==> |r.value| == |Filter(refs, Unmarked(sourcePackage))|)
      && (r.Success? ==> forall k :: 0 <= k < |r.value| ==>
            PrivateAssetsReason(Filter(refs, Unmarked(sourcePackage))[k], sourcePackage) == Success(Some(r.value[k])))
  {
    var f := PrivateAssetsCheck(sourcePackage);
    forall i | 0 <= i < |refs|
      ensures f(refs[i]) == PrivateAssetsReason(refs[i], sourcePackage)
    {
    }
    FilterAgree(refs, Gives(f), Unmarked(sourcePackage));
    var r := CollectReasons(refs, f);
    if r.Success? {
      forall k | 0 <= k < |r.value|
        ensures ReasonOfUnmarked(refs, sourcePackage, r.value[k])
      {
        var i :| 0 <= i < |refs| && f(refs[i]) == Success(Some(r.value[k]));
        assert PrivateAssetsReason(refs[i], sourcePackage) == Success(Some(r.value[k]));
      }
    }
  }

  /** `reason` is the reason of some reference that is not `PrivateAssets="All"`. */
  predicate ReasonOfUnmarked(refs: seq<Item>, sourcePackage: bool, reason: string) {
    exists i :: 0 <= i < |refs| && Attribute(refs[i].attributes, "PrivateAssets") != Some("All") &&
      PrivateAssetsReason(refs[i], sourcePackage) == Success(Some(reason))
  }

  /** The reasons for two lists of references side by side are the
      reasons for the first followed by those for the second, and the whole
      throws exactly when one of the parts does. */
  lemma PrivateAssetsReasonsAppend(a: seq<Item>, b: seq<Item>, sourcePackage: bool)
    ensures PrivateAssetsReasons(a + b, sourcePackage).Success? <==>
      PrivateAssetsReasons(a, sourcePackage).Success? && PrivateAssetsReasons(b, sourcePackage).Success?
    ensures PrivateAssetsReasons(a + b, sourcePackage).Success? ==>
      PrivateAssetsReasons(a + b, sourcePackage).value == PrivateAssetsReasons(a, sourcePackage).value + PrivateAssetsReasons(b, sourcePackage).value
  {
    CollectReasonsAppend(a, b, PrivateAssetsCheck(sourcePackage));
  }

  /** A reference the rule reports: not `PrivateAssets="All"`, with an
      `Include` naming a known build tool or, in a source package, a test
      tool, ignoring case. */
  predicate NeedsPrivateAssets(x: Item, sourcePackage: bool) {
    var name := Attribute(x.attributes, "Include");
    && Attribute(x.attributes, "PrivateAssets") != Some("All")
    && name.Some?
    && (InIgnoreCase(name.value, KnownBuildToolPackages) || (sourcePackage && InIgnoreCase(name.value, AlsoPrivateAssetsInSourcePackages)))
  }

  /** `NeedsPrivateAssets` as a selection predicate. */
  function Unmarked(sourcePackage: bool): Item -> bool {
    x => NeedsPrivateAssets(x, sourcePackage)
  }

  /** `KnownPackagesArePrivateAssetsAll` on one packaged project. */
  function KnownPackagesArePrivateAssetsAll(p: Project): (r: Result<seq<string>, string>)
    ensures var refs := ItemsOfKind(p, "PackageReference");
      var sourcePackage := GetBoolean(Property(p, "IncludeSourceFilesInPackage")) == Some(true);
      && (r.Success? <==> forall i :: 0 <= i < |refs| ==>
            Attribute(refs[i].attributes, "PrivateAssets") == Some("All") || Attribute(refs[i].attributes, "Include").Some?)
      && (r.Success? ==> |r.value| == |Filter(refs, Unmarked(sourcePackage))|)
      && (r.Success? ==> forall k :: 0 <= k < |r.value| ==>
            PrivateAssetsReason(Filter(refs, Unmarked(sourcePackage))[k], sourcePackage) == Success(Some(r.value[k])))
  {
    PrivateAssetsReasons(ItemsOfKind(p, "PackageReference"), GetBoolean(Property(p, "IncludeSourceFilesInPackage")).GetOr(false))
  }

  // ---------------------------------------------------------------------
  // Mocking frameworks.
  // ---------------------------------------------------------------------

  const KnownMockingFrameworks: seq<string> := ["FakeItEasy", "Moq", "NSubstitute"]

  predicate IsMockingReference(x: Item) {
    var name := Attribute(x.attributes, "Include");
    name.Some? && InIgnoreCase(name.value, KnownMockingFrameworks)
  }

  function MockingReason(name: string): string {
    "Replace usage of " + name + MockingTail
  }

  const MockingTail := " with a simple hand-rolled fake"

  /** `DontUseMockingFrameworks`: one reason per reference to a mocking
      framework, in document order. */
  function MockingFrameworkReasons(references: seq<Item>): (r: seq<string>)
    ensures |r| == |Filter(references, IsMockingReference)|
    ensures forall k :: 0 <= k < |r| ==>
      r[k] == MockingReason(Attribute(Filter(references, IsMockingReference)[k].attributes, "Include").value)
  {
    if |references| == 0 then []
    else
      var rest := MockingFrameworkReasons(references[1..]);
      if IsMockingReference(references[0]) then
        [MockingReason(Attribute(references[0].attributes, "Include").value)] + rest
      else rest
  }

  // ---------------------------------------------------------------------
  // Sorted package references.
  // ---------------------------------------------------------------------

  /** The string order `OrderBy` uses, abstracted: a total preorder. */
  type Order = (string, string) -> bool

  ghost predicate TotalPreorder(leq: Order) {
    && (forall a, b :: leq(a, b) || leq(b, a))
    && (forall a, b, c :: leq(a, b) && leq(b, c) ==> leq(a, c))
  }

  predicate Sorted(xs: seq<string>, leq: Order) {
    forall i :: 0 <= i < |xs| - 1 ==> leq(xs[i], xs[i + 1])
  }

  /** Inserts `x` after every element not above it. */
  function Insert(x: string, s: seq<string>, leq: Order): (r: seq<string>)
    ensures multiset(r) == multiset(s) + multiset{x}
    ensures |r| == |s| + 1
  {
    if |s| == 0 then [x]
    else if !leq(s[0], x) then [x] + s
    else
      assert s == [s[0]] + s[1..];
      [s[0]] + Insert(x, s[1..], leq)
  }

  /** `OrderBy`: a stable sort, inserting each element after its equals. */
  function Sort(xs: seq<string>, leq: Order): (r: seq<string>)
    ensures multiset(r) == multiset(xs)
    ensures |r| == |xs|
  {
    if |xs| == 0 then []
    else
      assert xs == xs[..|xs| - 1] + [xs[|xs| - 1]];
      Insert(xs[|xs| - 1], Sort(xs[..|xs| - 1], leq), leq)
  }

  lemma {:induction false} InsertSorted(x: string, s: seq<string>, leq: Order)
    requires TotalPreorder(leq)
    requires Sorted(s, leq)
    ensures Sorted(Insert(x, s, leq), leq)
    ensures |s| > 0 ==> Insert(x, s, leq)[0] == s[0] || Insert(x, s, leq)[0] == x
  {
    if |s| > 0 && leq(s[0], x) {
      InsertSorted(x, s[1..], leq);
      var rest := Insert(x, s[1..], leq);
      if |s| > 1 {
        assert leq(s[0], s[1]);
      }
      assert leq(s[0], rest[0]);
    }
  }

  lemma {:induction false} SortIsSorted(xs: seq<string>, leq: Order)
    requires TotalPreorder(leq)
    ensures Sorted(Sort(xs, leq), leq)
  {
    if |xs| > 0 {
      SortIsSorted(xs[..|xs| - 1], leq);
      InsertSorted(xs[|xs| - 1], Sort(xs[..|xs| - 1], leq), leq);
    }
  }

  lemma {:induction false} InsertAtEnd(x: string, s: seq<string>, leq: Order)
    requires forall i :: 0 <= i < |s| ==> leq(s[i], x)
    ensures Insert(x, s, leq) == s + [x]
  {
    if |s| > 0 {
      InsertAtEnd(x, s[1..], leq);
    }
  }

  lemma {:induction false} SortedKeepsOrder(xs: seq<string>, leq: Order)
    requires TotalPreorder(leq)
    requires Sorted(xs, leq)
    ensures Sort(xs, leq) == xs
  {
    if |xs| > 0 {
      var prefix := xs[..|xs| - 1];
      var x := xs[|xs| - 1];
      SortedPrefix(xs, leq);
      SortedKeepsOrder(prefix, leq);
      InsertLast(xs, leq);
      assert Sort(xs, leq) == Insert(x, Sort(prefix, leq), leq);
    }
  }

  /** The last element of an ordered list goes back to the end. */
  lemma InsertLast(xs: seq<string>, leq: Order)
    requires TotalPreorder(leq)
    requires |xs| > 0 && Sorted(xs, leq)
    ensures Insert(xs[|xs| - 1], xs[..|xs| - 1], leq) == xs
  {
    var prefix := xs[..|xs| - 1];
    LastIsAbove(xs, leq);
    assert forall i :: 0 <= i < |prefix| ==> prefix[i] == xs[i];
    InsertAtEnd(xs[|xs| - 1], prefix, leq);
    assert xs == prefix + [xs[|xs| - 1]];
  }

  lemma SortedPrefix(xs: seq<string>, leq: Order)
    requires |xs| > 0 && Sorted(xs, leq)
    ensures Sorted(xs[..|xs| - 1], leq)
  {
    var prefix := xs[..|xs| - 1];
    forall i | 0 <= i < |prefix| - 1
      ensures leq(prefix[i], prefix[i + 1])
    {
      assert prefix[i] == xs[i] && prefix[i + 1] == xs[i + 1];
    }
  }

  lemma LastIsAbove(xs: seq<string>, leq: Order)
    requires TotalPreorder(leq)
    requires |xs| > 0 && Sorted(xs, leq)
    ensures forall i :: 0 <= i < |xs| - 1 ==> leq(xs[i], xs[|xs| - 1])
  {
    forall i | 0 <= i < |xs| - 1
      ensures leq(xs[i], xs[|xs| - 1])
    {
      ChainBelow(xs, i, |xs| - 1, leq);
    }
  }

  lemma {:induction false} ChainBelow(xs: seq<string>, i: nat, j: nat, leq: Order)
    requires TotalPreorder(leq)
    requires Sorted(xs, leq)
    requires i <= j < |xs|
    ensures leq(xs[i], xs[j])
    decreases j - i
  {
    if i < j {
      ChainBelow(xs, i + 1, j, leq);
    }
  }

  /** A list equals its sorted order exactly when it is already in order. */
  lemma SortFixesExactlySorted(xs: seq<string>, leq: Order)
    requires TotalPreorder(leq)
    ensures Sort(xs, leq) == xs <==> Sorted(xs, leq)
  {
    if Sorted(xs, leq) {
      SortedKeepsOrder(xs, leq);
    } else {
      SortIsSorted(xs, leq);
    }
  }

  /** A package reference that names its package. */
  predicate NamedPackageReference(x: Item) {
    x.kind == "PackageReference" && Attribute(x.attributes, "Include").Some?
  }

  /** The `Include` values of a group's package references, in order. */
  function PackageIncludes(items: seq<Item>): (r: seq<string>)
    ensures |r| == |Filter(items, NamedPackageReference)|
    ensures forall k :: 0 <= k < |r| ==> Attribute(Filter(items, NamedPackageReference)[k].attributes, "Include") == Some(r[k])
  {
    if |items| == 0 then []
    else
      var rest := PackageIncludes(items[1..]);
      var name := Attribute(items[0].attributes, "Include");
      assert Filter(items, NamedPackageReference)
        == (if NamedPackageReference(items[0]) then [items[0]] else []) + Filter(items[1..], NamedPackageReference);
      if items[0].kind == "PackageReference" && name.Some? then [name.value] + rest else rest
  }

  const UnsortedReason := "PackageReference elements should be in alphabetical order within their parent ItemGroup."

  /** `SortPackageReferences`: one reason when some item group's package
      references are not in their sorted order. */
  function SortReasons(p: Project, leq: Order): (r: seq<string>)
    requires TotalPreorder(leq)
    ensures r == [] || r == [UnsortedReason]
    ensures r != [] <==> exists g :: 0 <= g < |p.itemGroups| && !Sorted(PackageIncludes(p.itemGroups[g].items), leq)
  {
    var unsorted :=
      exists g :: 0 <= g < |p.itemGroups| && Sort(PackageIncludes(p.itemGroups[g].items), leq) != PackageIncludes(p.itemGroups[g].items);
    forall g | 0 <= g < |p.itemGroups|
      ensures Sort(PackageIncludes(p.itemGroups[g].items), leq) == PackageIncludes(p.itemGroups[g].items)
          <==> Sorted(PackageIncludes(p.itemGroups[g].items), leq)
    {
      SortFixesExactlySorted(PackageIncludes(p.itemGroups[g].items), leq);
    }
    if unsorted then [UnsortedReason] else []
  }

  // ---------------------------------------------------------------------
  // Target only LTS versions of .NET.
  // ---------------------------------------------------------------------

  predicate ModernTarget(tfm: string) {
    !StartsWith(tfm, "net4") && !StartsWith(tfm, "netstandard")
  }

  /** The target frameworks that count: neither .NET Framework nor .NET
      Standard, each with its platform suffix cut off. */
  function LtsCandidates(text: string): (r: seq<string>)
    ensures |r| == |Filter(Split(text, ';'), ModernTarget)|
    ensures forall i :: 0 <= i < |r| ==> r[i] == Before(Filter(Split(text, ';'), ModernTarget)[i], '-')
  {
    var kept := Filter(Split(text, ';'), ModernTarget);
    seq(|kept|, i requires 0 <= i < |kept| => Before(kept[i], '-'))
  }

  const MoreThanOneVersion := "A component should not target more than one version of .NET"
  const UnknownVersion := ".NET version could not be determined"
  const NotLts := "Components should target LTS versions of .NET"

  /** An odd major version from 6 on is a short-term-support release. */
  predicate IsStsMajor(major: int) {
    major >= 6 && major % 2 != 0
  }

  /** The target-framework part of `ComponentShouldTargetDotNetLtsVersion`.
      `parseMajor` stands for `decimal.TryParse` followed by the cast to
      `int`: the integer part of the number after the `net` prefix, if it
      parses. A version that does not parse is reported and then read as 0. */
  function LtsReasons(p: Project, parseMajor: string -> Option<int>): (r: Result<seq<string>, string>)
    ensures TargetFrameworksText(p).Failure? ==> r.Failure?
    ensures TargetFrameworksText(p).Success? ==>
      var candidates := LtsCandidates(TargetFrameworksText(p).value);
      && (|candidates| == 0 ==> r == Success([]))
      && (|candidates| > 1 ==> r == Success([MoreThanOneVersion]))
      && (|candidates| == 1 ==> (r.Failure? <==> |candidates[0]| < 3))
      && (|candidates| == 1 && r.Success? ==>
            var parsed := parseMajor(candidates[0][3..]);
            && (UnknownVersion in r.value <==> parsed.None?)
            && (NotLts in r.value <==> parsed.Some? && IsStsMajor(parsed.value)))
      && (|candidates| == 1 && r.Success? ==>
            var parsed := parseMajor(candidates[0][3..]);
            r.value == if parsed.None? then [UnknownVersion] else if IsStsMajor(parsed.value) then [NotLts] else [])
  {
    var text :- TargetFrameworksText(p);
    var candidates := LtsCandidates(text);
    if |candidates| == 0 then Success([])
    else if |candidates| > 1 then Success([MoreThanOneVersion])
    else if |candidates[0]| < 3 then Failure("ArgumentOutOfRangeException: length")
    else
      var parsed := parseMajor(candidates[0][3..]);
      var major := parsed.GetOr(0);
      var reasons := (if parsed.None? then [UnknownVersion] else []) + (if IsStsMajor(major) then [NotLts] else []);
      assert UnknownVersion != NotLts by {
        assert |UnknownVersion| != |NotLts|;
      }
      assert reasons == if parsed.None? then [UnknownVersion] else if IsStsMajor(parsed.value) then [NotLts] else [];
      Success(reasons)
  }

  // ---------------------------------------------------------------------
  // Explicit analyzer references.
  // ---------------------------------------------------------------------

  /** `DontExplicitlyReferenceParticularAnalyzers` as the source writes it:
      the query meant for `Particular.CodeRules` repeats the one for
      `Particular.Analyzers`, so only the latter is ever noticed. */
  function AnalyzerReferenceCallsAsWritten(p: Project): (r: seq<Option<string>>)
    ensures r == [] || r == [None]
    ensures r != [] <==> References(p, "Particular.Analyzers")
  {
    var analyzers := References(p, "Particular.Analyzers");
    var codeRules := References(p, "Particular.Analyzers");
    if analyzers || codeRules then [None] else []
  }

  /** The rule with its second query naming `Particular.CodeRules`: an
      explicit reference to either package fails the project, without a
      reason. */
  function AnalyzerReferenceCalls(p: Project): (r: seq<Option<string>>)
    ensures r == [] || r == [None]
    ensures r != [] <==> References(p, "Particular.Analyzers") || References(p, "Particular.CodeRules")
  {
    var analyzers := References(p, "Particular.Analyzers");
    var codeRules := References(p, "Particular.CodeRules");
    if analyzers || codeRules then [None] else []
  }

  /** A project whose only package reference is `Particular.CodeRules`. */
  const CodeRulesOnly := Project(false, [], [ItemGroup([], [Item("PackageReference", [("Include", "Particular.CodeRules")])])])

  /** The as-written rule lets the explicit `Particular.CodeRules`
      reference through; the corrected rule reports it. */
  lemma CodeRulesReferenceSlipsThrough()
    ensures AnalyzerReferenceCallsAsWritten(CodeRulesOnly) == []
    ensures AnalyzerReferenceCalls(CodeRulesOnly) == [None]
  {
    var item := Item("PackageReference", [("Include", "Particular.CodeRules")]);
    assert AllItems(CodeRulesOnly.itemGroups) == [item];
    assert ItemsOfKind(CodeRulesOnly, "PackageReference") == [item];
    assert "Particular.CodeRules"[11] != "Particular.Analyzers"[11];
    assert Attribute(item.attributes, "Include") == Some("Particular.CodeRules");
    assert item in ItemsOfKind(CodeRulesOnly, "PackageReference");
  }
}
