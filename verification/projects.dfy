/** The project file as the checks query it, and the classification
    predicates over it (`IsSdkProject`, `IsTestProject`,
    `ProducesLibraryNuGetPackage`, `ProducesSourcePackage`) together with
    `GetBoolean`, the `bool.TryParse` reading of an element's text.

    A `Project` holds what the checks' un-namespaced XPath queries select:
    the children of every `/Project/PropertyGroup` in document order, and
    every `/Project/ItemGroup` with its attributes and child elements. */
module Projects {
  import opened Wrappers
  import opened Text
  import opened Seqs

  /** A child element of an item group: its local name and attributes. */
  datatype Item = Item(kind: string, attributes: seq<(string, string)>)

  datatype ItemGroup = ItemGroup(attributes: seq<(string, string)>, items: seq<Item>)

  /** `properties` are the (name, text value) of the children of every
      property group, in document order. */
  datatype Project = Project(rootHasXmlns: bool, properties: seq<(string, string)>, itemGroups: seq<ItemGroup>)

  /** `element.Attribute(name)?.Value`. */
  function Attribute(attributes: seq<(string, string)>, name: string): Option<string> {
    Find(attributes, name)
  }

  /** `XPathSelectElement("/Project/PropertyGroup/" + name)?.Value`: the text
      of the first such element in document order. */
  function Property(p: Project, name: string): (r: Option<string>)
    ensures r.Some? ==> (name, r.value) in p.properties
    ensures r.None? ==> forall i :: 0 <= i < |p.properties| ==> p.properties[i].0 != name
  {
    Attribute(p.properties, name)
  }

  /** Every item of every item group, in document order. */
  function AllItems(groups: seq<ItemGroup>): (r: seq<Item>)
    ensures forall g, i :: 0 <= g < |groups| && 0 <= i < |groups[g].items| ==> groups[g].items[i] in r
    ensures forall x :: x in r ==> exists g :: 0 <= g < |groups| && x in groups[g].items
  {
    if |groups| == 0 then [] else groups[0].items + AllItems(groups[1..])
  }

  /** The items of one kind (`/Project/ItemGroup/<kind>`), in document order. */
  function ItemsOfKind(p: Project, kind: string): (r: seq<Item>)
    ensures forall x :: x in r <==> x in AllItems(p.itemGroups) && x.kind == kind
  {
    KindFilter(AllItems(p.itemGroups), kind)
  }

  function KindFilter(items: seq<Item>, kind: string): (r: seq<Item>)
    ensures forall x :: x in r <==> x in items && x.kind == kind
  {
    if |items| == 0 then []
    else (if items[0].kind == kind then [items[0]] else []) + KindFilter(items[1..], kind)
  }

  /** The items for which `f` gives a reason without throwing. */
  function Gives(f: Item -> Result<Option<string>, string>): Item -> bool {
    x => f(x).Success? && f(x).value.Some?
  }

  /** The reasons of a list of items: one per item that gives one, in item
      order; the first exception aborts. */
  function CollectReasons(items: seq<Item>, f: Item -> Result<Option<string>, string>): (r: Result<seq<string>, string>)
    ensures r.Success? <==> forall i :: 0 <= i < |items| ==> f(items[i]).Success?
    ensures r.Success? ==> |r.value| <= |items|
    ensures r.Success? ==> forall i :: 0 <= i < |items| && f(items[i]).value.Some? ==> f(items[i]).value.value in r.value
    ensures r.Success? ==> forall k :: 0 <= k < |r.value| ==>
      exists i :: 0 <= i < |items| && f(items[i]) == Success(Some(r.value[k]))
    ensures r.Success? ==> |r.value| == |Filter(items, Gives(f))|
    ensures r.Success? ==> forall k :: 0 <= k < |r.value| ==> f(Filter(items, Gives(f))[k]) == Success(Some(r.value[k]))
  {
    if |items| == 0 then Success([])
    else
      var mine :- f(items[0]);
      var rest :- CollectReasons(items[1..], f);
      assert forall i :: 1 <= i < |items| ==> items[i] == items[1..][i - 1];
      var given := if mine.Some? then [mine.value] else [];
      var head := if mine.Some? then [items[0]] else [];
      assert Filter(items, Gives(f)) == head + Filter(items[1..], Gives(f));
      ReasonsAppend(f, head, Filter(items[1..], Gives(f)), given, rest);
      ReasonsOfItems(items, f, given + rest);
      Success(given + rest)
  }

  /** Reasons given one per reason-giving item come from the items, and
      every reason an item gives is among them. */
  lemma ReasonsOfItems(items: seq<Item>, f: Item -> Result<Option<string>, string>, r: seq<string>)
    requires |r| == |Filter(items, Gives(f))|
    requires forall k :: 0 <= k < |r| ==> f(Filter(items, Gives(f))[k]) == Success(Some(r[k]))
    ensures |r| <= |items|
    ensures forall i :: 0 <= i < |items| && Gives(f)(items[i]) ==> f(items[i]).value.value in r
    ensures forall k :: 0 <= k < |r| ==> exists i :: 0 <= i < |items| && f(items[i]) == Success(Some(r[k]))
  {
    var kept := Filter(items, Gives(f));
    forall i | 0 <= i < |items| && Gives(f)(items[i])
      ensures f(items[i]).value.value in r
    {
      var j :| 0 <= j < |kept| && kept[j] == items[i];
      assert r[j] == f(items[i]).value.value;
    }
    forall k | 0 <= k < |r|
      ensures exists i :: 0 <= i < |items| && f(items[i]) == Success(Some(r[k]))
    {
      var i :| 0 <= i < |items| && items[i] == kept[k];
      assert f(items[i]) == Success(Some(r[k]));
    }
  }

  /** The reasons of two lists of items side by side are the reasons of
      the first followed by those of the second; the whole throws exactly
      when one of the parts does. */
  lemma CollectReasonsAppend(a: seq<Item>, b: seq<Item>, f: Item -> Result<Option<string>, string>)
    ensures CollectReasons(a + b, f).Success? <==> CollectReasons(a, f).Success? && CollectReasons(b, f).Success?
    ensures CollectReasons(a + b, f).Success? ==>
      CollectReasons(a + b, f).value == CollectReasons(a, f).value + CollectReasons(b, f).value
  {
    SuccessOfAppended(a, b, f);
    var whole := CollectReasons(a + b, f);
    if whole.Success? {
      var left, right := CollectReasons(a, f).value, CollectReasons(b, f).value;
      FilterAppend(a, b, Gives(f));
      ReasonsAppend(f, Filter(a, Gives(f)), Filter(b, Gives(f)), left, right);
      ReasonsUnique(f, Filter(a + b, Gives(f)), whole.value, left + right);
    }
  }

  lemma SuccessOfAppended(a: seq<Item>, b: seq<Item>, f: Item -> Result<Option<string>, string>)
    ensures CollectReasons(a + b, f).Success? <==> CollectReasons(a, f).Success? && CollectReasons(b, f).Success?
  {
    assert forall i :: 0 <= i < |a| ==> (a + b)[i] == a[i];
    assert forall i :: 0 <= i < |b| ==> (a + b)[|a| + i] == b[i];
  }

  /** The reasons given by a list of items are determined by the items. */
  lemma ReasonsUnique(f: Item -> Result<Option<string>, string>, items: seq<Item>, r: seq<string>, s: seq<string>)
    requires |r| == |items| && |s| == |items|
    requires forall k :: 0 <= k < |r| ==> f(items[k]) == Success(Some(r[k]))
    requires forall k :: 0 <= k < |s| ==> f(items[k]) == Success(Some(s[k]))
    ensures r == s
  {
  }

  /** One reason per item, for two runs of items side by side. */
  lemma ReasonsAppend(f: Item -> Result<Option<string>, string>, head: seq<Item>, tail: seq<Item>, a: seq<string>, b: seq<string>)
    requires |a| == |head| && |b| == |tail|
    requires forall k :: 0 <= k < |a| ==> f(head[k]) == Success(Some(a[k]))
    requires forall k :: 0 <= k < |b| ==> f(tail[k]) == Success(Some(b[k]))
    ensures |a + b| == |head + tail|
    ensures forall k :: 0 <= k < |a + b| ==> f((head + tail)[k]) == Success(Some((a + b)[k]))
  {
  }

  // ---------------------------------------------------------------------
  // bool.TryParse and GetBoolean.
  // ---------------------------------------------------------------------

  /** Characters `bool.TryParse` trims from both ends: white space and U+0000. */
  predicate Trimmable(c: char) {
    IsWhiteSpace(c) || c == '\0'
  }

  /** Removes the longest trimmable prefix: the rest starts with a kept
      character and everything cut off is trimmable. */
  function TrimStart(s: string): (r: string)
    ensures |r| <= |s| && r == s[|s| - |r|..]
    ensures |r| > 0 ==> !Trimmable(r[0])
    ensures forall i :: 0 <= i < |s| - |r| ==> Trimmable(s[i])
  {
    if |s| > 0 && Trimmable(s[0]) then
      var r := TrimStart(s[1..]);
      assert forall i :: 1 <= i < |s| ==> s[i] == s[1..][i - 1];
      r
    else s
  }

  /** Removes the longest trimmable suffix. */
  function TrimEnd(s: string): (r: string)
    ensures |r| <= |s| && r == s[..|r|]
    ensures |r| > 0 ==> !Trimmable(r[|r| - 1])
    ensures forall i :: |r| <= i < |s| ==> Trimmable(s[i])
  {
    if |s| > 0 && Trimmable(s[|s| - 1]) then
      var r := TrimEnd(s[..|s| - 1]);
      assert forall i :: 0 <= i < |s| - 1 ==> s[i] == s[..|s| - 1][i];
      r
    else s
  }

  /** `s[k..k + n]` is surrounded by trimmable characters only. */
  predicate PaddedAround(s: string, k: nat, n: nat) {
    && k + n <= |s|
    && (forall i :: 0 <= i < k ==> Trimmable(s[i]))
    && (forall i :: k + n <= i < |s| ==> Trimmable(s[i]))
  }

  function BoolWord(b: bool): string {
    if b then "true" else "false"
  }

  /** `bool.TryParse`: "true" or "false" in any letter case, once white
      space and NUL characters are trimmed from both ends. A parsed value
      is spelled, in some letter case, by a piece of the text that has
      only trimmable characters around it. */
  function TryParseBool(s: string): Option<bool> {
    var t := TrimEnd(TrimStart(s));
    if EqualsIgnoreCase(t, "true") then Some(true)
    else if EqualsIgnoreCase(t, "false") then Some(false)
    else None
  }

  /** The trimmed text is a piece of `s` with only trimmable characters around it. */
  lemma TrimmedIsPadded(s: string)
    ensures var t := TrimEnd(TrimStart(s));
      PaddedAround(s, |s| - |TrimStart(s)|, |t|) && t == s[|s| - |TrimStart(s)|..|s| - |TrimStart(s)| + |t|]
  {
    var start := TrimStart(s);
    PiecesArePadded(s, |s| - |start|, start, TrimEnd(start));
  }

  /** A prefix `t` of the suffix `start` of `s`, with trimmable characters
      before `start` and after `t`, is padded in `s`. */
  lemma PiecesArePadded(s: string, k: nat, start: string, t: string)
    requires k <= |s| && start == s[k..] && |t| <= |start| && t == start[..|t|]
    requires forall i :: 0 <= i < k ==> Trimmable(s[i])
    requires forall i :: |t| <= i < |start| ==> Trimmable(start[i])
    ensures PaddedAround(s, k, |t|) && t == s[k..k + |t|]
  {
    forall i | k + |t| <= i < |s|
      ensures Trimmable(s[i])
    {
      assert s[i] == start[i - k];
    }
  }

  /** `XDocumentExtensions.GetBoolean` on an element that may be missing. */
  function GetBoolean(text: Option<string>): (r: Option<bool>)
    ensures text.None? ==> r.None?
    ensures text.Some? ==> r == TryParseBool(text.value)
  {
    match text
    case None => None
    case Some(s) => TryParseBool(s)
  }

  lemma {:induction false} TrimStartPadding(a: string, t: string)
    requires forall i :: 0 <= i < |a| ==> Trimmable(a[i])
    requires |t| > 0 && !Trimmable(t[0])
    ensures TrimStart(a + t) == t
  {
    if |a| > 0 {
      assert (a + t)[1..] == a[1..] + t;
      TrimStartPadding(a[1..], t);
    } else {
      assert a + t == t;
    }
  }

  lemma {:induction false} TrimEndPadding(t: string, b: string)
    requires forall i :: 0 <= i < |b| ==> Trimmable(b[i])
    requires |t| > 0 && !Trimmable(t[|t| - 1])
    ensures TrimEnd(t + b) == t
  {
    if |b| > 0 {
      assert (t + b)[..|t + b| - 1] == t + b[..|b| - 1];
      TrimEndPadding(t, b[..|b| - 1]);
    } else {
      assert t + b == t;
    }
  }

  /** Any casing of "true" or "false", padded with white space or NUL on
      either side, parses to its value. */
  lemma PaddedBooleanParses(a: string, t: string, b: string)
    requires forall i :: 0 <= i < |a| ==> Trimmable(a[i])
    requires forall i :: 0 <= i < |b| ==> Trimmable(b[i])
    requires EqualsIgnoreCase(t, "true") || EqualsIgnoreCase(t, "false")
    ensures TryParseBool(a + t + b) == Some(EqualsIgnoreCase(t, "true"))
  {
    assert |LowerAll(t)| == |t|;
    assert |t| > 0 && !Trimmable(t[0]) && !Trimmable(t[|t| - 1]) by {
      assert LowerAll(t)[0] == Lower(t[0]);
      assert LowerAll(t)[|t| - 1] == Lower(t[|t| - 1]);
    }
    assert a + t + b == a + (t + b);
    TrimStartPadding(a, t + b);
    TrimEndPadding(t, b);
    assert LowerAll("true") != LowerAll("false");
  }

  /** `bool.TryParse` gives `b` exactly when the text is the word for `b`,
      in any letter case, with only white space or NUL around it. */
  lemma TryParseBoolMeaning(s: string, b: bool)
    ensures TryParseBool(s) == Some(b) <==>
      exists k: nat, n: nat :: PaddedAround(s, k, n) && EqualsIgnoreCase(s[k..k + n], BoolWord(b))
  {
    if TryParseBool(s) == Some(b) {
      ParsedIsPadded(s, b);
    }
    if exists k: nat, n: nat :: PaddedAround(s, k, n) && EqualsIgnoreCase(s[k..k + n], BoolWord(b)) {
      var k: nat, n: nat :| PaddedAround(s, k, n) && EqualsIgnoreCase(s[k..k + n], BoolWord(b));
      PaddedParses(s, b, k, n);
    }
  }

  lemma ParsedIsPadded(s: string, b: bool)
    requires TryParseBool(s) == Some(b)
    ensures exists k: nat, n: nat :: PaddedAround(s, k, n) && EqualsIgnoreCase(s[k..k + n], BoolWord(b))
  {
    TrimmedIsPadded(s);
    var t := TrimEnd(TrimStart(s));
    var k: nat := |s| - |TrimStart(s)|;
    assert EqualsIgnoreCase(t, BoolWord(b));
    assert PaddedAround(s, k, |t|) && EqualsIgnoreCase(s[k..k + |t|], BoolWord(b));
  }

  lemma PaddedParses(s: string, b: bool, k: nat, n: nat)
    requires PaddedAround(s, k, n) && EqualsIgnoreCase(s[k..k + n], BoolWord(b))
    ensures TryParseBool(s) == Some(b)
  {
    var a, t, c := s[..k], s[k..k + n], s[k + n..];
    assert s == a + t + c;
    forall i | 0 <= i < |c|
      ensures Trimmable(c[i])
    {
      assert c[i] == s[k + n + i];
    }
    PaddedBooleanParses(a, t, c);
    assert LowerAll("true") != LowerAll("false");
  }

  /** Both "true" and "false" hold an `e`, so text without an `e` in
      either case is never a boolean, whatever else it holds. */
  lemma TextWithoutEIsNotBoolean(s: string)
    requires 'e' !in s && 'E' !in s
    ensures TryParseBool(s) == None
  {
    var t := TrimEnd(TrimStart(s));
    TrimmedWithin(s);
    forall i | 0 <= i < |t|
      ensures LowerAll(t)[i] != 'e'
    {
      assert t[i] in s;
    }
    assert LowerAll("true")[3] == 'e' && LowerAll("false")[4] == 'e';
  }

  /** Trimming keeps a piece of the text. */
  lemma TrimmedWithin(s: string)
    ensures forall c :: c in TrimEnd(TrimStart(s)) ==> c in s
  {
    var start := TrimStart(s);
    PieceWithin(s, |s| - |start|, start);
    PieceWithin(start, 0, TrimEnd(start));
  }

  lemma PieceWithin(s: string, k: nat, t: string)
    requires k + |t| <= |s| && t == s[k..k + |t|]
    ensures forall c :: c in t ==> c in s
  {
    forall c | c in t
      ensures c in s
    {
      var i :| 0 <= i < |t| && t[i] == c;
      assert s[k + i] == c;
    }
  }

  // ---------------------------------------------------------------------
  // Classification predicates.
  // ---------------------------------------------------------------------

  /** SDK-style projects have no `xmlns` attribute on the root element. */
  predicate IsSdkProject(p: Project) {
    !p.rootHasXmlns
  }

  /** Some `PackageReference` has `Include` exactly `name`. */
  predicate References(p: Project, name: string) {
    exists x :: x in ItemsOfKind(p, "PackageReference") && Attribute(x.attributes, "Include") == Some(name)
  }

  predicate IsTestProject(p: Project) {
    References(p, "Microsoft.NET.Test.Sdk")
  }

  /** A `PackageReference` to the test SDK. */
  predicate IsTestSdkReference(x: Item) {
    x.kind == "PackageReference" && Attribute(x.attributes, "Include") == Some("Microsoft.NET.Test.Sdk")
  }

  /** The XPath reading of a test project: some item group of the project
      holds a `PackageReference` whose `Include` is the test SDK. */
  lemma TestProjectByItemGroups(p: Project)
    ensures IsTestProject(p) <==>
      exists g, i :: 0 <= g < |p.itemGroups| && 0 <= i < |p.itemGroups[g].items| && IsTestSdkReference(p.itemGroups[g].items[i])
  {
    if IsTestProject(p) {
      var x :| x in ItemsOfKind(p, "PackageReference") && Attribute(x.attributes, "Include") == Some("Microsoft.NET.Test.Sdk");
      var g :| 0 <= g < |p.itemGroups| && x in p.itemGroups[g].items;
      var i :| 0 <= i < |p.itemGroups[g].items| && p.itemGroups[g].items[i] == x;
      assert IsTestSdkReference(p.itemGroups[g].items[i]);
    }
    if exists g, i :: 0 <= g < |p.itemGroups| && 0 <= i < |p.itemGroups[g].items| && IsTestSdkReference(p.itemGroups[g].items[i]) {
      var g, i :| 0 <= g < |p.itemGroups| && 0 <= i < |p.itemGroups[g].items| && IsTestSdkReference(p.itemGroups[g].items[i]);
      var x := p.itemGroups[g].items[i];
      assert x in AllItems(p.itemGroups);
      assert x in ItemsOfKind(p, "PackageReference");
    }
  }

  /** The SDK test reads only the root element's `xmlns`; the test-project
      test reads only the item groups. */
  lemma ClassificationInputs(p: Project, q: Project)
    ensures p.rootHasXmlns == q.rootHasXmlns ==> (IsSdkProject(p) <==> IsSdkProject(q))
    ensures IsSdkProject(p) <==> !p.rootHasXmlns
    ensures p.itemGroups == q.itemGroups ==> (IsTestProject(p) <==> IsTestProject(q))
  {
  }

  /** Whether the project is packed as a library: not when it is a tool;
      otherwise its own `IsPackable`, else the `IsPackable` of
      `src/Custom.Build.props` (passed in), else whether it references
      `Particular.Packaging`. */
  function ProducesLibraryNuGetPackage(p: Project, customIsPackable: Option<bool>): (r: bool)
    ensures GetBoolean(Property(p, "PackAsTool")) == Some(true) ==> !r
    ensures GetBoolean(Property(p, "PackAsTool")) != Some(true) ==>
      && (GetBoolean(Property(p, "IsPackable")).Some? ==> r == GetBoolean(Property(p, "IsPackable")).value)
      && (GetBoolean(Property(p, "IsPackable")).None? && customIsPackable.Some? ==> r == customIsPackable.value)
      && (GetBoolean(Property(p, "IsPackable")).None? && customIsPackable.None? ==> r == References(p, "Particular.Packaging"))
  {
    var packAsTool := GetBoolean(Property(p, "PackAsTool"));
    if packAsTool.GetOr(false) then false
    else
      var hasParticularPackaging := References(p, "Particular.Packaging");
      var projectIsPackable := GetBoolean(Property(p, "IsPackable"));
      projectIsPackable.GetOr(customIsPackable.GetOr(hasParticularPackaging))
  }

  /** A source package includes its source files and not its build output. */
  function ProducesSourcePackage(p: Project): (r: bool)
    ensures r <==> GetBoolean(Property(p, "IncludeSourceFilesInPackage")) == Some(true)
                   && GetBoolean(Property(p, "IncludeBuildOutput")) == Some(false)
  {
    var includeBuildOutput := Property(p, "IncludeBuildOutput");
    var includeSourceFiles := Property(p, "IncludeSourceFilesInPackage");
    && includeBuildOutput.Some?
    && includeSourceFiles.Some?
    && TryParseBool(includeSourceFiles.value) == Some(true)
    && TryParseBool(includeBuildOutput.value) == Some(false)
  }

  /** The frameworks text of a project: `TargetFramework`, else
      `TargetFrameworks`; neither present throws. */
  function TargetFrameworksText(p: Project): (r: Result<string, string>)
    ensures r.Failure? <==> Property(p, "TargetFramework").None? && Property(p, "TargetFrameworks").None?
    ensures Property(p, "TargetFramework").Some? ==> r == Success(Property(p, "TargetFramework").value)
    ensures Property(p, "TargetFramework").None? && Property(p, "TargetFrameworks").Some? ==>
      r == Success(Property(p, "TargetFrameworks").value)
  {
    match Property(p, "TargetFramework")
    case Some(t) => Success(t)
    case None =>
      match Property(p, "TargetFrameworks")
      case Some(t) => Success(t)
      case None => Failure(NullReference)
  }

  /** The first `TargetFramework` element decides, wherever the
      `TargetFrameworks` elements stand in the document. */
  lemma FirstTargetFrameworkWins(p: Project, i: int)
    requires 0 <= i < |p.properties| && p.properties[i].0 == "TargetFramework"
    requires forall j :: 0 <= j < i ==> p.properties[j].0 != "TargetFramework"
    ensures TargetFrameworksText(p) == Success(p.properties[i].1)
  {
    FindFirst(p.properties, "TargetFramework", i);
  }

  /** Without a `TargetFramework` element, the first `TargetFrameworks`
      element decides. */
  lemma FirstTargetFrameworksUsed(p: Project, i: int)
    requires forall j :: 0 <= j < |p.properties| ==> p.properties[j].0 != "TargetFramework"
    requires 0 <= i < |p.properties| && p.properties[i].0 == "TargetFrameworks"
    requires forall j :: 0 <= j < i ==> p.properties[j].0 != "TargetFrameworks"
    ensures TargetFrameworksText(p) == Success(p.properties[i].1)
  {
    FindFirst(p.properties, "TargetFrameworks", i);
  }
}
