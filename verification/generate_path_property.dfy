/** The `GeneratePathProperty` rule: a `Compile Remove` with a `**` wildcard
    must go through a package path variable (`$(PkgName_Of_Package)`) of a
    `PackageReference` with `GeneratePathProperty="true"`, and must be
    conditioned on that variable being set. */
module GeneratePathPropertyRules {
  import opened Wrappers
  import opened Text
  import opened Seqs
  import opened Projects

  /** The MSBuild property NuGet generates for package `name`: dots become
      underscores. */
  function PathVariable(name: string): (r: string)
    ensures r == "$(Pkg" + Replace(name, '.', '_') + ")"
    ensures '.' !in r
  {
    var v := "$(Pkg" + Replace(name, '.', '_') + ")";
    assert forall i :: 0 <= i < |v| ==> v[i] != '.' by {
      forall i | 0 <= i < |v| ensures v[i] != '.' {
        if 5 <= i < 5 + |name| {
          assert v[i] == Replace(name, '.', '_')[i - 5];
        }
      }
    }
    v
  }

  /** The path variable of one `PackageReference`, when it asks for one;
      an asking reference without `Include` throws. */
  function GeneratedVariable(x: Item): (r: Result<Option<string>, string>)
    ensures r.Failure? <==> Attribute(x.attributes, "GeneratePathProperty") == Some("true") && Attribute(x.attributes, "Include").None?
    ensures r.Success? ==> (r.value.Some? <==> Attribute(x.attributes, "GeneratePathProperty") == Some("true"))
    ensures r.Success? && r.value.Some? ==> r.value.value == PathVariable(Attribute(x.attributes, "Include").value)
  {
    if Attribute(x.attributes, "GeneratePathProperty") != Some("true") then Success(None)
    else match Attribute(x.attributes, "Include")
      case None => Failure(NullReference)
      case Some(name) => Success(Some(PathVariable(name)))
  }

  /** The package path variables a project generates. */
  function PathVariables(p: Project): (r: Result<seq<string>, string>)
    ensures r.Success? <==> forall i :: 0 <= i < |ItemsOfKind(p, "PackageReference")| ==>
      GeneratedVariable(ItemsOfKind(p, "PackageReference")[i]).Success?
    ensures r.Success? ==> forall k :: 0 <= k < |r.value| ==>
      exists i :: 0 <= i < |ItemsOfKind(p, "PackageReference")| &&
        GeneratedVariable(ItemsOfKind(p, "PackageReference")[i]) == Success(Some(r.value[k]))
    ensures r.Success? ==> forall i ::
      (0 <= i < |ItemsOfKind(p, "PackageReference")| &&
       Attribute(ItemsOfKind(p, "PackageReference")[i].attributes, "GeneratePathProperty") == Some("true")) ==>
        PathVariable(Attribute(ItemsOfKind(p, "PackageReference")[i].attributes, "Include").value) in r.value
  {
    CollectReasons(ItemsOfKind(p, "PackageReference"), GeneratedVariable)
  }

  /** The condition testing that variable `v` is set. */
  function AsCondition(v: string): string {
    "'" + v + "' != ''"
  }

  function Conditions(vars: seq<string>): (r: seq<string>)
    ensures |r| == |vars|
    ensures forall i :: 0 <= i < |vars| ==> r[i] == AsCondition(vars[i])
  {
    seq(|vars|, i requires 0 <= i < |vars| => AsCondition(vars[i]))
  }

  /** One `/Project/ItemGroup/Compile[@Remove]` element: its `Remove`
      value, its own `Condition` and its item group's `Condition`. */
  datatype Removal = Removal(removeValue: string, condition: Option<string>, groupCondition: Option<string>)

  /** A `Compile` item with a `Remove` attribute. */
  predicate IsRemove(x: Item) {
    x.kind == "Compile" && Attribute(x.attributes, "Remove").Some?
  }

  function ToRemoval(x: Item, g: ItemGroup): Removal
    requires IsRemove(x)
  {
    Removal(Attribute(x.attributes, "Remove").value, Attribute(x.attributes, "Condition"), Attribute(g.attributes, "Condition"))
  }

  /** `rm` is the removal of some `Compile` item of `items`, a child of `g`. */
  ghost predicate RemovalOf(rm: Removal, g: ItemGroup, items: seq<Item>) {
    exists x :: x in items && IsRemove(x) && rm == ToRemoval(x, g)
  }

  /** The removals among `items`, all children of `g`. */
  function GroupRemovals(g: ItemGroup, items: seq<Item>): (r: seq<Removal>)
    ensures forall k :: 0 <= k < |r| ==> RemovalOf(r[k], g, items)
    ensures forall x :: x in items && IsRemove(x) ==> ToRemoval(x, g) in r
  {
    if |items| == 0 then []
    else
      var rest := GroupRemovals(g, items[1..]);
      GroupRemovalsStep(g, items, rest);
      (if IsRemove(items[0]) then [ToRemoval(items[0], g)] else []) + rest
  }

  /** Putting the first item's removal, if any, in front of the removals of
      the others keeps every removal traceable to an item of `items`. */
  lemma GroupRemovalsStep(g: ItemGroup, items: seq<Item>, rest: seq<Removal>)
    requires |items| > 0
    requires forall k :: 0 <= k < |rest| ==> RemovalOf(rest[k], g, items[1..])
    requires forall x :: x in items[1..] && IsRemove(x) ==> ToRemoval(x, g) in rest
    ensures var r := (if IsRemove(items[0]) then [ToRemoval(items[0], g)] else []) + rest;
      && (forall k :: 0 <= k < |r| ==> RemovalOf(r[k], g, items))
      && (forall x :: x in items && IsRemove(x) ==> ToRemoval(x, g) in r)
  {
    var x := items[0];
    var mine := if IsRemove(x) then [ToRemoval(x, g)] else [];
    var r := mine + rest;
    forall k | 0 <= k < |r|
      ensures RemovalOf(r[k], g, items)
    {
      if k < |mine| {
        assert x in items;
      } else {
        assert r[k] == rest[k - |mine|];
        var y :| y in items[1..] && IsRemove(y) && rest[k - |mine|] == ToRemoval(y, g);
        assert y in items;
      }
    }
    assert forall y :: y in items ==> y == x || y in items[1..];
  }

  /** Every removal of the project, in document order. */
  function Removals(groups: seq<ItemGroup>): seq<Removal> {
    if |groups| == 0 then [] else GroupRemovals(groups[0], groups[0].items) + Removals(groups[1..])
  }

  /** `rm` is the removal of some `Compile` item of one of `groups`. */
  ghost predicate ComesFrom(rm: Removal, groups: seq<ItemGroup>) {
    exists g, x :: g in groups && x in g.items && IsRemove(x) && rm == ToRemoval(x, g)
  }

  /** The removals are exactly the `Compile` items with a `Remove`
      attribute, each with its own group's condition. */
  lemma {:induction false} RemovalsMeaning(groups: seq<ItemGroup>)
    ensures forall k :: 0 <= k < |Removals(groups)| ==> ComesFrom(Removals(groups)[k], groups)
    ensures forall g, x :: g in groups && x in g.items && IsRemove(x) ==> ToRemoval(x, g) in Removals(groups)
  {
    if |groups| > 0 {
      var g := groups[0];
      var mine := GroupRemovals(g, g.items);
      var rest := Removals(groups[1..]);
      var r := Removals(groups);
      RemovalsMeaning(groups[1..]);
      assert r == mine + rest;
      forall k | 0 <= k < |r|
        ensures ComesFrom(r[k], groups)
      {
        if k < |mine| {
          assert r[k] == mine[k];
          var x :| x in g.items && IsRemove(x) && mine[k] == ToRemoval(x, g);
          assert g in groups && x in g.items && IsRemove(x) && r[k] == ToRemoval(x, g);
        } else {
          assert r[k] == rest[k - |mine|];
          assert ComesFrom(rest[k - |mine|], groups[1..]);
          var h, x :| h in groups[1..] && x in h.items && IsRemove(x) && rest[k - |mine|] == ToRemoval(x, h);
          assert h in groups && x in h.items && IsRemove(x) && r[k] == ToRemoval(x, h);
        }
      }
      forall h, x | h in groups && x in h.items && IsRemove(x)
        ensures ToRemoval(x, h) in r
      {
        if h == g {
          assert ToRemoval(x, h) in mine;
        } else {
          assert h in groups[1..];
          assert ToRemoval(x, h) in rest;
        }
      }
    }
  }

  predicate HasWildcard(rm: Removal) {
    ContainsSubstring(rm.removeValue, "**")
  }

  /** `RemovalIsCorrect`: the removed path mentions one of the variables. */
  function UsesVariable(removePath: string, vars: seq<string>): (r: bool)
    ensures r <==> exists i :: 0 <= i < |vars| && ContainsSubstring(removePath, vars[i])
  {
    if |vars| == 0 then false
    else if ContainsSubstring(removePath, vars[0]) then true
    else
      var r := UsesVariable(removePath, vars[1..]);
      assert forall i :: 1 <= i < |vars| ==> vars[i] == vars[1..][i - 1];
      r
  }

  /** `ConditionIsCorrect`: the condition is present and is one of the
      variable conditions, character for character. */
  predicate ConditionIsCorrect(condition: Option<string>, conditions: seq<string>) {
    condition.Some? && condition.value in conditions
  }

  /** What a wildcard removal can get wrong. */
  datatype Problem = MissingVariable | MissingCondition

  /** The problems of one wildcard removal, the path's before the
      condition's. */
  function Problems(rm: Removal, vars: seq<string>): (r: seq<Problem>)
    ensures |r| <= 2
    ensures MissingVariable in r <==> forall i :: 0 <= i < |vars| ==> !ContainsSubstring(rm.removeValue, vars[i])
    ensures MissingCondition in r <==>
      !ConditionIsCorrect(rm.condition, Conditions(vars)) && !ConditionIsCorrect(rm.groupCondition, Conditions(vars))
    ensures |r| == 2 ==> r == [MissingVariable, MissingCondition]
  {
    var conditions := Conditions(vars);
    (if !UsesVariable(rm.removeValue, vars) then [MissingVariable] else []) +
    (if !ConditionIsCorrect(rm.condition, conditions) && !ConditionIsCorrect(rm.groupCondition, conditions)
     then [MissingCondition] else [])
  }

  const VariableAdvice := "a variable like `$(PkgNServiceBus_AcceptanceTests_Source)` from a PackageReference that contains GeneratePathProperty=\"true\""
  const ConditionAdvice := "a condition like Condition=\"'$(PkgNServiceBus_AcceptanceTests_Sources)' != ''\" on either the Compile element or the parent ItemGroup element"

  function Verb(problem: Problem): string {
    if problem == MissingVariable then "contain" else "have"
  }

  function Advice(problem: Problem): string {
    if problem == MissingVariable then VariableAdvice else ConditionAdvice
  }

  function Message(problem: Problem, removeValue: string): string {
    "Compile.Remove='" + removeValue + "' must " + Verb(problem) + " " + Advice(problem)
  }

  /** The two messages for a removal never coincide, so the reasons of a
      removal tell its problems apart. */
  lemma MessagesDiffer(v: string)
    ensures Message(MissingVariable, v) != Message(MissingCondition, v)
  {
    var head := "Compile.Remove='" + v + "' must ";
    assert Message(MissingVariable, v) == head + "contain" + " " + VariableAdvice;
    assert Message(MissingCondition, v) == head + "have" + " " + ConditionAdvice;
    assert Message(MissingVariable, v)[|head|] == 'c';
    assert Message(MissingCondition, v)[|head|] == 'h';
  }

  /** The reasons of one wildcard removal. */
  function RemovalReasons(rm: Removal, vars: seq<string>): (r: seq<string>)
    ensures |r| == |Problems(rm, vars)|
    ensures forall j :: 0 <= j < |r| ==> r[j] == Message(Problems(rm, vars)[j], rm.removeValue)
  {
    var problems := Problems(rm, vars);
    seq(|problems|, j requires 0 <= j < |problems| => Message(problems[j], rm.removeValue))
  }

  /** `reason` is one of the reasons of some removal in `removals`. */
  ghost predicate ReasonOfSome(reason: string, removals: seq<Removal>, vars: seq<string>) {
    exists i :: 0 <= i < |removals| && reason in RemovalReasons(removals[i], vars)
  }

  /** The number of problems found over all removals. */
  function ProblemCount(removals: seq<Removal>, vars: seq<string>): nat {
    if |removals| == 0 then 0 else |Problems(removals[0], vars)| + ProblemCount(removals[1..], vars)
  }

  /** The reasons of the removals, in order: one per problem, each the
      reason of some removal, and every reason of every removal present. */
  function AllReasons(removals: seq<Removal>, vars: seq<string>): (r: seq<string>)
    ensures |r| == ProblemCount(removals, vars) <= 2 * |removals|
    ensures forall k :: 0 <= k < |r| ==> ReasonOfSome(r[k], removals, vars)
    ensures forall i, m :: 0 <= i < |removals| && m in RemovalReasons(removals[i], vars) ==> m in r
  {
    if |removals| == 0 then []
    else
      var mine := RemovalReasons(removals[0], vars);
      var rest := AllReasons(removals[1..], vars);
      ReasonsOfHeadAndTail(removals, vars, mine, rest);
      mine + rest
  }

  lemma ReasonsOfHeadAndTail(removals: seq<Removal>, vars: seq<string>, mine: seq<string>, rest: seq<string>)
    requires |removals| > 0 && mine == RemovalReasons(removals[0], vars)
    requires forall k :: 0 <= k < |rest| ==> ReasonOfSome(rest[k], removals[1..], vars)
    requires forall i, m :: 0 <= i < |removals[1..]| && m in RemovalReasons(removals[1..][i], vars) ==> m in rest
    ensures forall k :: 0 <= k < |mine + rest| ==> ReasonOfSome((mine + rest)[k], removals, vars)
    ensures forall i, m :: 0 <= i < |removals| && m in RemovalReasons(removals[i], vars) ==> m in mine + rest
  {
    HeadAndTailReasonsKnown(removals, vars, mine, rest);
    HeadAndTailReasonsKept(removals, vars, mine, rest);
  }

  lemma HeadAndTailReasonsKnown(removals: seq<Removal>, vars: seq<string>, mine: seq<string>, rest: seq<string>)
    requires |removals| > 0 && mine == RemovalReasons(removals[0], vars)
    requires forall k :: 0 <= k < |rest| ==> ReasonOfSome(rest[k], removals[1..], vars)
    ensures forall k :: 0 <= k < |mine + rest| ==> ReasonOfSome((mine + rest)[k], removals, vars)
  {
    var r := mine + rest;
    forall k | 0 <= k < |r|
      ensures ReasonOfSome(r[k], removals, vars)
    {
      if k < |mine| {
        assert r[k] in RemovalReasons(removals[0], vars);
      } else {
        assert r[k] == rest[k - |mine|];
        var i :| 0 <= i < |removals[1..]| && rest[k - |mine|] in RemovalReasons(removals[1..][i], vars);
        assert removals[1..][i] == removals[i + 1];
      }
    }
  }

  lemma HeadAndTailReasonsKept(removals: seq<Removal>, vars: seq<string>, mine: seq<string>, rest: seq<string>)
    requires |removals| > 0 && mine == RemovalReasons(removals[0], vars)
    requires forall i, m :: 0 <= i < |removals[1..]| && m in RemovalReasons(removals[1..][i], vars) ==> m in rest
    ensures forall i, m :: 0 <= i < |removals| && m in RemovalReasons(removals[i], vars) ==> m in mine + rest
  {
    forall i, m | 0 <= i < |removals| && m in RemovalReasons(removals[i], vars)
      ensures m in mine + rest
    {
      if i > 0 {
        assert removals[1..][i - 1] == removals[i];
      }
    }
  }

  /** `IsCorrectlyImplemented` on one SDK project: the reasons of the
      wildcard removals under the project's generated variables. */
  function ProjectReasons(p: Project): (r: Result<seq<string>, string>)
    ensures r.Failure? <==> PathVariables(p).Failure?
    ensures r.Success? ==>
      var wild := Filter(Removals(p.itemGroups), HasWildcard);
      && |r.value| == ProblemCount(wild, PathVariables(p).value)
      && (forall k :: 0 <= k < |r.value| ==> ReasonOfSome(r.value[k], wild, PathVariables(p).value))
      && (forall i, m :: 0 <= i < |wild| && m in RemovalReasons(wild[i], PathVariables(p).value) ==> m in r.value)
  {
    var vars :- PathVariables(p);
    Success(AllReasons(Filter(Removals(p.itemGroups), HasWildcard), vars))
  }

  /** Every reason of every `Compile` item whose `Remove` holds `**` is
      reported for its project. */
  lemma EveryWildcardRemovalReported(p: Project, g: ItemGroup, x: Item, m: string)
    requires ProjectReasons(p).Success?
    requires g in p.itemGroups && x in g.items && IsRemove(x) && HasWildcard(ToRemoval(x, g))
    requires m in RemovalReasons(ToRemoval(x, g), PathVariables(p).value)
    ensures m in ProjectReasons(p).value
  {
    RemovalsMeaning(p.itemGroups);
    var wild := Filter(Removals(p.itemGroups), HasWildcard);
    assert ToRemoval(x, g) in wild;
    var i :| 0 <= i < |wild| && wild[i] == ToRemoval(x, g);
  }

  /** A removal written as the rule asks — the path goes through a
      generated variable and the element or its group is conditioned on
      it — has no problem. */
  lemma ConformingRemovalPasses(before: string, v: string, after: string, condition: Option<string>, groupCondition: Option<string>, vars: seq<string>)
    requires v in vars
    requires condition == Some(AsCondition(v)) || groupCondition == Some(AsCondition(v))
    ensures Problems(Removal(before + v + after, condition, groupCondition), vars) == []
  {
    var i :| 0 <= i < |vars| && vars[i] == v;
    var path := before + v + after;
    assert path[|before|..] == v + after;
    assert StartsWith(path[|before|..], v);
    assert ContainsSubstring(path, vars[i]);
    assert Conditions(vars)[i] == AsCondition(v);
  }

  /** With no generated variable, every wildcard removal gets both reasons. */
  lemma {:induction false} NoVariablesFailEveryRemoval(removals: seq<Removal>)
    ensures |AllReasons(removals, [])| == 2 * |removals|
  {
    if |removals| > 0 {
      var rm := removals[0];
      assert !ConditionIsCorrect(rm.condition, Conditions([]));
      assert |Problems(rm, [])| == 2;
      NoVariablesFailEveryRemoval(removals[1..]);
    }
  }
}
