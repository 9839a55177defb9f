/** The workflow document model: a GitHub Actions workflow read from the
    generic JSON tree. Holds the trigger resolver that turns the three legal
    shapes of the `on` key into one list of triggers, and the job mapping in
    which a job's id is its key in `jobs`. A `Failure` stands for an
    exception thrown while reading the tree. */
module ActionsWorkflow {
  import opened Wrappers
  import opened Json
  import opened Text
  import opened Seqs

  /** `IReadOnlyDictionary<string, string>`; a JSON null value is kept as `None`. */
  type Settings = seq<(string, Option<string>)>
  /** `defaults`: scope (such as `run`) to its settings; a null scope is `None`. */
  type Scopes = seq<(string, Option<Settings>)>
  /** Filter name to its values, in document order. */
  type Filters = seq<(string, seq<string>)>

  datatype Trigger = Trigger(eventId: string, filters: Filters)

  datatype Step = Step(
    id: Option<string>,
    name: Option<string>,
    condition: Option<string>,
    shell: Option<string>,
    env: Option<Settings>,
    run: Option<string>,
    uses: Option<string>,
    with: Option<Settings>)

  /** `defaults` and `steps` are `None` when the job gives them an explicit
      null, and empty when the job leaves them out. */
  datatype Job = Job(
    id: string,
    uses: Option<string>,
    name: Option<string>,
    runsOn: Option<string>,
    defaults: Option<Scopes>,
    strategy: Option<seq<(string, JNode)>>,
    steps: Option<seq<Option<Step>>>)

  datatype Workflow = Workflow(
    name: Option<string>,
    runName: Option<string>,
    on: seq<Trigger>,
    permissions: Option<Settings>,
    env: Option<Settings>,
    defaults: Scopes,
    jobs: seq<Job>)

  const NotAString := "The JSON value could not be converted to System.String."
  const NotAnObject := "The JSON value could not be converted to an object."
  const UnparsableTriggers := "Unable to parse workflow triggers"

  /** The object has a property named `key`, null or not. */
  predicate Has(fields: seq<(string, JNode)>, key: string) {
    exists i :: 0 <= i < |fields| && fields[i].0 == key
  }

  // ---------------------------------------------------------------------
  // Scalar and dictionary decoding (what the serializer does per property).
  // ---------------------------------------------------------------------

  /** A `string` property: null stays null, anything but a string throws. */
  function OptString(n: JNode): (r: Result<Option<string>, string>)
    ensures r.Success? <==> n.JNull? || n.JStr?
    ensures r.Success? && r.value.Some? ==> n == JStr(r.value.value)
    ensures r.Success? && r.value.None? ==> n.JNull?
  {
    match n
    case JNull => Success(None)
    case JStr(s) => Success(Some(s))
    case _ => Failure(NotAString)
  }

  function SettingsEntries(fields: seq<(string, JNode)>): (r: Result<Settings, string>)
    ensures r.Success? <==> forall i :: 0 <= i < |fields| ==> fields[i].1.JNull? || fields[i].1.JStr?
    ensures r.Success? ==> |r.value| == |fields|
    ensures r.Success? ==> forall i :: 0 <= i < |fields| ==>
      r.value[i].0 == fields[i].0 && OptString(fields[i].1) == Success(r.value[i].1)
  {
    if |fields| == 0 then Success([])
    else
      var v :- OptString(fields[0].1);
      var rest :- SettingsEntries(fields[1..]);
      Success([(fields[0].0, v)] + rest)
  }

  /** `IReadOnlyDictionary<string, string>`: null gives null, an object of
      strings gives its entries, anything else throws. */
  function DecodeSettings(n: JNode): (r: Result<Option<Settings>, string>)
    ensures n.JNull? ==> r == Success(None)
    ensures r.Success? <==> n.JNull? || (n.JObj? && forall i :: 0 <= i < |n.fields| ==> n.fields[i].1.JNull? || n.fields[i].1.JStr?)
    ensures r.Success? ==> (r.value.None? <==> n.JNull?)
    ensures r.Success? && r.value.Some? ==> n.JObj? && |r.value.value| == |n.fields|
    ensures r.Success? && r.value.Some? ==> forall i :: 0 <= i < |n.fields| ==>
      r.value.value[i].0 == n.fields[i].0 && OptString(n.fields[i].1) == Success(r.value.value[i].1)
  {
    match n
    case JNull => Success(None)
    case JObj(fields) =>
      var entries :- SettingsEntries(fields);
      Success(Some(entries))
    case _ => Failure(NotAnObject)
  }

  function ScopeEntries(fields: seq<(string, JNode)>): (r: Result<Scopes, string>)
    ensures r.Success? <==> forall i :: 0 <= i < |fields| ==> DecodeSettings(fields[i].1).Success?
    ensures r.Success? ==> |r.value| == |fields|
    ensures r.Success? ==> forall i :: 0 <= i < |fields| ==>
      r.value[i].0 == fields[i].0 && DecodeSettings(fields[i].1) == Success(r.value[i].1)
  {
    if |fields| == 0 then Success([])
    else
      var v :- DecodeSettings(fields[0].1);
      var rest :- ScopeEntries(fields[1..]);
      Success([(fields[0].0, v)] + rest)
  }

  /** Looking a setting up after decoding finds what the JSON property held. */
  lemma {:induction false} SettingsLookup(fields: seq<(string, JNode)>, key: string)
    requires SettingsEntries(fields).Success?
    requires Get(fields, key) != JNull
    ensures Find(SettingsEntries(fields).value, key).Some?
    ensures OptString(Get(fields, key)) == Success(Find(SettingsEntries(fields).value, key).value)
  {
    var r := SettingsEntries(fields).value;
    if fields[0].0 != key {
      assert r[1..] == SettingsEntries(fields[1..]).value;
      SettingsLookup(fields[1..], key);
    }
  }

  /** Looking a scope up after decoding finds what the JSON property held. */
  lemma {:induction false} ScopesLookup(fields: seq<(string, JNode)>, key: string)
    requires ScopeEntries(fields).Success?
    requires Get(fields, key) != JNull
    ensures Find(ScopeEntries(fields).value, key).Some?
    ensures DecodeSettings(Get(fields, key)) == Success(Find(ScopeEntries(fields).value, key).value)
  {
    var r := ScopeEntries(fields).value;
    if fields[0].0 != key {
      assert r[1..] == ScopeEntries(fields[1..]).value;
      ScopesLookup(fields[1..], key);
    }
  }

  /** `IReadOnlyDictionary<string, IReadOnlyDictionary<string, string>>`. */
  function DecodeScopes(n: JNode): (r: Result<Option<Scopes>, string>)
    ensures n.JNull? ==> r == Success(None)
    ensures r.Success? <==> n.JNull? || (n.JObj? && forall i :: 0 <= i < |n.fields| ==> DecodeSettings(n.fields[i].1).Success?)
    ensures r.Success? ==> (r.value.None? <==> n.JNull?)
    ensures r.Success? && r.value.Some? ==> n.JObj? && |r.value.value| == |n.fields|
    ensures r.Success? && r.value.Some? ==> forall i :: 0 <= i < |n.fields| ==>
      r.value.value[i].0 == n.fields[i].0 && DecodeSettings(n.fields[i].1) == Success(r.value.value[i].1)
  {
    match n
    case JNull => Success(None)
    case JObj(fields) =>
      var scopes :- ScopeEntries(fields);
      Success(Some(scopes))
    case _ => Failure(NotAnObject)
  }

  // ---------------------------------------------------------------------
  // Trigger resolution.
  // ---------------------------------------------------------------------

  /** A JSON array read as `string[]`: every element must be a string. */
  function StringArray(items: seq<JNode>): (r: Result<seq<string>, string>)
    ensures r.Success? <==> forall i :: 0 <= i < |items| ==> items[i].JStr?
    ensures r.Success? ==> |r.value| == |items| && forall i :: 0 <= i < |items| ==> items[i] == JStr(r.value[i])
  {
    if |items| == 0 then Success([])
    else if !items[0].JStr? then Failure(NotAString)
    else
      var rest :- StringArray(items[1..]);
      Success([items[0].s] + rest)
  }

  /** What `GetValue<string>()` throws on an element of an `on` array:
      nothing for a string, a null dereference for a null, otherwise a failed
      string conversion. */
  function EventError(n: JNode): Option<string> {
    if n.JStr? then None
    else if n.JNull? then Some(NullReference)
    else Some(NotAString)
  }

  /** The event names of an `on` array, read element by element; the first
      element that is not a string decides the exception. */
  function EventNames(items: seq<JNode>): (r: Result<seq<string>, string>)
    ensures r.Success? <==> forall i :: 0 <= i < |items| ==> items[i].JStr?
    ensures r.Success? ==> |r.value| == |items| && forall i :: 0 <= i < |items| ==> items[i] == JStr(r.value[i])
    ensures forall i :: 0 <= i < |items| && EventError(items[i]).Some? && (forall j :: 0 <= j < i ==> EventError(items[j]).None?) ==>
      r == Failure(EventError(items[i]).value)
  {
    if |items| == 0 then Success([])
    else if EventError(items[0]).Some? then Failure(EventError(items[0]).value)
    else
      var rest :- EventNames(items[1..]);
      assert forall i :: 1 <= i < |items| ==> items[i] == items[1..][i - 1];
      Success([items[0].s] + rest)
  }

  predicate IsObject(n: JNode) {
    n.JObj?
  }

  /** `crons` are, in order, the `cron` strings of `objects`. */
  predicate CronsOf(objects: seq<JNode>, crons: seq<string>) {
    |crons| == |objects| && forall j :: 0 <= j < |objects| ==> objects[j].JObj? && Get(objects[j].fields, "cron") == JStr(crons[j])
  }

  /** What reading the `cron` of element `n` throws: nothing for a non-object
      or a string `cron`; a null dereference for a missing or null one;
      otherwise a failed string conversion. */
  function CronError(n: JNode): Option<string> {
    if !n.JObj? || Get(n.fields, "cron").JStr? then None
    else if Get(n.fields, "cron").JNull? then Some(NullReference)
    else Some(NotAString)
  }

  /** The `cron` string of every object element, skipping the others; the
      first element whose `cron` cannot be read decides the exception. */
  function CronValues(items: seq<JNode>): (r: Result<seq<string>, string>)
    ensures r.Success? <==> forall i :: 0 <= i < |items| && items[i].JObj? ==> Get(items[i].fields, "cron").JStr?
    ensures r.Success? ==> CronsOf(Filter(items, IsObject), r.value)
    ensures forall i :: 0 <= i < |items| && CronError(items[i]).Some? && (forall j :: 0 <= j < i ==> CronError(items[j]).None?) ==>
      r == Failure(CronError(items[i]).value)
  {
    if |items| == 0 then Success([])
    else if CronError(items[0]).Some? then Failure(CronError(items[0]).value)
    else
      var rest :- CronValues(items[1..]);
      assert forall i :: 1 <= i < |items| ==> items[i] == items[1..][i - 1];
      if items[0].JObj? then
        CronsOfObject(items, rest);
        Success([Get(items[0].fields, "cron").s] + rest)
      else
        assert Filter(items, IsObject) == Filter(items[1..], IsObject);
        Success(rest)
  }

  /** An object element with a string `cron` puts its cron in front. */
  lemma CronsOfObject(items: seq<JNode>, rest: seq<string>)
    requires |items| > 0 && items[0].JObj? && Get(items[0].fields, "cron").JStr?
    requires CronsOf(Filter(items[1..], IsObject), rest)
    ensures CronsOf(Filter(items, IsObject), [Get(items[0].fields, "cron").s] + rest)
  {
    assert Filter(items, IsObject) == [items[0]] + Filter(items[1..], IsObject);
  }

  /** A filter value the source keeps: an array or a scalar. */
  predicate IsKeptFilter(f: (string, JNode)) {
    f.1.JArr? || f.1.JStr?
  }

  /** A filter value that does not throw: no number or boolean scalar, and
      only strings inside an array. */
  predicate FilterReadable(v: JNode) {
    match v
    case JNum(_) => false
    case JBool(_) => false
    case JArr(items) => forall i :: 0 <= i < |items| ==> items[i].JStr?
    case _ => true
  }

  /** The values one kept filter contributes. */
  predicate FilterValuesOf(v: JNode, values: seq<string>) {
    && (v.JStr? ==> values == [v.s])
    && (v.JArr? ==> |values| == |v.items| && forall m :: 0 <= m < |values| ==> v.items[m] == JStr(values[m]))
  }

  /** What one property of an ordinary event's filter object contributes:
      arrays keep their strings, string scalars become one-element lists,
      numbers and booleans throw, null and object values are dropped. */
  function FilterEntry(key: string, v: JNode): (r: Result<Option<(string, seq<string>)>, string>)
    ensures r.Success? <==> FilterReadable(v)
    ensures r.Success? ==> (r.value.Some? <==> IsKeptFilter((key, v)))
    ensures r.Success? && r.value.Some? ==> r.value.value.0 == key && FilterValuesOf(v, r.value.value.1)
  {
    match v
    case JArr(items) =>
      var values :- StringArray(items);
      Success(Some((key, values)))
    case JStr(s) => Success(Some((key, [s])))
    case JNum(_) => Failure(NotAString)
    case JBool(_) => Failure(NotAString)
    case _ => Success(None)
  }

  /** `filters` holds one entry per kept property of `fields`, in order,
      under the property's name and with its values. */
  predicate EntriesOf(fields: seq<(string, JNode)>, filters: Filters) {
    var kept := Filter(fields, IsKeptFilter);
    |filters| == |kept| &&
    forall j :: 0 <= j < |kept| ==> filters[j].0 == kept[j].0 && FilterValuesOf(kept[j].1, filters[j].1)
  }

  /** The filter map of an ordinary event, in document order. */
  function FilterEntries(fields: seq<(string, JNode)>): (r: Result<Filters, string>)
    ensures r.Success? <==> forall i :: 0 <= i < |fields| ==> FilterReadable(fields[i].1)
    ensures r.Success? ==> EntriesOf(fields, r.value)
  {
    if |fields| == 0 then Success([])
    else
      var entry :- FilterEntry(fields[0].0, fields[0].1);
      var rest :- FilterEntries(fields[1..]);
      assert forall i :: 1 <= i < |fields| ==> fields[i] == fields[1..][i - 1];
      if entry.Some? then
        EntriesOfKept(fields, entry.value, rest);
        Success([entry.value] + rest)
      else
        assert Filter(fields, IsKeptFilter) == Filter(fields[1..], IsKeptFilter);
        Success(rest)
  }

  /** A kept first property puts its entry in front of the others. */
  lemma EntriesOfKept(fields: seq<(string, JNode)>, entry: (string, seq<string>), rest: Filters)
    requires |fields| > 0 && IsKeptFilter(fields[0])
    requires entry.0 == fields[0].0 && FilterValuesOf(fields[0].1, entry.1)
    requires EntriesOf(fields[1..], rest)
    ensures EntriesOf(fields, [entry] + rest)
  {
    var kept := Filter(fields[1..], IsKeptFilter);
    assert Filter(fields, IsKeptFilter) == [fields[0]] + kept;
    forall j | 1 <= j < |kept| + 1
      ensures ([entry] + rest)[j] == rest[j - 1] && ([fields[0]] + kept)[j] == kept[j - 1]
    {
    }
  }

  /** One property of an `on` object, resolved into its trigger. */
  function TriggerFor(key: string, value: JNode): (r: Result<Trigger, string>)
    ensures r.Success? ==> r.value.eventId == key
    ensures value.JNull? || key == "workflow_dispatch" ==> r == Success(Trigger(key, []))
    ensures !value.JNull? && key == "schedule" ==>
      && (r.Success? <==> value.JArr? && CronValues(value.items).Success?)
      && (r.Success? ==> r.value.filters == [("cron", CronValues(value.items).value)])
      && (!value.JArr? ==> r == Failure(NullSource))
    ensures !value.JNull? && key != "schedule" && key != "workflow_dispatch" ==>
      && (value.JObj? ==> (r.Success? <==> FilterEntries(value.fields).Success?))
      && (value.JObj? && r.Success? ==> r.value.filters == FilterEntries(value.fields).value)
      && (!value.JObj? ==> r == Success(Trigger(key, [])))
  {
    if value.JNull? then Success(Trigger(key, []))
    else if key == "schedule" then
      if value.JArr? then
        var crons :- CronValues(value.items);
        Success(Trigger(key, [("cron", crons)]))
      else Failure(NullSource)
    else if key == "workflow_dispatch" then Success(Trigger(key, []))
    else if value.JObj? then
      var filters :- FilterEntries(value.fields);
      Success(Trigger(key, filters))
    else Success(Trigger(key, []))
  }

  function ObjectTriggers(fields: seq<(string, JNode)>): (r: Result<seq<Trigger>, string>)
    ensures r.Success? <==> forall i :: 0 <= i < |fields| ==> TriggerFor(fields[i].0, fields[i].1).Success?
    ensures r.Success? ==> (|r.value| == |fields| &&
      forall i :: 0 <= i < |fields| ==> TriggerFor(fields[i].0, fields[i].1) == Success(r.value[i]))
  {
    if |fields| == 0 then Success([])
    else
      var t :- TriggerFor(fields[0].0, fields[0].1);
      var rest :- ObjectTriggers(fields[1..]);
      Success([t] + rest)
  }

  /** `ParseTriggerEvents`: the `on` value in any of its legal shapes as one
      list of triggers. */
  function ParseTriggerEvents(on: JNode): (r: Result<seq<Trigger>, string>)
    ensures on.JNull? ==> r == Success([])
    ensures on.JStr? ==> r == Success([Trigger(on.s, [])])
    ensures on.JArr? ==>
      && (r.Success? <==> forall i :: 0 <= i < |on.items| ==> on.items[i].JStr?)
      && (r.Success? ==> (|r.value| == |on.items| &&
            forall i :: 0 <= i < |on.items| ==> on.items[i] == JStr(r.value[i].eventId) && r.value[i].filters == []))
      && (forall i :: 0 <= i < |on.items| && EventError(on.items[i]).Some? && (forall j :: 0 <= j < i ==> EventError(on.items[j]).None?) ==>
            r == Failure(EventError(on.items[i]).value))
    ensures on.JObj? ==>
      && (r.Success? <==> forall i :: 0 <= i < |on.fields| ==> TriggerFor(on.fields[i].0, on.fields[i].1).Success?)
      && (r.Success? ==> (|r.value| == |on.fields| &&
            forall i :: 0 <= i < |on.fields| ==>
              r.value[i].eventId == on.fields[i].0 && TriggerFor(on.fields[i].0, on.fields[i].1) == Success(r.value[i])))
    ensures on.JNum? || on.JBool? ==> r == Failure(UnparsableTriggers)
  {
    match on
    case JNull => Success([])
    case JStr(s) => Success([Trigger(s, [])])
    case JArr(items) =>
      var names :- EventNames(items);
      Success(seq(|names|, i requires 0 <= i < |names| => Trigger(names[i], [])))
    case JObj(fields) => ObjectTriggers(fields)
    case _ => Failure(UnparsableTriggers)
  }

  /** A null entry in an `on` array dereferences null, even after a good one. */
  lemma NullEventFails(event: string)
    ensures ParseTriggerEvents(JArr([JStr(event), JNull])) == Failure(NullReference)
  {
    assert EventError(JArr([JStr(event), JNull]).items[1]) == Some(NullReference);
  }

  /** The three shapes say the same thing about a single unfiltered event. */
  lemma ShapeInvariance(event: string)
    ensures ParseTriggerEvents(JStr(event)) == Success([Trigger(event, [])])
    ensures ParseTriggerEvents(JArr([JStr(event)])) == Success([Trigger(event, [])])
    ensures ParseTriggerEvents(JObj([(event, JNull)])) == Success([Trigger(event, [])])
  {
    var r := ParseTriggerEvents(JArr([JStr(event)]));
    assert r.value == [r.value[0]];
    var o := ParseTriggerEvents(JObj([(event, JNull)]));
    assert TriggerFor(event, JNull) == Success(Trigger(event, []));
    assert o.value == [o.value[0]];
  }

  /** A scalar filter and a one-element array filter normalise alike. */
  lemma FilterNormalization(event: string, filter: string, value: string)
    requires event != "schedule" && event != "workflow_dispatch"
    ensures ParseTriggerEvents(JObj([(event, JObj([(filter, JStr(value))]))]))
         == Success([Trigger(event, [(filter, [value])])])
    ensures ParseTriggerEvents(JObj([(event, JObj([(filter, JArr([JStr(value)]))]))]))
         == Success([Trigger(event, [(filter, [value])])])
  {
    var scalar := [(filter, JStr(value))];
    var listed := [(filter, JArr([JStr(value)]))];
    assert Filter(scalar, IsKeptFilter) == scalar;
    assert Filter(listed, IsKeptFilter) == listed;
    var fs := FilterEntries(scalar);
    assert fs.value == [fs.value[0]];
    var fl := FilterEntries(listed);
    assert fl.value == [fl.value[0]];
    assert fl.value[0].1 == [fl.value[0].1[0]];
    var r := ParseTriggerEvents(JObj([(event, JObj(scalar))]));
    assert r.value == [r.value[0]];
    var q := ParseTriggerEvents(JObj([(event, JObj(listed))]));
    assert q.value == [q.value[0]];
  }

  /** The schedule event gathers every `cron` expression under one filter. */
  lemma ScheduleGathersCrons(a: string, b: string)
    ensures ParseTriggerEvents(JObj([("schedule", JArr([JObj([("cron", JStr(a))]), JObj([("cron", JStr(b))])]))]))
         == Success([Trigger("schedule", [("cron", [a, b])])])
  {
    var items := [JObj([("cron", JStr(a))]), JObj([("cron", JStr(b))])];
    assert items[1..][1..] == [];
    assert Filter(items, IsObject) == items;
    var c := CronValues(items);
    assert c.Success?;
    assert c.value == [c.value[0], c.value[1]];
    var r := ParseTriggerEvents(JObj([("schedule", JArr(items))]));
    assert r.value == [r.value[0]];
  }

  /** Filters are empty unless the event's value was an array or an object. */
  lemma {:induction false} FiltersNeedStructuredValue(on: JNode, i: nat)
    requires ParseTriggerEvents(on).Success? && i < |ParseTriggerEvents(on).value|
    requires ParseTriggerEvents(on).value[i].filters != []
    ensures on.JObj? && i < |on.fields| && (on.fields[i].1.JArr? || on.fields[i].1.JObj?)
  {
  }

  /** `WorkflowTrigger.ToString`. */
  function TriggerToString(t: Trigger): (r: string)
    ensures StartsWith(r, "Trigger on: " + t.eventId)
    ensures t.filters == [] ==> r == "Trigger on: " + t.eventId
    ensures t.filters != [] && (forall i :: 0 <= i < |t.filters| ==> ',' !in t.filters[i].0) ==>
      && StartsWith(r, "Trigger on: " + t.eventId + ", filter on ")
      && Split(r[|"Trigger on: " + t.eventId + ", filter on "|..], ',')
         == seq(|t.filters|, i requires 0 <= i < |t.filters| => t.filters[i].0)
  {
    var head := "Trigger on: " + t.eventId;
    if |t.filters| > 0 then
      var names := seq(|t.filters|, i requires 0 <= i < |t.filters| => t.filters[i].0);
      var r := head + ", filter on " + Join(",", names);
      assert r[..|head|] == head;
      assert r[..|head + ", filter on "|] == head + ", filter on ";
      assert r[|head + ", filter on "|..] == Join([','], names);
      assert (forall i :: 0 <= i < |t.filters| ==> ',' !in t.filters[i].0) ==> Split(Join([','], names), ',') == names by {
        if forall i :: 0 <= i < |t.filters| ==> ',' !in t.filters[i].0 {
          SplitJoin(names, ',');
        }
      }
      r
    else head
  }

  // ---------------------------------------------------------------------
  // Jobs and steps.
  // ---------------------------------------------------------------------

  /** The properties of a step object that the serializer can read: the
      text properties are null or strings, `env` and `with` null or objects
      of strings. */
  predicate StepReadable(fields: seq<(string, JNode)>) {
    && OptString(Get(fields, "id")).Success?
    && OptString(Get(fields, "name")).Success?
    && OptString(Get(fields, "if")).Success?
    && OptString(Get(fields, "shell")).Success?
    && DecodeSettings(Get(fields, "env")).Success?
    && OptString(Get(fields, "run")).Success?
    && OptString(Get(fields, "uses")).Success?
    && DecodeSettings(Get(fields, "with")).Success?
  }

  /** `s` holds what each property of the step object decodes to. */
  predicate StepOf(fields: seq<(string, JNode)>, s: Step) {
    && OptString(Get(fields, "id")) == Success(s.id)
    && OptString(Get(fields, "name")) == Success(s.name)
    && OptString(Get(fields, "if")) == Success(s.condition)
    && OptString(Get(fields, "shell")) == Success(s.shell)
    && DecodeSettings(Get(fields, "env")) == Success(s.env)
    && OptString(Get(fields, "run")) == Success(s.run)
    && OptString(Get(fields, "uses")) == Success(s.uses)
    && DecodeSettings(Get(fields, "with")) == Success(s.with)
  }

  /** One element of `steps` deserialized as a `JobStep`: null stays null,
      an object is read property by property, anything else throws. */
  function ParseStep(n: JNode): (r: Result<Option<Step>, string>)
    ensures n.JNull? ==> r == Success(None)
    ensures r.Success? <==> n.JNull? || (n.JObj? && StepReadable(n.fields))
    ensures r.Success? ==> (r.value.None? <==> n.JNull?)
    ensures r.Success? && r.value.Some? ==> n.JObj? && StepOf(n.fields, r.value.value)
    ensures r.Success? && r.value.Some? ==> n.JObj? && OptString(Get(n.fields, "run")) == Success(r.value.value.run)
    ensures r.Success? && r.value.Some? ==> OptString(Get(n.fields, "uses")) == Success(r.value.value.uses)
  {
    match n
    case JNull => Success(None)
    case JObj(f) =>
      var id :- OptString(Get(f, "id"));
      var name :- OptString(Get(f, "name"));
      var condition :- OptString(Get(f, "if"));
      var shell :- OptString(Get(f, "shell"));
      var env :- DecodeSettings(Get(f, "env"));
      var run :- OptString(Get(f, "run"));
      var uses :- OptString(Get(f, "uses"));
      var with :- DecodeSettings(Get(f, "with"));
      Success(Some(Step(id, name, condition, shell, env, run, uses, with)))
    case _ => Failure(NotAnObject)
  }

  function ParseSteps(items: seq<JNode>): (r: Result<seq<Option<Step>>, string>)
    ensures r.Success? <==> forall i :: 0 <= i < |items| ==> ParseStep(items[i]).Success?
    ensures r.Success? ==> (|r.value| == |items| &&
      forall i :: 0 <= i < |items| ==> ParseStep(items[i]) == Success(r.value[i]))
  {
    if |items| == 0 then Success([])
    else
      var step :- ParseStep(items[0]);
      var rest :- ParseSteps(items[1..]);
      assert forall i :: 1 <= i < |items| ==> items[i] == items[1..][i - 1];
      Success([step] + rest)
  }

  /** The `strategy` property read as a `JsonObject`. */
  function DecodeStrategy(n: JNode): Result<Option<seq<(string, JNode)>>, string> {
    match n
    case JNull => Success(None)
    case JObj(s) => Success(Some(s))
    case _ => Failure(NotAnObject)
  }

  /** The `steps` property: left out gives the empty default, null stays
      null, an array is read element by element, anything else throws. */
  function DecodeStepList(fields: seq<(string, JNode)>): Result<Option<seq<Option<Step>>>, string> {
    if !Has(fields, "steps") then Success(Some([]))
    else match Get(fields, "steps")
      case JNull => Success(None)
      case JArr(items) => (var parsed :- ParseSteps(items); Success(Some(parsed)))
      case _ => Failure(NotAnObject)
  }

  /** The properties of a job object that the serializer and the second
      `defaults` pass can read. The serializer also binds `id`, which the key
      then overwrites, so only its readability matters. */
  predicate JobReadable(fields: seq<(string, JNode)>) {
    && OptString(Get(fields, "id")).Success?
    && OptString(Get(fields, "uses")).Success?
    && OptString(Get(fields, "name")).Success?
    && OptString(Get(fields, "runs-on")).Success?
    && (Get(fields, "strategy").JNull? || Get(fields, "strategy").JObj?)
    && (!Has(fields, "steps") || Get(fields, "steps").JNull? ||
        (Get(fields, "steps").JArr? && ParseSteps(Get(fields, "steps").items).Success?))
    && (!Has(fields, "defaults") || DecodeScopes(Get(fields, "defaults")).Success?)
  }

  /** One entry of `jobs`: the body read by the serializer, then the id set
      from the key and `defaults` read again in a separate pass. */
  function ParseJob(key: string, body: JNode): (r: Result<Job, string>)
    ensures r.Success? <==> body.JObj? && JobReadable(body.fields)
    ensures r.Success? ==> r.value.id == key && body.JObj?
    ensures r.Success? ==>
      && OptString(Get(body.fields, "uses")) == Success(r.value.uses)
      && OptString(Get(body.fields, "name")) == Success(r.value.name)
      && OptString(Get(body.fields, "runs-on")) == Success(r.value.runsOn)
    ensures r.Success? && Get(body.fields, "strategy").JNull? ==> r.value.strategy == None
    ensures r.Success? && Get(body.fields, "strategy").JObj? ==> r.value.strategy == Some(Get(body.fields, "strategy").fields)
    ensures r.Success? && !Has(body.fields, "defaults") ==> r.value.defaults == Some([])
    ensures r.Success? && !Has(body.fields, "steps") ==> r.value.steps == Some([])
    ensures r.Success? && Has(body.fields, "defaults") ==> DecodeScopes(Get(body.fields, "defaults")) == Success(r.value.defaults)
    ensures r.Success? && Has(body.fields, "steps") && Get(body.fields, "steps").JNull? ==> r.value.steps == None
    ensures r.Success? && Has(body.fields, "steps") && Get(body.fields, "steps").JArr? ==>
      r.value.steps.Some? && ParseSteps(Get(body.fields, "steps").items) == Success(r.value.steps.value)
  {
    match body
    case JObj(f) =>
      var boundId :- OptString(Get(f, "id"));
      var uses :- OptString(Get(f, "uses"));
      var name :- OptString(Get(f, "name"));
      var runsOn :- OptString(Get(f, "runs-on"));
      var strategy :- DecodeStrategy(Get(f, "strategy"));
      var steps :- DecodeStepList(f);
      var defaults :- if !Has(f, "defaults") then Success(Some([])) else DecodeScopes(Get(f, "defaults"));
      Success(Job(key, uses, name, runsOn, defaults, strategy, steps))
    case JNull => Failure(NullReference)
    case _ => Failure(NotAnObject)
  }

  /** The serializer binds a job body's own `id` before the key replaces it,
      so `jobs: {build: {id: {}}}` fails although the id is never used. */
  lemma ObjectJobIdFails()
    ensures ParseJob("build", JObj([("id", JObj([]))])) == Failure(NotAString)
  {
    assert Get([("id", JObj([]))], "id") == JObj([]);
  }

  /** The `jobs` mapping: one job per key, in document order. */
  function ParseJobs(fields: seq<(string, JNode)>): (r: Result<seq<Job>, string>)
    ensures r.Success? <==> forall i :: 0 <= i < |fields| ==> ParseJob(fields[i].0, fields[i].1).Success?
    ensures r.Success? ==> (|r.value| == |fields| &&
      forall i :: 0 <= i < |fields| ==> r.value[i].id == fields[i].0 && ParseJob(fields[i].0, fields[i].1) == Success(r.value[i]))
  {
    var r := MapOrFail(fields, JobEntry);
    assert forall i :: 0 <= i < |fields| ==> JobEntry(fields[i]) == ParseJob(fields[i].0, fields[i].1);
    r
  }

  function JobEntry(field: (string, JNode)): Result<Job, string> {
    ParseJob(field.0, field.1)
  }

  /** The properties of the workflow object the constructor can read. */
  predicate WorkflowReadable(fields: seq<(string, JNode)>) {
    && OptString(Get(fields, "name")).Success?
    && OptString(Get(fields, "run-name")).Success?
    && ParseTriggerEvents(Get(fields, "on")).Success?
    && DecodeSettings(Get(fields, "permissions")).Success?
    && DecodeSettings(Get(fields, "env")).Success?
    && (Get(fields, "defaults").JNull? || DecodeScopes(Get(fields, "defaults")).Success?)
    && Get(fields, "jobs").JObj?
    && ParseJobs(Get(fields, "jobs").fields).Success?
  }

  /** The `ActionsWorkflow` constructor over the parsed document. */
  function ParseWorkflow(root: JNode): (r: Result<Workflow, string>)
    ensures r.Success? <==> root.JObj? && WorkflowReadable(root.fields)
    ensures r.Success? ==> root.JObj? && Get(root.fields, "jobs").JObj?
    ensures r.Success? ==>
      && OptString(Get(root.fields, "name")) == Success(r.value.name)
      && OptString(Get(root.fields, "run-name")) == Success(r.value.runName)
      && DecodeSettings(Get(root.fields, "permissions")) == Success(r.value.permissions)
      && DecodeSettings(Get(root.fields, "env")) == Success(r.value.env)
    ensures r.Success? ==> Success(r.value.on) == ParseTriggerEvents(Get(root.fields, "on"))
    ensures r.Success? ==> Success(r.value.jobs) == ParseJobs(Get(root.fields, "jobs").fields)
    ensures r.Success? ==> (|r.value.jobs| == |Get(root.fields, "jobs").fields| &&
      forall i :: 0 <= i < |r.value.jobs| ==> r.value.jobs[i].id == Get(root.fields, "jobs").fields[i].0)
    ensures r.Success? && Get(root.fields, "defaults").JNull? ==> r.value.defaults == []
    ensures r.Success? && !Get(root.fields, "defaults").JNull? ==>
      DecodeScopes(Get(root.fields, "defaults")) == Success(Some(r.value.defaults))
  {
    match root
    case JObj(f) =>
      var name :- OptString(Get(f, "name"));
      var runName :- OptString(Get(f, "run-name"));
      var on :- ParseTriggerEvents(Get(f, "on"));
      var permissions :- DecodeSettings(Get(f, "permissions"));
      var env :- DecodeSettings(Get(f, "env"));
      var defaults :- if Get(f, "defaults").JNull? then Success(Some([])) else DecodeScopes(Get(f, "defaults"));
      var jobs := Get(f, "jobs");
      if jobs.JNull? then Failure(NullReference)
      else if !jobs.JObj? then Failure(NotAnObject)
      else
        var parsed :- ParseJobs(jobs.fields);
        Success(Workflow(name, runName, on, permissions, env, defaults.GetOr([]), parsed))
    case JNull => Failure(NullReference)
    case _ => Failure(NotAnObject)
  }

  // ---------------------------------------------------------------------
  // Writing a model value back as a document, and reading it again.
  // ---------------------------------------------------------------------

  /** A nullable string as a JSON value. */
  function StringNode(v: Option<string>): JNode {
    if v.None? then JNull else JStr(v.value)
  }

  /** Settings as an object of strings, entries in order. */
  function SettingsFields(s: Settings): seq<(string, JNode)> {
    seq(|s|, i requires 0 <= i < |s| => (s[i].0, StringNode(s[i].1)))
  }

  function SettingsNode(s: Option<Settings>): JNode {
    if s.None? then JNull else JObj(SettingsFields(s.value))
  }

  function ScopesNode(sc: Option<Scopes>): JNode {
    if sc.None? then JNull
    else JObj(seq(|sc.value|, i requires 0 <= i < |sc.value| => (sc.value[i].0, SettingsNode(sc.value[i].1))))
  }

  /** The fields of a step as the object a workflow file would hold, key by
      key, null values written out. */
  function StepFields(t: Step): seq<(string, JNode)> {
    [("id", StringNode(t.id)), ("name", StringNode(t.name)), ("if", StringNode(t.condition)),
     ("shell", StringNode(t.shell)), ("env", SettingsNode(t.env)), ("run", StringNode(t.run)),
     ("uses", StringNode(t.uses)), ("with", SettingsNode(t.with))]
  }

  function StepNode(s: Option<Step>): JNode {
    if s.None? then JNull else JObj(StepFields(s.value))
  }

  function StepsNode(steps: Option<seq<Option<Step>>>): JNode {
    if steps.None? then JNull
    else JArr(seq(|steps.value|, i requires 0 <= i < |steps.value| => StepNode(steps.value[i])))
  }

  /** A job body as a workflow file would hold it; the id is the key. */
  function JobFields(j: Job): seq<(string, JNode)> {
    [("uses", StringNode(j.uses)), ("name", StringNode(j.name)), ("runs-on", StringNode(j.runsOn)),
     ("strategy", if j.strategy.None? then JNull else JObj(j.strategy.value)),
     ("steps", StepsNode(j.steps)), ("defaults", ScopesNode(j.defaults)), ("id", StringNode(Some(j.id)))]
  }

  function JobNode(j: Job): JNode {
    JObj(JobFields(j))
  }

  function JobsFields(jobs: seq<Job>): seq<(string, JNode)> {
    seq(|jobs|, i requires 0 <= i < |jobs| => (jobs[i].id, JobNode(jobs[i])))
  }

  lemma {:induction false} StringRoundTrip(v: Option<string>)
    ensures OptString(StringNode(v)) == Success(v)
  {
  }

  /** Settings written out read back as themselves, duplicates and order kept. */
  lemma {:induction false} SettingsRoundTrip(s: Option<Settings>)
    ensures DecodeSettings(SettingsNode(s)) == Success(s)
  {
    if s.Some? {
      var fields := SettingsFields(s.value);
      forall i | 0 <= i < |fields|
        ensures OptString(fields[i].1) == Success(s.value[i].1)
      {
        StringRoundTrip(s.value[i].1);
      }
      var r := DecodeSettings(SettingsNode(s));
      assert r.value.value == s.value;
    }
  }

  /** Scopes written out read back as themselves. */
  lemma {:induction false} ScopesRoundTrip(sc: Option<Scopes>)
    ensures DecodeScopes(ScopesNode(sc)) == Success(sc)
  {
    if sc.Some? {
      var fields := ScopesNode(sc).fields;
      forall i | 0 <= i < |fields|
        ensures DecodeSettings(fields[i].1) == Success(sc.value[i].1)
      {
        SettingsRoundTrip(sc.value[i].1);
      }
      var r := DecodeScopes(ScopesNode(sc));
      assert r.value.value == sc.value;
    }
  }

  /** Each property of a written-out step sits under its own key. */
  lemma StepNodeGets(t: Step)
    ensures var f := StepNode(Some(t)).fields;
      && Get(f, "id") == StringNode(t.id)
      && Get(f, "name") == StringNode(t.name)
      && Get(f, "if") == StringNode(t.condition)
      && Get(f, "shell") == StringNode(t.shell)
      && Get(f, "env") == SettingsNode(t.env)
      && Get(f, "run") == StringNode(t.run)
      && Get(f, "uses") == StringNode(t.uses)
      && Get(f, "with") == SettingsNode(t.with)
  {
    StepGetsFront(t);
    StepGetsBack(t);
  }

  lemma StepGetsFront(t: Step)
    ensures var f := StepFields(t);
      && Get(f, "id") == StringNode(t.id)
      && Get(f, "name") == StringNode(t.name)
      && Get(f, "if") == StringNode(t.condition)
      && Get(f, "shell") == StringNode(t.shell)
  {
    var f := StepFields(t);
    forall k | 0 <= k < 3
      ensures f[k].0 != "shell" && (k < 2 ==> f[k].0 != "if") && (k < 1 ==> f[k].0 != "name")
    {
      if k == 0 {} else if k == 1 {} else {}
    }
    GetFirst(f, "id", 0);
    GetFirst(f, "name", 1);
    GetFirst(f, "if", 2);
    GetFirst(f, "shell", 3);
  }

  lemma StepGetsBack(t: Step)
    ensures var f := StepFields(t);
      && Get(f, "env") == SettingsNode(t.env)
      && Get(f, "run") == StringNode(t.run)
      && Get(f, "uses") == StringNode(t.uses)
      && Get(f, "with") == SettingsNode(t.with)
  {
    var f := StepFields(t);
    forall k | 0 <= k < 7
      ensures f[k].0 != "with" && (k < 6 ==> f[k].0 != "uses") && (k < 5 ==> f[k].0 != "run") && (k < 4 ==> f[k].0 != "env")
    {
      if k == 0 {} else if k == 1 {} else if k == 2 {} else if k == 3 {} else if k == 4 {} else if k == 5 {} else {}
    }
    GetFirst(f, "env", 4);
    GetFirst(f, "run", 5);
    GetFirst(f, "uses", 6);
    GetFirst(f, "with", 7);
  }

  /** Every property of a written-out step reads back from its own key. */
  lemma StepNodeFields(t: Step)
    ensures StepReadable(StepNode(Some(t)).fields) && StepOf(StepNode(Some(t)).fields, t)
  {
    StepNodeGets(t);
    StringRoundTrip(t.id);
    StringRoundTrip(t.name);
    StringRoundTrip(t.condition);
    StringRoundTrip(t.shell);
    StringRoundTrip(t.run);
    StringRoundTrip(t.uses);
    SettingsRoundTrip(t.env);
    SettingsRoundTrip(t.with);
  }

  /** A step written out reads back as itself: every property of `JobStep`
      is read from its own key. */
  lemma StepRoundTrip(s: Option<Step>)
    ensures ParseStep(StepNode(s)) == Success(s)
  {
    if s.Some? {
      StepNodeFields(s.value);
      var r := ParseStep(StepNode(s));
      StepOfUnique(StepNode(s).fields, r.value.value, s.value);
    }
  }

  /** The step a step object decodes to is determined by the object. */
  lemma StepOfUnique(fields: seq<(string, JNode)>, a: Step, b: Step)
    requires StepOf(fields, a) && StepOf(fields, b)
    ensures a == b
  {
  }

  /** A step list written out reads back as itself, null steps included. */
  lemma StepsRoundTrip(steps: seq<Option<Step>>)
    ensures ParseSteps(StepsNode(Some(steps)).items) == Success(steps)
  {
    var items := StepsNode(Some(steps)).items;
    forall i | 0 <= i < |items|
      ensures ParseStep(items[i]) == Success(steps[i])
    {
      StepRoundTrip(steps[i]);
    }
    var r := ParseSteps(items);
    assert r.value == steps;
  }

  /** Every property of a written-out job body reads back from its own key. */
  lemma JobNodeFields(j: Job)
    ensures var f := JobNode(j).fields;
      && JobReadable(f)
      && OptString(Get(f, "id")) == Success(Some(j.id))
      && OptString(Get(f, "uses")) == Success(j.uses)
      && OptString(Get(f, "name")) == Success(j.name)
      && OptString(Get(f, "runs-on")) == Success(j.runsOn)
      && Get(f, "strategy") == (if j.strategy.None? then JNull else JObj(j.strategy.value))
      && Has(f, "steps") && Get(f, "steps") == StepsNode(j.steps)
      && Has(f, "defaults") && DecodeScopes(Get(f, "defaults")) == Success(j.defaults)
  {
    JobGets(j);
    StringRoundTrip(Some(j.id));
    StringRoundTrip(j.uses);
    StringRoundTrip(j.name);
    StringRoundTrip(j.runsOn);
    ScopesRoundTrip(j.defaults);
    if j.steps.Some? {
      StepsRoundTrip(j.steps.value);
    }
  }

  /** Each key of a written-out job body finds its own value. */
  lemma JobGets(j: Job)
    ensures var f := JobFields(j);
      && Get(f, "uses") == StringNode(j.uses)
      && Get(f, "name") == StringNode(j.name)
      && Get(f, "runs-on") == StringNode(j.runsOn)
      && Get(f, "strategy") == (if j.strategy.None? then JNull else JObj(j.strategy.value))
      && Has(f, "steps") && Get(f, "steps") == StepsNode(j.steps)
      && Has(f, "defaults") && Get(f, "defaults") == ScopesNode(j.defaults)
      && Get(f, "id") == StringNode(Some(j.id))
  {
    var f := JobFields(j);
    forall k | 0 <= k < 6
      ensures f[k].0 != "id" && (k < 5 ==> f[k].0 != "defaults") && (k < 4 ==> f[k].0 != "steps")
        && (k < 3 ==> f[k].0 != "strategy") && (k < 2 ==> f[k].0 != "runs-on") && (k < 1 ==> f[k].0 != "name")
    {
      if k == 0 {} else if k == 1 {} else if k == 2 {} else if k == 3 {} else if k == 4 {} else {}
    }
    GetFirst(f, "uses", 0);
    GetFirst(f, "name", 1);
    GetFirst(f, "runs-on", 2);
    GetFirst(f, "strategy", 3);
    GetFirst(f, "steps", 4);
    GetFirst(f, "defaults", 5);
    GetFirst(f, "id", 6);
    assert f[4].0 == "steps" && f[5].0 == "defaults";
  }

  /** A job written out under its id reads back as itself: the body gives
      every property and the key gives the id. */
  lemma JobRoundTrip(j: Job)
    ensures ParseJob(j.id, JobNode(j)) == Success(j)
  {
    JobNodeFields(j);
    var f := JobNode(j).fields;
    var r := ParseJob(j.id, JobNode(j));
    assert r.Success?;
    var k := r.value;
    assert k.uses == j.uses && k.name == j.name && k.runsOn == j.runsOn;
    assert k.strategy == j.strategy;
    assert k.defaults == j.defaults;
    if j.steps.Some? {
      StepsRoundTrip(j.steps.value);
      assert k.steps == j.steps;
    } else {
      assert k.steps == j.steps;
    }
    assert k.id == j.id;
  }

  /** Jobs written out under their ids read back as themselves, in order. */
  lemma JobsRoundTrip(jobs: seq<Job>)
    ensures ParseJobs(JobsFields(jobs)) == Success(jobs)
  {
    var fields := JobsFields(jobs);
    forall i | 0 <= i < |fields|
      ensures ParseJob(fields[i].0, fields[i].1) == Success(jobs[i])
    {
      JobRoundTrip(jobs[i]);
    }
    var r := ParseJobs(fields);
    assert r.value == jobs;
  }

  /** A workflow document holding only `jobs` parses to exactly those jobs,
      with no triggers, no settings and empty defaults. */
  lemma WorkflowOfJobs(jobs: seq<Job>)
    ensures ParseWorkflow(JObj([("jobs", JObj(JobsFields(jobs)))])) == Success(Workflow(None, None, [], None, None, [], jobs))
  {
    var f := [("jobs", JObj(JobsFields(jobs)))];
    assert Get(f, "jobs") == JObj(JobsFields(jobs));
    assert Get(f, "name") == JNull && Get(f, "run-name") == JNull && Get(f, "on") == JNull;
    assert Get(f, "permissions") == JNull && Get(f, "env") == JNull && Get(f, "defaults") == JNull;
    JobsRoundTrip(jobs);
  }
}
