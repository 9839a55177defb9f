/** The generic document tree the workflow parser consumes: the JSON node
    that the YAML document is re-serialised into. Object properties keep
    document order. */
module Json {

  datatype JNode =
    | JNull
    | JStr(s: string)
    | JNum(n: int)
    | JBool(b: bool)
    | JArr(items: seq<JNode>)
    | JObj(fields: seq<(string, JNode)>)

  /** `obj[key]`: the value of the property named `key`, or null when there
      is none (a missing property and a null one look the same). */
  function Get(fields: seq<(string, JNode)>, key: string): (r: JNode)
    ensures r != JNull ==> exists i :: 0 <= i < |fields| && fields[i] == (key, r)
    ensures (forall i :: 0 <= i < |fields| ==> fields[i].0 != key) ==> r == JNull
    ensures |fields| > 0 && fields[0].0 == key ==> r == fields[0].1
  {
    if |fields| == 0 then JNull
    else if fields[0].0 == key then fields[0].1
    else Get(fields[1..], key)
  }

  /** The value found is the one under the first property with the key. */
  lemma {:induction false} GetFirst(fields: seq<(string, JNode)>, key: string, i: int)
    requires 0 <= i < |fields| && fields[i].0 == key
    requires forall j :: 0 <= j < i ==> fields[j].0 != key
    ensures Get(fields, key) == fields[i].1
  {
    if i > 0 {
      GetFirst(fields[1..], key, i - 1);
    }
  }
}
