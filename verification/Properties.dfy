/** Dynamic properties of a database object and the page they are rendered to. */
module Properties {
  import opened Bytes
  import opened Decimal

  /** The value types the page knows; Saved stands for a built-in type, whose stream form is given. */
  datatype Element =
    | HyperLink(url: string, text: string)
    | Text(text: string)
    | Header(level: int, text: string)
    | Saved(bytes: string)

  datatype Variant = Variant(typeName: string, element: Element)

  datatype Property = Property(name: string, value: Variant)

  type Properties = seq<Property>

  /** The only property QObject declares itself; writing it leaves the dynamic properties alone. */
  const OBJECT_NAME := "objectName"

  function Names(ps: Properties): (names: seq<string>)
    ensures |names| == |ps|
    ensures forall i :: 0 <= i < |ps| ==> names[i] == ps[i].name
  {
    seq(|ps|, i requires 0 <= i < |ps| => ps[i].name)
  }

  ghost predicate Distinct(ps: Properties) {
    forall i, j :: 0 <= i < j < |ps| ==> ps[i].name != ps[j].name
  }

  predicate Has(ps: Properties, name: string) {
    exists i :: 0 <= i < |ps| && ps[i].name == name
  }

  function Lookup(ps: Properties, name: string): Option<Variant> {
    if ps == [] then None
    else if ps[0].name == name then Some(ps[0].value)
    else Lookup(ps[1..], name)
  }

  /** The index of the property with the given name, or the length of the list. */
  function Position(ps: Properties, name: string): (p: nat)
    ensures p <= |ps| && (p < |ps| <==> Has(ps, name))
    ensures p < |ps| ==> ps[p].name == name
    ensures forall i :: 0 <= i < p ==> ps[i].name != name
  {
    if ps == [] then 0
    else if ps[0].name == name then 0 else 1 + Position(ps[1..], name)
  }

  /** Qt's dynamic property list: replace in place, append a new name, close the gap of a deleted one. */
  function SetDynamic(ps: Properties, name: string, value: Option<Variant>): Properties {
    var p := Position(ps, name);
    match value {
      case None => if p < |ps| then ps[..p] + ps[p + 1..] else ps
      case Some(v) => if p < |ps| then ps[p := Property(name, v)] else ps + [Property(name, v)]
    }
  }

  /** QObject::setProperty: an absent value deletes, a new name goes to the end. */
  function SetProperty(ps: Properties, name: string, value: Option<Variant>): Properties {
    if name == OBJECT_NAME then ps else SetDynamic(ps, name, value)
  }

  /** What QMetaType::save puts on the page: the snprintf arguments are C strings. */
  function Save(v: Variant): string {
    match v.element {
      case HyperLink(url, text) => "<a href=\"" + CStr(url) + "\">" + CStr(text) + "</a>"
      case Text(text) => "<p>" + CStr(text) + "</p>"
      case Header(level, text) => "<h" + DecInt(level) + ">" + CStr(text) + "</h" + DecInt(level) + ">"
      case Saved(bytes) => bytes
    }
  }

  function SaveAll(vs: seq<Variant>): string {
    if vs == [] then "" else SaveAll(vs[..|vs| - 1]) + Save(vs[|vs| - 1])
  }

  const HEAD := "<!DOCTYPE html>\n<html>\n<body>\n"

  // writeRawData(tail, sizeof(tail)) also writes the literal's terminating zero
  const TAIL := "</body>\n</html>\n\0"

  function Values(ps: Properties): (vs: seq<Variant>)
    ensures |vs| == |ps|
    ensures forall i :: 0 <= i < |ps| ==> vs[i] == ps[i].value
  {
    seq(|ps|, i requires 0 <= i < |ps| => ps[i].value)
  }

  /** The page that shows exactly the given properties, in order. */
  function Page(ps: Properties): string {
    HEAD + SaveAll(Values(ps)) + TAIL
  }

  /** A complete page: head, some elements, tail. */
  ghost predicate CompletePage(b: string) {
    exists vs: seq<Variant> :: b == HEAD + SaveAll(vs) + TAIL
  }

  lemma {:induction false} LookupOfName(ps: Properties, i: nat)
    requires Distinct(ps) && i < |ps|
    ensures Lookup(ps, ps[i].name) == Some(ps[i].value)
  {
    if i > 0 {
      LookupOfName(ps[1..], i - 1);
    }
  }

  lemma SetPropertyKeepsDistinct(ps: Properties, name: string, value: Option<Variant>)
    requires Distinct(ps)
    ensures Distinct(SetProperty(ps, name, value))
  {
  }
}
