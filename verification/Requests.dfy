/** The property requests of a database object and the ordered map they implement. */
module Requests {
  import opened Bytes
  import opened Properties
  import opened Decimal
  import opened Reading

  datatype ErrorCode =
    | NoError | ParseError | InvalidRequest | MethodNotFound
    | InvalidParams | InternalError | NullIDError | ObjectNotFound

  datatype Reply = Reply(text: string, code: ErrorCode)

  /**
   * A parameter value: what its conversion to a byte array gives, or a value that has none, such
   * as an object or an array.
   */
  datatype Datum = Convertible(bytes: string) | Inconvertible

  /** toByteArray, and toString in a reply: without a conversion both give the empty text. */
  function ByteArray(d: Datum): string {
    match d
    case Convertible(bytes) => bytes
    case Inconvertible => ""
  }

  type Params = map<string, Datum>

  /** What the meta type system makes of a type name: its default value, or None when it has no valid value. */
  type Types = map<string, Option<Variant>>

  /** level is what the uninitialised level of a copied header happens to be. */
  datatype Request =
    | Add(params: Params)
    | Delete(params: Params)
    | List
    | SetAttr(params: Params, level: int)

  /** The setProperty call a request makes, if any; it is followed by one notification. */
  datatype Change = Change(name: string, value: Option<Variant>)

  datatype Effect = Effect(reply: Reply, change: Option<Change>)

  /** extractParamStr: an absent or empty value fails, and the text stops at the first zero byte. */
  function ExtractParamStr(params: Params, key: string): Option<string> {
    if key in params && ByteArray(params[key]) != "" then Some(CStr(ByteArray(params[key]))) else None
  }

  const REFUSED := Effect(Reply("", InvalidParams), None)

  function AddEffect(types: Types, props: Properties, params: Params): Effect {
    var name := ExtractParamStr(params, "name");
    var typeName := ExtractParamStr(params, "type");
    if name.None? || Has(props, name.value) || typeName.None? then REFUSED
    else if typeName.value !in types || types[typeName.value].None? then REFUSED
    else
      Effect(Reply("Property <" + name.value + "> type <" + typeName.value + "> added", NoError),
             Some(Change(name.value, types[typeName.value])))
  }

  function DeleteEffect(props: Properties, params: Params): Effect {
    var name := ExtractParamStr(params, "name");
    if name.None? || !Has(props, name.value) then REFUSED
    else Effect(Reply("Property <" + name.value + "> deleted", NoError), Some(Change(name.value, None)))
  }

  /** Writing a declared byte array property: a value that does not convert to one is not written. */
  function Written(before: string, data: Datum): string {
    match data
    case Convertible(bytes) => bytes
    case Inconvertible => before
  }

  /**
   * A copy of an element with an attribute set. An attribute the type does not declare is set on
   * the copied object only and lost, and the copy constructor of a header does not copy its level.
   */
  function WithAttribute(e: Element, attribute: string, data: Datum, level: int): Element {
    match e
    case HyperLink(url, text) =>
      HyperLink(if attribute == "url" then Written(url, data) else url,
                if attribute == "text" then Written(text, data) else text)
    case Text(text) => Text(if attribute == "text" then Written(text, data) else text)
    case Header(_, text) => Header(level, if attribute == "text" then Written(text, data) else text)
    case Saved(_) => e
  }

  function SetAttrEffect(props: Properties, params: Params, level: int): Effect {
    var name := ExtractParamStr(params, "property");
    var attribute := ExtractParamStr(params, "attribute");
    if name.None? || attribute.None? || "data" !in params then REFUSED
    else
      var updated := match Lookup(props, name.value)
        case None => None
        case Some(v) => Some(v.(element := WithAttribute(v.element, attribute.value, params["data"], level)));
      Effect(Reply("Attribute " + attribute.value + " set to " + ByteArray(params["data"]), NoError),
             Some(Change(name.value, updated)))
  }

  function EntryText(p: Property): string {
    "{Property <" + p.name + ">, type: <" + p.value.typeName + ">} "
  }

  function EntryTexts(props: Properties): (texts: seq<string>)
    ensures |texts| == |props|
    ensures forall i :: 0 <= i < |props| ==> texts[i] == EntryText(props[i])
  {
    seq(|props|, i requires 0 <= i < |props| => EntryText(props[i]))
  }

  /** The answer of listProperties: the entries one after the other. */
  function ListText(props: Properties): string {
    Appended(EntryTexts(props))
  }

  function Handle(types: Types, props: Properties, req: Request): Effect {
    match req
    case Add(params) => AddEffect(types, props, params)
    case Delete(params) => DeleteEffect(props, params)
    case List => Effect(Reply(ListText(props), NoError), None)
    case SetAttr(params, level) => SetAttrEffect(props, params, level)
  }

  function After(props: Properties, change: Option<Change>): Properties {
    match change
    case None => props
    case Some(c) => SetProperty(props, c.name, c.value)
  }

  /** A request of setPropertyAttr that is not refused before the property is looked up. */
  predicate Complete(params: Params) {
    && ExtractParamStr(params, "property").Some? && ExtractParamStr(params, "attribute").Some? && "data" in params
  }

  /** From there on it takes the property for granted, and takes it for an object of the page types. */
  predicate Accepted(props: Properties, req: Request) {
    req.SetAttr? && Complete(req.params) ==>
      var value := Lookup(props, ExtractParamStr(req.params, "property").value);
      value.Some? && !value.value.element.Saved?
  }

  // ---------- what setting an attribute does ----------

  /** What reading an attribute of an element gives; None for one that its type does not declare. */
  function AttributeOf(e: Element, attribute: string): Option<string> {
    match e
    case HyperLink(url, text) =>
      if attribute == "url" then Some(url) else if attribute == "text" then Some(text) else None
    case Text(text) => if attribute == "text" then Some(text) else None
    case Header(level, text) =>
      if attribute == "level" then Some(DecInt(level)) else if attribute == "text" then Some(text) else None
    case Saved(_) => None
  }

  /** The attribute reads back as what the answer says was set, whatever the copy has for a level. */
  ghost predicate TakesEffect(e: Element, attribute: string, data: Datum) {
    forall level :: AttributeOf(WithAttribute(e, attribute, data, level), attribute) == Some(ByteArray(data))
  }

  /** Every other attribute keeps its value, whatever the copy has for a level. */
  ghost predicate KeepsOthers(e: Element, attribute: string, data: Datum) {
    forall level, b :: b != attribute ==> AttributeOf(WithAttribute(e, attribute, data, level), b) == AttributeOf(e, b)
  }

  /**
   * The type declares the attribute, which is not the level, and the data converts; data that does
   * not is answered as the empty text, which an attribute may happen to hold.
   */
  predicate Settable(e: Element, attribute: string, data: Datum) {
    && AttributeOf(e, attribute).Some? && attribute != "level"
    && (data.Convertible? || AttributeOf(e, attribute) == Some(""))
  }

  lemma LevelsDiffer()
    ensures DecInt(0) != DecInt(1)
  {
    assert DecInt(0) == "0" && DecInt(1) == "1";
  }

  /** That is the exact condition for setting to take effect. */
  lemma TakesEffectIff(e: Element, attribute: string, data: Datum)
    ensures TakesEffect(e, attribute, data) <==> Settable(e, attribute, data)
  {
    LevelsDiffer();
    if TakesEffect(e, attribute, data) {
      assert AttributeOf(WithAttribute(e, attribute, data, 0), attribute) == Some(ByteArray(data));
      assert AttributeOf(WithAttribute(e, attribute, data, 1), attribute) == Some(ByteArray(data));
    }
  }

  /** The other attributes are kept exactly when the value is no header, or its level is what was set. */
  lemma KeepsOthersIff(e: Element, attribute: string, data: Datum)
    ensures KeepsOthers(e, attribute, data) <==> !e.Header? || attribute == "level"
  {
    LevelsDiffer();
    var low, high := WithAttribute(e, attribute, data, 0), WithAttribute(e, attribute, data, 1);
    if KeepsOthers(e, attribute, data) && attribute != "level" {
      assert AttributeOf(low, "level") == AttributeOf(e, "level");
      assert AttributeOf(high, "level") == AttributeOf(e, "level");
      assert AttributeOf(low, "level") == AttributeOf(high, "level");
    }
  }

  /** Two attributes can be set in any order; each of the four copies has a level of its own. */
  ghost predicate AnyOrder(e: Element, a: string, x: Datum, b: string, y: Datum) {
    forall k, l, m, n ::
      WithAttribute(WithAttribute(e, a, x, k), b, y, l) == WithAttribute(WithAttribute(e, b, y, m), a, x, n)
  }

  /** The order of two different attributes is free exactly when the value is no header. */
  lemma AnyOrderIff(e: Element, a: string, x: Datum, b: string, y: Datum)
    requires a != b
    ensures AnyOrder(e, a, x, b, y) <==> !e.Header?
  {
    var one := WithAttribute(WithAttribute(e, a, x, 0), b, y, 0);
    var other := WithAttribute(WithAttribute(e, b, y, 0), a, x, 1);
    assert AnyOrder(e, a, x, b, y) ==> one == other;
  }

  /** The value of a property after a request of setPropertyAttr. */
  function ValueAfter(props: Properties, params: Params, level: int): Option<Variant>
    requires Complete(params)
  {
    var after := After(props, SetAttrEffect(props, params, level).change);
    Lookup(after, ExtractParamStr(params, "property").value)
  }

  lemma {:induction false} LookupAtPosition(ps: Properties, name: string)
    ensures Lookup(ps, name) == if Has(ps, name) then Some(ps[Position(ps, name)].value) else None
  {
    if ps != [] && ps[0].name != name {
      LookupAtPosition(ps[1..], name);
      assert Has(ps, name) <==> Has(ps[1..], name) by {
        assert forall i :: 0 < i < |ps| ==> ps[i] == ps[1..][i - 1];
      }
    }
  }

  lemma PositionIs(ps: Properties, name: string, p: nat)
    requires p < |ps| && ps[p].name == name && forall i :: 0 <= i < p ==> ps[i].name != name
    ensures Position(ps, name) == p
  {
  }

  lemma LookupReplaced(ps: Properties, name: string, v: Variant, other: string)
    requires Has(ps, name)
    ensures var after := SetDynamic(ps, name, Some(v));
      Lookup(after, other) == if other == name then Some(v) else Lookup(ps, other)
  {
    var after := SetDynamic(ps, name, Some(v));
    var p := Position(ps, name);
    assert forall i :: 0 <= i < |ps| ==> after[i].name == ps[i].name;
    LookupAtPosition(ps, other);
    LookupAtPosition(after, other);
    if Has(ps, other) {
      PositionIs(after, other, Position(ps, other));
    } else {
      assert !Has(after, other);
    }
  }

  /** The call replaces the value of its property in place and leaves every other property alone. */
  lemma SetAttrReplaces(props: Properties, params: Params, level: int)
    requires Complete(params) && Accepted(props, SetAttr(params, level)) && !Has(props, OBJECT_NAME)
    ensures var name := ExtractParamStr(params, "property").value;
      var attribute := ExtractParamStr(params, "attribute").value;
      && var after := After(props, SetAttrEffect(props, params, level).change);
      && Names(after) == Names(props)
      && (forall n :: n != name ==> Lookup(after, n) == Lookup(props, n))
      && ValueAfter(props, params, level) == Some(Lookup(props, name).value.(
           element := WithAttribute(Lookup(props, name).value.element, attribute, params["data"], level)))
  {
    var name := ExtractParamStr(params, "property").value;
    var v := SetAttrEffect(props, params, level).change.value.value.value;
    LookupAtPosition(props, name);
    forall n ensures Lookup(SetDynamic(props, name, Some(v)), n) == if n == name then Some(v) else Lookup(props, n) {
      LookupReplaced(props, name, v, n);
    }
  }

  /** The property reads back what the answer says was set. */
  ghost predicate CallTakesEffect(props: Properties, params: Params)
    requires Complete(params)
  {
    forall level ::
      var v := ValueAfter(props, params, level);
      && v.Some?
      && AttributeOf(v.value.element, ExtractParamStr(params, "attribute").value) == Some(ByteArray(params["data"]))
  }

  /**
   * The call always answers with success. The property reads back what the answer says exactly when
   * its type declares the attribute, that is not the level of a header, and the data converts or
   * the attribute was empty anyway.
   */
  lemma CallTakesEffectIff(props: Properties, params: Params, level: int)
    requires Complete(params) && Accepted(props, SetAttr(params, level)) && !Has(props, OBJECT_NAME)
    ensures SetAttrEffect(props, params, level).reply.code == NoError
    ensures var name := ExtractParamStr(params, "property").value;
      var attribute := ExtractParamStr(params, "attribute").value;
      CallTakesEffect(props, params) <==> Settable(Lookup(props, name).value.element, attribute, params["data"])
  {
    var attribute := ExtractParamStr(params, "attribute").value;
    var e := Lookup(props, ExtractParamStr(params, "property").value).value.element;
    forall l ensures ValueAfter(props, params, l).Some?
      && ValueAfter(props, params, l).value.element == WithAttribute(e, attribute, params["data"], l)
    {
      SetAttrReplaces(props, params, l);
    }
    TakesEffectIff(e, attribute, params["data"]);
    if CallTakesEffect(props, params) {
      forall l
        ensures AttributeOf(WithAttribute(e, attribute, params["data"], l), attribute)
          == Some(ByteArray(params["data"]))
      {
        assert ValueAfter(props, params, l).Some?;
      }
    }
  }

  /** The call leaves the other attributes of the property as they were. */
  ghost predicate CallKeepsOthers(props: Properties, params: Params)
    requires Complete(params) && Accepted(props, SetAttr(params, 0))
  {
    var e := Lookup(props, ExtractParamStr(params, "property").value).value.element;
    forall level, b :: b != ExtractParamStr(params, "attribute").value ==>
      var v := ValueAfter(props, params, level);
      v.Some? && AttributeOf(v.value.element, b) == AttributeOf(e, b)
  }

  /** It does so exactly when the property is no header, or its level is the attribute of the call. */
  lemma CallKeepsOthersIff(props: Properties, params: Params)
    requires Complete(params) && Accepted(props, SetAttr(params, 0)) && !Has(props, OBJECT_NAME)
    ensures var e := Lookup(props, ExtractParamStr(params, "property").value).value.element;
      CallKeepsOthers(props, params) <==> !e.Header? || ExtractParamStr(params, "attribute").value == "level"
  {
    var attribute := ExtractParamStr(params, "attribute").value;
    var e := Lookup(props, ExtractParamStr(params, "property").value).value.element;
    forall l ensures ValueAfter(props, params, l).Some?
      && ValueAfter(props, params, l).value.element == WithAttribute(e, attribute, params["data"], l)
    {
      SetAttrReplaces(props, params, l);
    }
    KeepsOthersIff(e, attribute, params["data"]);
    if CallKeepsOthers(props, params) {
      forall l, b | b != attribute
        ensures AttributeOf(WithAttribute(e, attribute, params["data"], l), b) == AttributeOf(e, b)
      {
        assert ValueAfter(props, params, l).Some?;
      }
    }
  }

  /** The properties after a sequence of requests, and the changes that were made on the way. */
  function Final(types: Types, props: Properties, reqs: seq<Request>): Properties
    decreases |reqs|
  {
    if reqs == [] then props
    else Final(types, After(props, Handle(types, props, reqs[0]).change), reqs[1..])
  }

  function Log(types: Types, props: Properties, reqs: seq<Request>): seq<Change>
    decreases |reqs|
  {
    if reqs == [] then []
    else
      var change := Handle(types, props, reqs[0]).change;
      Made(change) + Log(types, After(props, change), reqs[1..])
  }

  function Made(change: Option<Change>): seq<Change> {
    if change.Some? then [change.value] else []
  }

  /** A refusal says invalid params and changes nothing; a successful add or delete makes one change. */
  lemma ErrorsChangeNothing(types: Types, props: Properties, req: Request)
    ensures var e := Handle(types, props, req);
      && (e.reply.code != NoError ==> e.change.None? && e.reply == Reply("", InvalidParams))
      && (e.reply.code == NoError && !req.List? ==> e.change.Some?)
      && (req.List? ==> e.change.None?)
  {
  }

  /** The requests of a sequence that make a change. */
  function Effective(types: Types, props: Properties, reqs: seq<Request>): seq<Request>
    decreases |reqs|
  {
    if reqs == [] then []
    else
      var change := Handle(types, props, reqs[0]).change;
      (if change.Some? then [reqs[0]] else []) + Effective(types, After(props, change), reqs[1..])
  }

  function Replies(types: Types, props: Properties, reqs: seq<Request>): seq<Reply>
    decreases |reqs|
  {
    if reqs == [] then []
    else
      var effect := Handle(types, props, reqs[0]);
      [effect.reply] + Replies(types, After(props, effect.change), reqs[1..])
  }

  ghost predicate AllSucceed(replies: seq<Reply>) {
    forall i :: 0 <= i < |replies| ==> replies[i].code == NoError
  }

  /**
   * Requests answered with an error, and listings, can be taken out of any sequence: what is left
   * succeeds throughout, makes one change per request, and leads to the same properties by the same log.
   */
  lemma {:induction false} FailuresLeaveNoTrace(types: Types, props: Properties, reqs: seq<Request>)
    ensures var kept := Effective(types, props, reqs);
      && Final(types, props, kept) == Final(types, props, reqs)
      && Log(types, props, kept) == Log(types, props, reqs)
      && |Log(types, props, reqs)| == |kept|
      && AllSucceed(Replies(types, props, kept))
    decreases |reqs|
  {
    if reqs != [] {
      var change := Handle(types, props, reqs[0]).change;
      FailuresLeaveNoTrace(types, After(props, change), reqs[1..]);
      var rest := Effective(types, After(props, change), reqs[1..]);
      if change.Some? {
        ErrorsChangeNothing(types, props, reqs[0]);
        assert ([reqs[0]] + rest)[1..] == rest;
      } else {
        assert [] + rest == rest;
        assert [] + Log(types, props, reqs[1..]) == Log(types, props, reqs[1..]);
      }
    }
  }

  /** When an add succeeds, told on the raw parameters. */
  lemma AddSucceedsIff(types: Types, props: Properties, params: Params)
    ensures AddEffect(types, props, params).reply.code == NoError <==>
      && "name" in params && ByteArray(params["name"]) != "" && !Has(props, CStr(ByteArray(params["name"])))
      && "type" in params && ByteArray(params["type"]) != ""
      && CStr(ByteArray(params["type"])) in types && types[CStr(ByteArray(params["type"]))].Some?
  {
  }

  /** When a delete succeeds, told on the raw parameters. */
  lemma DeleteSucceedsIff(props: Properties, params: Params)
    ensures DeleteEffect(props, params).reply.code == NoError <==>
      "name" in params && ByteArray(params["name"]) != "" && Has(props, CStr(ByteArray(params["name"])))
  {
  }

  /** A delete that succeeds takes out the property of the given name, and no other. */
  lemma DeleteIsExact(props: Properties, params: Params, i: nat)
    requires Distinct(props) && !Has(props, OBJECT_NAME)
    requires DeleteEffect(props, params).reply.code == NoError
    requires i < |props| && "name" in params && props[i].name == CStr(ByteArray(params["name"]))
    ensures After(props, DeleteEffect(props, params).change) == props[..i] + props[i + 1..]
    ensures !Has(After(props, DeleteEffect(props, params).change), CStr(ByteArray(params["name"])))
  {
    PositionIs(props, props[i].name, i);
    assert props[i].name != OBJECT_NAME;
  }

  /** An add that succeeds appends the given name with the default value of the given type. */
  lemma AddIsExact(types: Types, props: Properties, params: Params)
    requires AddEffect(types, props, params).reply.code == NoError
    ensures "name" in params && "type" in params && CStr(ByteArray(params["type"])) in types
    ensures var name, value := CStr(ByteArray(params["name"])), types[CStr(ByteArray(params["type"]))];
      && value.Some?
      && (name != OBJECT_NAME ==>
           After(props, AddEffect(types, props, params).change) == props + [Property(name, value.value)])
  {
    AddSucceedsIff(types, props, params);
  }

  /** The answers name what was added, of which type, or deleted, for names and types without the mark. */
  lemma RepliesName(types: Types, props: Properties, params: Params)
    requires "name" in params && Free(CStr(ByteArray(params["name"])))
    ensures AddEffect(types, props, params).reply.code == NoError && Free(CStr(ByteArray(params["type"]))) ==>
      var name := ReadField(AddEffect(types, props, params).reply.text, "Property <", ">");
      && name.Some? && name.value.text == CStr(ByteArray(params["name"]))
      && ReadField(name.value.rest, " type <", ">") == Some(Span(CStr(ByteArray(params["type"])), " added"))
    ensures DeleteEffect(props, params).reply.code == NoError ==>
      ReadField(DeleteEffect(props, params).reply.text, "Property <", ">")
      == Some(Span(CStr(ByteArray(params["name"])), " deleted"))
  {
    var name := CStr(ByteArray(params["name"]));
    if DeleteEffect(props, params).reply.code == NoError {
      assert "Property <" + name + "> deleted" == "Property <" + name + ">" + " deleted";
      FieldReadsBack("Property <", name, ">", " deleted");
    }
    if AddEffect(types, props, params).reply.code == NoError && Free(CStr(ByteArray(params["type"]))) {
      AddReplyReads(name, CStr(ByteArray(params["type"])));
    }
  }

  /** The answer of setPropertyAttr names the attribute, for one without spaces, and what was to be set. */
  lemma SetAttrReplyNames(props: Properties, params: Params, level: int)
    requires Complete(params) && ' ' !in ExtractParamStr(params, "attribute").value
    ensures ReadField(SetAttrEffect(props, params, level).reply.text, "Attribute ", " set to ")
      == Some(Span(ExtractParamStr(params, "attribute").value, ByteArray(params["data"])))
  {
    FieldReadsBack("Attribute ", ExtractParamStr(params, "attribute").value, " set to ", ByteArray(params["data"]));
  }

  lemma AddReplyReads(name: string, typeName: string)
    requires Free(name) && Free(typeName)
    ensures ReadField("Property <" + name + "> type <" + typeName + "> added", "Property <", ">")
      == Some(Span(name, " type <" + typeName + "> added"))
    ensures ReadField(" type <" + typeName + "> added", " type <", ">") == Some(Span(typeName, " added"))
  {
    var more := " type <" + typeName + "> added";
    assert "> type <" == ">" + " type <" && "> added" == ">" + " added";
    assert "Property <" + name + "> type <" + typeName + "> added" == "Property <" + name + ">" + more;
    FieldReadsBack("Property <", name, ">", more);
    assert more == " type <" + typeName + ">" + " added";
    FieldReadsBack(" type <", typeName, ">", " added");
  }

  /** An added property can be deleted, and that undoes the add; the same name is refused meanwhile. */
  lemma DeleteUndoesAdd(types: Types, props: Properties, params: Params)
    requires AddEffect(types, props, params).change.Some?
    requires AddEffect(types, props, params).change.value.name != OBJECT_NAME
    ensures var added := After(props, AddEffect(types, props, params).change);
      && DeleteEffect(added, params).reply.code == NoError
      && After(added, DeleteEffect(added, params).change) == props
      && AddEffect(types, added, params) == REFUSED
  {
    var c := AddEffect(types, props, params).change.value;
    var added := After(props, Some(c));
    assert added[|props|].name == c.name;
    assert Position(added, c.name) == |props|;
    assert added[..|props|] + added[|props| + 1..] == props;
  }

  /** An add that is answered with success shows in the list, except for the name QObject owns. */
  lemma AddedIffDynamic(types: Types, props: Properties, params: Params)
    requires AddEffect(types, props, params).reply.code == NoError
    ensures var c := AddEffect(types, props, params).change;
      && c.Some? && c.value.value.Some?
      && (c.value.name != OBJECT_NAME ==> After(props, c) == props + [Property(c.value.name, c.value.value.value)])
      && (Has(After(props, c), c.value.name) <==> c.value.name != OBJECT_NAME || Has(props, OBJECT_NAME))
  {
    var c := AddEffect(types, props, params).change.value;
    if c.name != OBJECT_NAME {
      assert After(props, Some(c))[|props|].name == c.name;
    }
  }

  // ---------- the ordered map, told from the log alone ----------

  /** The index of the change that introduced a name that has not been deleted since, or -1. */
  function Born(log: seq<Change>, name: string): int {
    if log == [] then -1
    else
      var before := Born(log[..|log| - 1], name);
      var last := log[|log| - 1];
      if last.name != name then before
      else if last.value.None? then -1
      else if before >= 0 then before
      else |log| - 1
  }

  /** The value of the last change of a name. */
  function Latest(log: seq<Change>, name: string): Option<Variant> {
    if log == [] then None
    else if log[|log| - 1].name == name then log[|log| - 1].value
    else Latest(log[..|log| - 1], name)
  }

  lemma BornBound(log: seq<Change>, name: string)
    ensures -1 <= Born(log, name) < |log|
    ensures Born(log, name) >= 0 <==> Latest(log, name).Some?
  {
  }

  /** The properties are the surviving names of the log, in the order they came into being, with their latest values. */
  ghost predicate Implements(props: Properties, log: seq<Change>) {
    && (forall i :: 0 <= i < |props| ==>
      && props[i].name != OBJECT_NAME && Born(log, props[i].name) >= 0
      && Latest(log, props[i].name) == Some(props[i].value))
    && (forall n :: n != OBJECT_NAME && Born(log, n) >= 0 ==> Has(props, n))
    && (forall i, j :: 0 <= i < j < |props| ==> Born(log, props[i].name) < Born(log, props[j].name))
  }

  lemma ImplementsDistinct(props: Properties, log: seq<Change>)
    requires Implements(props, log)
    ensures Distinct(props)
  {
  }

  lemma BornOfSnoc(log: seq<Change>, c: Change, n: string)
    ensures n != c.name ==> Born(log + [c], n) == Born(log, n) && Latest(log + [c], n) == Latest(log, n)
    ensures Latest(log + [c], c.name) == c.value
    ensures Born(log + [c], c.name)
      == if c.value.None? then -1 else if Born(log, c.name) >= 0 then Born(log, c.name) else |log|
  {
    assert (log + [c])[..|log|] == log;
  }

  /** A log that says of every name but c.name what it said before, and so keeps the other properties. */
  ghost predicate Extends(log: seq<Change>, c: Change, longer: seq<Change>) {
    && longer == log + [c]
    && (forall n :: n != c.name ==> Born(longer, n) == Born(log, n) && Latest(longer, n) == Latest(log, n))
    && Latest(longer, c.name) == c.value
    && Born(longer, c.name)
      == (if c.value.None? then -1 else if Born(log, c.name) >= 0 then Born(log, c.name) else |log|)
    && (forall n :: Born(log, n) < |log|)
  }

  lemma LogExtends(log: seq<Change>, c: Change)
    ensures Extends(log, c, log + [c])
  {
    forall n ensures n != c.name ==> Born(log + [c], n) == Born(log, n) && Latest(log + [c], n) == Latest(log, n) {
      BornOfSnoc(log, c, n);
    }
    BornOfSnoc(log, c, c.name);
    forall n ensures Born(log, n) < |log| {
      BornBound(log, n);
    }
  }

  /** Index i of a list from which position p was taken out, in the list before. */
  function Skip(i: nat, p: nat): nat {
    if i < p then i else i + 1
  }

  lemma Deleted(props: Properties, name: string)
    requires Distinct(props) && Has(props, name)
    ensures var p, after := Position(props, name), SetDynamic(props, name, None);
      && |after| == |props| - 1
      && (forall i :: 0 <= i < |after| ==> after[i] == props[Skip(i, p)] && after[i].name != name)
      && (forall n :: n != name && Has(props, n) ==> Has(after, n))
  {
    var p, after := Position(props, name), SetDynamic(props, name, None);
    forall n | n != name && Has(props, n) ensures Has(after, n) {
      var i :| 0 <= i < |props| && props[i].name == n;
      assert after[if i < p then i else i - 1].name == n;
    }
  }

  lemma ImplementsDelete(props: Properties, log: seq<Change>, c: Change, longer: seq<Change>)
    requires Implements(props, log) && Extends(log, c, longer) && c.value.None? && Has(props, c.name)
    ensures Implements(SetDynamic(props, c.name, None), longer)
  {
    ImplementsDistinct(props, log);
    Deleted(props, c.name);
    var p, after := Position(props, c.name), SetDynamic(props, c.name, None);
    forall i, j | 0 <= i < j < |after| ensures Born(longer, after[i].name) < Born(longer, after[j].name) {
      assert Born(log, props[Skip(i, p)].name) < Born(log, props[Skip(j, p)].name);
    }
  }

  lemma SetElements(props: Properties, name: string, v: Variant)
    requires Distinct(props)
    ensures var p, after := Position(props, name), SetDynamic(props, name, Some(v));
      && |after| == (if p < |props| then |props| else p + 1) && after[p] == Property(name, v)
      && (forall i :: 0 <= i < |after| && i != p ==> after[i] == props[i] && after[i].name != name)
      && (forall n :: n == name || Has(props, n) ==> Has(after, n))
  {
    var p, after := Position(props, name), SetDynamic(props, name, Some(v));
    assert after[p].name == name;
    forall n | Has(props, n) ensures Has(after, n) {
      var i :| 0 <= i < |props| && props[i].name == n;
      assert after[i].name == n;
    }
  }

  lemma ImplementsSet(props: Properties, log: seq<Change>, c: Change, longer: seq<Change>)
    requires Implements(props, log) && Extends(log, c, longer) && c.value.Some? && c.name != OBJECT_NAME
    ensures Implements(SetDynamic(props, c.name, c.value), longer)
  {
    ImplementsDistinct(props, log);
    SetElements(props, c.name, c.value.value);
    var p, after := Position(props, c.name), SetDynamic(props, c.name, c.value);
    assert Born(log, c.name) >= 0 ==> Has(props, c.name);
    forall i, j | 0 <= i < j < |after| ensures Born(longer, after[i].name) < Born(longer, after[j].name) {
      assert i != p ==> Born(longer, after[i].name) == Born(log, props[i].name);
      assert j != p ==> Born(longer, after[j].name) == Born(log, props[j].name);
    }
  }

  lemma ImplementsChange(props: Properties, log: seq<Change>, c: Change)
    requires Implements(props, log)
    ensures Implements(SetProperty(props, c.name, c.value), log + [c])
  {
    LogExtends(log, c);
    if c.name != OBJECT_NAME {
      if c.value.Some? {
        ImplementsSet(props, log, c, log + [c]);
      } else if Has(props, c.name) {
        ImplementsDelete(props, log, c, log + [c]);
      }
    }
  }

  lemma ImplementsAfter(props: Properties, log: seq<Change>, change: Option<Change>)
    requires Implements(props, log)
    ensures Implements(After(props, change), log + Made(change))
  {
    if change.Some? {
      ImplementsChange(props, log, change.value);
    } else {
      assert log + [] == log;
    }
  }

  lemma {:induction false} ImplementsRun(types: Types, props: Properties, log: seq<Change>, reqs: seq<Request>)
    requires Implements(props, log)
    ensures Implements(Final(types, props, reqs), log + Log(types, props, reqs))
    decreases |reqs|
  {
    if reqs == [] {
      assert log + [] == log;
    } else {
      var change := Handle(types, props, reqs[0]).change;
      var rest := Log(types, After(props, change), reqs[1..]);
      assert (log + Made(change)) + rest == log + (Made(change) + rest);
      ImplementsAfter(props, log, change);
      ImplementsRun(types, After(props, change), log + Made(change), reqs[1..]);
    }
  }

  /** Over every sequence of requests the object is the ordered map its log describes, with distinct names. */
  lemma RequestsRefineOrderedMap(types: Types, reqs: seq<Request>)
    ensures Implements(Final(types, [], reqs), Log(types, [], reqs))
    ensures Distinct(Final(types, [], reqs)) && !Has(Final(types, [], reqs), OBJECT_NAME)
  {
    ImplementsRun(types, [], [], reqs);
    assert [] + Log(types, [], reqs) == Log(types, [], reqs);
    ImplementsDistinct(Final(types, [], reqs), Log(types, [], reqs));
  }

  // ---------- the log, told from the requests alone ----------

  /** The name is one of the ordered map the log describes. */
  predicate Alive(log: seq<Change>, name: string) {
    name != OBJECT_NAME && Born(log, name) >= 0
  }

  predicate Asks(params: Params, key: string) {
    key in params && ByteArray(params[key]) != ""
  }

  function Asked(params: Params, key: string): string
    requires key in params
  {
    CStr(ByteArray(params[key]))
  }

  /** The change a request asks for, given the changes so far; None when it is refused or is a listing. */
  function Requested(types: Types, log: seq<Change>, req: Request): Option<Change> {
    match req
    case List => None
    case Add(params) =>
      if Asks(params, "name") && Asks(params, "type") && !Alive(log, Asked(params, "name"))
          && Asked(params, "type") in types && types[Asked(params, "type")].Some?
      then Some(Change(Asked(params, "name"), types[Asked(params, "type")]))
      else None
    case Delete(params) =>
      if Asks(params, "name") && Alive(log, Asked(params, "name")) then Some(Change(Asked(params, "name"), None))
      else None
    case SetAttr(params, level) =>
      if Asks(params, "property") && Asks(params, "attribute") && "data" in params then
        var name := Asked(params, "property");
        var attribute := Asked(params, "attribute");
        var updated := match (if Alive(log, name) then Latest(log, name) else None)
          case None => None
          case Some(v) => Some(v.(element := WithAttribute(v.element, attribute, params["data"], level)));
        Some(Change(name, updated))
      else None
  }

  /** The changes that a sequence of requests asks for, one after the other. */
  function RequestLog(types: Types, log: seq<Change>, reqs: seq<Request>): seq<Change>
    decreases |reqs|
  {
    if reqs == [] then []
    else
      var change := Requested(types, log, reqs[0]);
      Made(change) + RequestLog(types, log + Made(change), reqs[1..])
  }

  lemma ImplementsLookup(props: Properties, log: seq<Change>, n: string)
    requires Implements(props, log)
    ensures Has(props, n) <==> Alive(log, n)
    ensures Lookup(props, n) == if Alive(log, n) then Latest(log, n) else None
  {
    LookupAtPosition(props, n);
  }

  lemma EffectIsRequested(types: Types, props: Properties, log: seq<Change>, req: Request)
    requires Implements(props, log)
    ensures Handle(types, props, req).change == Requested(types, log, req)
  {
    match req
    case List =>
    case Add(params) =>
      if "name" in params { ImplementsLookup(props, log, Asked(params, "name")); }
    case Delete(params) =>
      if "name" in params { ImplementsLookup(props, log, Asked(params, "name")); }
    case SetAttr(params, level) =>
      if "property" in params { ImplementsLookup(props, log, Asked(params, "property")); }
  }

  lemma {:induction false} LogIsRequestedFrom(types: Types, props: Properties, log: seq<Change>, reqs: seq<Request>)
    requires Implements(props, log)
    ensures Log(types, props, reqs) == RequestLog(types, log, reqs)
    decreases |reqs|
  {
    if reqs != [] {
      var change := Handle(types, props, reqs[0]).change;
      EffectIsRequested(types, props, log, reqs[0]);
      ImplementsAfter(props, log, change);
      LogIsRequestedFrom(types, After(props, change), log + Made(change), reqs[1..]);
    }
  }

  /** The log of the ordered map is what the requests ask for, each given those before it. */
  lemma LogIsRequested(types: Types, reqs: seq<Request>)
    ensures Log(types, [], reqs) == RequestLog(types, [], reqs)
    ensures Implements(Final(types, [], reqs), RequestLog(types, [], reqs))
  {
    LogIsRequestedFrom(types, [], [], reqs);
    RequestsRefineOrderedMap(types, reqs);
  }

  ghost predicate BornInOrder(names: seq<string>, log: seq<Change>) {
    forall i, j :: 0 <= i < j < |names| ==> Born(log, names[i]) < Born(log, names[j])
  }

  lemma {:induction false} BornInOrderUnique(p: seq<string>, q: seq<string>, log: seq<Change>)
    requires BornInOrder(p, log) && BornInOrder(q, log)
    requires forall n :: n in p <==> n in q
    ensures p == q
  {
    assert p != [] ==> p[0] in p;
    assert q != [] ==> q[0] in q;
    if p != [] && q != [] {
      var x, y := p[|p| - 1], q[|q| - 1];
      assert x in q && y in p;
      assert x == y;
      var front, back := p[..|p| - 1], q[..|q| - 1];
      forall n ensures n in front <==> n in back {
        assert n in p <==> n in front || n == x;
        assert n in q <==> n in back || n == y;
      }
      BornInOrderUnique(front, back, log);
      assert p == front + [x] && q == back + [y];
    }
  }

  /** The log leaves no freedom: only one property list implements it. */
  lemma LogDecides(p: Properties, q: Properties, log: seq<Change>)
    requires Implements(p, log) && Implements(q, log)
    ensures p == q
  {
    forall n ensures n in Names(p) <==> n in Names(q) {
      assert n in Names(p) <==> Has(p, n);
      assert n in Names(q) <==> Has(q, n);
    }
    BornInOrderUnique(Names(p), Names(q), log);
    forall i | 0 <= i < |p| ensures p[i] == q[i] {
      assert Names(p)[i] == Names(q)[i];
    }
  }

  // ---------- listing ----------

  predicate Free(s: string) {
    '>' !in s
  }

  /** Names and types as they can be told apart in a listing. */
  ghost predicate Printable(props: Properties) {
    forall i :: 0 <= i < |props| ==> Free(props[i].name) && Free(props[i].value.typeName)
  }

  datatype Listed = Listed(name: string, typeName: string)

  datatype ParsedEntry = ParsedEntry(listed: Listed, rest: string)

  function ReadEntry(s: string): (r: Option<ParsedEntry>)
    ensures r.Some? ==> |r.value.rest| < |s|
  {
    match ReadField(s, "{Property <", ">")
    case None => None
    case Some(name) =>
      match ReadField(name.rest, ", type: <", ">} ")
      case None => None
      case Some(typeName) => Some(ParsedEntry(Listed(name.text, typeName.text), typeName.rest))
  }

  /** What a client reads from a listing, entry by entry. */
  function ReadListing(s: string): seq<Listed>
    decreases |s|
  {
    match ReadEntry(s)
    case None => []
    case Some(entry) => [entry.listed] + ReadListing(entry.rest)
  }

  function ListedOf(props: Properties): (entries: seq<Listed>)
    ensures |entries| == |props|
    ensures forall i :: 0 <= i < |props| ==> entries[i] == Listed(props[i].name, props[i].value.typeName)
  {
    seq(|props|, i requires 0 <= i < |props| => Listed(props[i].name, props[i].value.typeName))
  }

  lemma EntryReadsBack(p: Property, rest: string)
    requires Free(p.name) && Free(p.value.typeName)
    ensures ReadEntry(EntryText(p) + rest) == Some(ParsedEntry(Listed(p.name, p.value.typeName), rest))
  {
    var more := ", type: <" + p.value.typeName + ">} " + rest;
    assert ">, type: <" == ">" + ", type: <";
    assert EntryText(p) + rest == "{Property <" + p.name + ">" + more;
    FieldReadsBack("{Property <", p.name, ">", more);
    FieldReadsBack(", type: <", p.value.typeName, ">} ", rest);
  }

  lemma OneEntry(s: string, listed: Listed, rest: string)
    requires ReadEntry(s) == Some(ParsedEntry(listed, rest))
    ensures ReadListing(s) == [listed] + ReadListing(rest)
  {
  }

  lemma NoEntry()
    ensures ReadListing("") == []
  {
  }

  lemma FirstText(props: Properties)
    requires props != []
    ensures Concat(EntryTexts(props)) == EntryText(props[0]) + Concat(EntryTexts(props[1..]))
    ensures ListedOf(props) == [Listed(props[0].name, props[0].value.typeName)] + ListedOf(props[1..])
  {
    assert EntryTexts(props)[1..] == EntryTexts(props[1..]);
  }

  lemma {:induction false} EntriesReadBack(props: Properties, text: string)
    requires Printable(props) && text == Concat(EntryTexts(props))
    ensures ReadListing(text) == ListedOf(props)
    decreases |props|
  {
    if props == [] {
      NoEntry();
    } else {
      var more := Concat(EntryTexts(props[1..]));
      FirstText(props);
      EntryReadsBack(props[0], more);
      OneEntry(text, Listed(props[0].name, props[0].value.typeName), more);
      EntriesReadBack(props[1..], more);
    }
  }

  /** A listing reads back as the names and types of all properties, in order. */
  lemma ListingReadsBack(props: Properties)
    requires Printable(props)
    ensures ReadListing(ListText(props)) == ListedOf(props)
  {
    AppendedAll(EntryTexts(props));
    EntriesReadBack(props, ListText(props));
  }

  /** So two lists with the same listing have the same names and types in the same order. */
  lemma ListingDecides(p: Properties, q: Properties)
    requires Printable(p) && Printable(q) && ListText(p) == ListText(q)
    ensures |p| == |q|
    ensures forall i :: 0 <= i < |p| ==> p[i].name == q[i].name && p[i].value.typeName == q[i].value.typeName
  {
    ListingReadsBack(p);
    ListingReadsBack(q);
    assert forall i :: 0 <= i < |p| ==> ListedOf(p)[i] == ListedOf(q)[i];
  }

  lemma Regrouped(open: string, a: string, mid: string, t: string, close: string, b: string)
    ensures open + (a + mid + t + close + open + b) + mid + t + close
      == (open + a + mid + t + close) + (open + b + mid + t + close)
  {
  }

  /** With the mark in a name two different lists can look alike: a name that spells out the end of an entry. */
  lemma ListingCanDeceive(a: string, b: string, v: Variant)
    ensures var name := a + ">, type: <" + v.typeName + ">} " + "{Property <" + b;
      ListText([Property(name, v)]) == ListText([Property(a, v), Property(b, v)])
  {
    var name := a + ">, type: <" + v.typeName + ">} " + "{Property <" + b;
    var one, p, q := Property(name, v), Property(a, v), Property(b, v);
    Regrouped("{Property <", a, ">, type: <", v.typeName, ">} ", b);
    assert EntryText(one) == EntryText(p) + EntryText(q);
    AppendedSnoc([], EntryText(one));
    AppendedSnoc([], EntryText(p));
    AppendedSnoc([EntryText(p)], EntryText(q));
    assert EntryTexts([one]) == [] + [EntryText(one)];
    assert EntryTexts([p, q]) == [EntryText(p)] + [EntryText(q)];
    assert [] + [EntryText(p)] == [EntryText(p)];
  }
}
