/** What a browser gets out of a page: the elements it shows, read by their marks alone. */
module PageReader {
  import opened Bytes
  import opened Decimal
  import opened Reading
  import opened Properties
  import opened Requests
  import opened PingPong
  import opened PingPongInvariants
  import opened PingPongTheorems

  datatype Parsed = Parsed(element: Element, rest: string)

  function ReadLink(s: string): Option<Parsed> {
    match ReadField(s, "<a href=\"", "\">")
    case None => None
    case Some(url) =>
      match ReadField(url.rest, "", "</a>")
      case None => None
      case Some(text) => Some(Parsed(HyperLink(url.text, text.text), text.rest))
  }

  function ReadText(s: string): Option<Parsed> {
    match ReadField(s, "<p>", "</p>")
    case None => None
    case Some(text) => Some(Parsed(Text(text.text), text.rest))
  }

  /** The level is read from the opening and from the closing tag, which have to agree. */
  function ReadHeader(s: string): Option<Parsed> {
    match ReadField(s, "<h", ">")
    case None => None
    case Some(open) =>
      match ReadField(open.rest, "", "</h")
      case None => None
      case Some(text) =>
        match ReadField(text.rest, "", ">")
        case None => None
        case Some(close) =>
          var level := ParseInt(open.text);
          if level.Some? && level == ParseInt(close.text)
          then Some(Parsed(Header(level.value, text.text), close.rest))
          else None
  }

  function ReadElement(s: string): (r: Option<Parsed>)
    ensures r.Some? ==> |r.value.rest| < |s|
  {
    if |s| < 2 then None
    else
      match s[1]
      case 'a' => ReadLink(s)
      case 'p' => ReadText(s)
      case 'h' => ReadHeader(s)
      case _ => None
  }

  /** The elements at the front of the text, and what follows them. */
  function ReadElements(s: string): (seq<Element>, string)
    decreases |s|
  {
    match ReadElement(s)
    case None => ([], s)
    case Some(parsed) =>
      var (more, rest) := ReadElements(parsed.rest);
      ([parsed.element] + more, rest)
  }

  const OPENING := "<!DOCTYPE html>\n<html>\n<body>\n"
  const CLOSING := "</body>\n</html>\n\0"

  /** The elements between the opening and the closing of a page; None if it is not made that way. */
  function ReadPage(page: string): Option<seq<Element>> {
    if OPENING <= page then
      var (elements, rest) := ReadElements(page[|OPENING|..]);
      if rest == CLOSING then Some(elements) else None
    else None
  }

  /** Page types with texts that do not contain the marks around them. */
  predicate Readable(e: Element) {
    match e
    case HyperLink(url, text) => '"' !in CStr(url) && '<' !in CStr(text)
    case Text(text) => '<' !in CStr(text)
    case Header(_, text) => '<' !in CStr(text)
    case Saved(_) => false
  }

  /** The element as a reader can know it: its texts up to their first zero byte. */
  function Shown(e: Element): Element {
    match e
    case HyperLink(url, text) => HyperLink(CStr(url), CStr(text))
    case Text(text) => Text(CStr(text))
    case Header(level, text) => Header(level, CStr(text))
    case Saved(_) => e
  }

  function ShownAll(vs: seq<Variant>): (es: seq<Element>)
    ensures |es| == |vs|
    ensures forall i :: 0 <= i < |vs| ==> es[i] == Shown(vs[i].element)
  {
    seq(|vs|, i requires 0 <= i < |vs| => Shown(vs[i].element))
  }

  lemma LinkReadsBack(url: string, text: string, rest: string)
    requires '"' !in url && '<' !in text
    ensures ReadElement("<a href=\"" + url + "\">" + text + "</a>" + rest) == Some(Parsed(HyperLink(url, text), rest))
  {
    var s := "<a href=\"" + url + "\">" + text + "</a>" + rest;
    var more := "" + text + "</a>" + rest;
    FieldReadsBack("<a href=\"", url, "\">", more);
    assert s == "<a href=\"" + url + "\">" + more;
    FieldReadsBack("", text, "</a>", rest);
    assert s[1] == 'a';
  }

  lemma TextReadsBack(text: string, rest: string)
    requires '<' !in text
    ensures ReadElement("<p>" + text + "</p>" + rest) == Some(Parsed(Text(text), rest))
  {
    FieldReadsBack("<p>", text, "</p>", rest);
    assert ("<p>" + text + "</p>" + rest)[1] == 'p';
  }

  lemma HeaderOpens(s: string)
    ensures ReadHeader(s).Some? ==> |s| >= 2 && s[1] == 'h'
  {
    var mark := "<h";
    assert mark <= s ==> s[1] == mark[1];
  }

  lemma HeaderFields(level: int, text: string, rest: string)
    requires '<' !in text
    ensures ReadHeader("<h" + DecInt(level) + ">" + text + "</h" + DecInt(level) + ">" + rest)
      == Some(Parsed(Header(level, text), rest))
  {
    var number := DecInt(level);
    var s := "<h" + number + ">" + text + "</h" + number + ">" + rest;
    var last := "" + number + ">" + rest;
    var middle := "" + text + "</h" + last;
    assert s == "<h" + number + ">" + middle;
    DecIntChars(level, '>');
    FieldReadsBack("<h", number, ">", middle);
    FieldReadsBack("", text, "</h", last);
    FieldReadsBack("", number, ">", rest);
    ParseOfInt(level);
  }

  lemma HeaderReadsBack(level: int, text: string, rest: string)
    requires '<' !in text
    ensures ReadElement("<h" + DecInt(level) + ">" + text + "</h" + DecInt(level) + ">" + rest)
      == Some(Parsed(Header(level, text), rest))
  {
    HeaderFields(level, text, rest);
    HeaderOpens("<h" + DecInt(level) + ">" + text + "</h" + DecInt(level) + ">" + rest);
  }

  /** The saved bytes of an element give its fields back, each from its own place, and what follows them. */
  lemma ElementReadsBack(v: Variant, rest: string)
    requires Readable(v.element)
    ensures ReadElement(Save(v) + rest) == Some(Parsed(Shown(v.element), rest))
  {
    match v.element
    case HyperLink(url, text) => LinkReadsBack(CStr(url), CStr(text), rest);
    case Text(text) => TextReadsBack(CStr(text), rest);
    case Header(level, text) => HeaderReadsBack(level, CStr(text), rest);
  }

  lemma {:induction false} SaveAllFirst(vs: seq<Variant>)
    requires vs != []
    ensures SaveAll(vs) == Save(vs[0]) + SaveAll(vs[1..])
  {
    var front, last := vs[..|vs| - 1], Save(vs[|vs| - 1]);
    if |vs| == 1 {
      assert front == [] && vs[1..] == [];
      assert SaveAll(vs) == "" + last;
      assert last + "" == last;
    } else {
      SaveAllFirst(front);
      assert front[1..] == vs[1..][..|vs| - 2];
      Assoc(Save(vs[0]), SaveAll(front[1..]), last);
    }
  }

  lemma OneElement(s: string, e: Element, rest: string)
    requires ReadElement(s) == Some(Parsed(e, rest))
    ensures ReadElements(s) == ([e] + ReadElements(rest).0, ReadElements(rest).1)
  {
  }

  lemma NoElement(s: string)
    requires ReadElement(s).None?
    ensures ReadElements(s) == ([], s)
  {
  }

  lemma FirstShown(vs: seq<Variant>)
    requires vs != []
    ensures ShownAll(vs) == [Shown(vs[0].element)] + ShownAll(vs[1..])
  {
  }

  lemma {:induction false} ElementsReadBack(vs: seq<Variant>, rest: string, text: string)
    requires forall i :: 0 <= i < |vs| ==> Readable(vs[i].element)
    requires ReadElement(rest).None? && text == SaveAll(vs) + rest
    ensures ReadElements(text) == (ShownAll(vs), rest)
    decreases |vs|
  {
    if vs == [] {
      NoElement(rest);
      assert text == rest;
    } else {
      var more := SaveAll(vs[1..]) + rest;
      SaveAllFirst(vs);
      Assoc(Save(vs[0]), SaveAll(vs[1..]), rest);
      ElementReadsBack(vs[0], more);
      OneElement(text, Shown(vs[0].element), more);
      ElementsReadBack(vs[1..], rest, more);
      FirstShown(vs);
    }
  }

  predicate ReadableAll(ps: Properties) {
    forall i :: 0 <= i < |ps| ==> Readable(ps[i].value.element)
  }

  lemma MarksOfPage()
    ensures HEAD == OPENING && TAIL == CLOSING && ReadElement(CLOSING).None?
  {
    assert CLOSING[1] == '/';
  }

  lemma ReadFramed(head: string, body: string, tail: string)
    requires head == OPENING && tail == CLOSING && ReadElements(body + tail).1 == tail
    ensures ReadPage(head + body + tail) == Some(ReadElements(body + tail).0)
  {
    var page := head + body + tail;
    assert page == head + (body + tail);
    assert page[|head|..] == body + tail;
    assert head <= page;
  }

  /** The page of a property list shows exactly its values, in order. */
  lemma PageReadsBack(ps: Properties)
    requires ReadableAll(ps)
    ensures ReadPage(Page(ps)) == Some(ShownAll(Values(ps)))
  {
    MarksOfPage();
    ElementsReadBack(Values(ps), TAIL, SaveAll(Values(ps)) + TAIL);
    ReadFramed(HEAD, SaveAll(Values(ps)), TAIL);
  }

  /** A browser that gets this page shows these values. */
  ghost predicate Shows(page: string, ps: Properties) {
    ReadPage(page) == Some(ShownAll(Values(ps)))
  }

  /** At quiescence a browser shows exactly the current properties. */
  lemma QuiescentPageShows(cfg: Config, s: State)
    requires Reachable(cfg, s) && s.sets > 0 && Quiet(s) && s.renderer.Free?
    requires ReadableAll(s.props)
    ensures Shows(s.pages.Get(s.state.Current()).bytes, s.props)
  {
    QuiescentPageIsCurrent(cfg, s);
    PageReadsBack(s.props);
  }

  /** The attribute of an element as a browser can know it. */
  function AttributeShown(e: Element, attribute: string): Option<string> {
    match AttributeOf(e, attribute)
    case None => None
    case Some(value) => Some(CStr(value))
  }

  /** Each attribute is shown in its own place: the address and the text of a link, and the text of the others. */
  lemma AttributesShow(e: Element)
    ensures e.HyperLink? ==> Shown(e).url == AttributeShown(e, "url").value
    ensures e.HyperLink? ==> Shown(e).text == AttributeShown(e, "text").value
    ensures e.Text? || e.Header? ==> Shown(e).text == AttributeShown(e, "text").value
  {
  }

  /** An attribute that setPropertyAttr sets with effect is what a browser finds in its place on the next page. */
  lemma SetAttributeShows(props: Properties, params: Params, level: int, i: nat)
    requires Requests.Complete(params) && Accepted(props, SetAttr(params, level)) && !Has(props, OBJECT_NAME)
    requires CallTakesEffect(props, params)
    requires ReadableAll(After(props, SetAttrEffect(props, params, level).change))
    requires i == Position(props, ExtractParamStr(params, "property").value)
    ensures var after := After(props, SetAttrEffect(props, params, level).change);
      && i < |after| && ReadPage(Page(after)).Some? && |ReadPage(Page(after)).value| == |after|
      && var e := ReadPage(Page(after)).value[i];
        && (ExtractParamStr(params, "attribute").value == "url" ==>
             e.HyperLink? && e.url == CStr(ByteArray(params["data"])))
        && (ExtractParamStr(params, "attribute").value == "text" ==>
             !e.Saved? && e.text == CStr(ByteArray(params["data"])))
  {
    var after := After(props, SetAttrEffect(props, params, level).change);
    SetAttrIsAt(props, params, level, i);
    PageReadsBack(after);
    AttributesShow(after[i].value.element);
  }

  /** The property stays at its place, with its new value. */
  lemma SetAttrIsAt(props: Properties, params: Params, level: int, i: nat)
    requires Requests.Complete(params) && Accepted(props, SetAttr(params, level)) && !Has(props, OBJECT_NAME)
    requires i == Position(props, ExtractParamStr(params, "property").value)
    ensures var after := After(props, SetAttrEffect(props, params, level).change);
      && i < |after| && ValueAfter(props, params, level) == Some(after[i].value)
  {
    var name := ExtractParamStr(params, "property").value;
    var after := After(props, SetAttrEffect(props, params, level).change);
    SetAttrReplaces(props, params, level);
    LookupAtPosition(props, name);
    LookupAtPosition(after, name);
    SamePosition(props, after, name);
  }

  lemma SamePosition(ps: Properties, qs: Properties, name: string)
    requires Names(ps) == Names(qs)
    ensures Position(ps, name) == Position(qs, name) && (Has(ps, name) <==> Has(qs, name))
  {
    assert |ps| == |qs|;
    assert forall i :: 0 <= i < |ps| ==> Names(ps)[i] == ps[i].name && Names(qs)[i] == qs[i].name;
    if Has(ps, name) {
      PositionIs(qs, name, Position(ps, name));
    }
  }
}
