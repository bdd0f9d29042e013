/**
 * The HTML produced for a list of publication records (orcid-publications.php,
 * lines 109-133).  The markup is specified by a small element tree and its
 * serialization; the renderer builds the same string by appending, as the
 * source does, and is proved to produce the serialization of that tree.
 */
module Markup {
  import opened Works

  /**
   * WordPress's `esc_html` and `esc_url`.  Their internals are not part of
   * this model: every property below holds for any choice of the two.
   */
  datatype Escapers = Escapers(html: string -> string, url: string -> string)

  datatype Attr = Attr(name: string, value: string)

  /** An HTML node: literal text, or an element with attributes and children. */
  datatype Node = Text(text: string) | Element(tag: string, attrs: seq<Attr>, children: seq<Node>)

  /** ` name="value"` for each attribute, in order. */
  function AttrsMarkup(attrs: seq<Attr>): string {
    if attrs == [] then ""
    else " " + attrs[0].name + "=\"" + attrs[0].value + "\"" + AttrsMarkup(attrs[1..])
  }

  function OpenTag(tag: string, attrs: seq<Attr>): string {
    "<" + tag + AttrsMarkup(attrs) + ">"
  }

  function CloseTag(tag: string): string {
    "</" + tag + ">"
  }

  function Serialize(n: Node): string
    decreases n
  {
    match n
    case Text(t) => t
    case Element(tag, attrs, children) => OpenTag(tag, attrs) + SerializeAll(children) + CloseTag(tag)
  }

  function SerializeAll(ns: seq<Node>): string
    decreases ns
  {
    if ns == [] then "" else Serialize(ns[0]) + SerializeAll(ns[1..])
  }

  /** Serializing a list is serializing its parts one after the other. */
  lemma {:induction false} SerializeAllAppend(a: seq<Node>, b: seq<Node>)
    ensures SerializeAll(a + b) == SerializeAll(a) + SerializeAll(b)
  {
    if a == [] {
      assert a + b == b;
    } else {
      assert (a + b)[1..] == a[1..] + b;
      SerializeAllAppend(a[1..], b);
    }
  }

  // ---------------------------------------------------------------------
  // The markup of one record and of the whole list
  // ---------------------------------------------------------------------

  /** `<h3>` holding the escaped title, inside a link to the escaped url when the url is not empty. */
  function Heading(e: Escapers, p: Publication): Node {
    var title := Text(e.html(p.title));
    if PhpEmpty(p.url) then Element("h3", [], [title])
    else Element("h3", [], [Element("a", [Attr("href", e.url(p.url)), Attr("target", "_blank")], [title])])
  }

  /** The year span followed by a space, present only for a non-empty year. */
  function YearNodes(e: Escapers, p: Publication): seq<Node> {
    if PhpEmpty(p.year) then []
    else [Element("span", [Attr("class", "year")], [Text("(" + e.html(p.year) + ")")]), Text(" ")]
  }

  /** The type span, present only for a non-empty type. */
  function TypeNodes(e: Escapers, p: Publication): seq<Node> {
    if PhpEmpty(p.workType) then []
    else [Element("span", [Attr("class", "type")], [Text(e.html(p.workType))])]
  }

  /** The `<p>` metadata line, always present: year first, then type. */
  function Metadata(e: Escapers, p: Publication): Node {
    Element("p", [], YearNodes(e, p) + TypeNodes(e, p))
  }

  function PublicationTree(e: Escapers, p: Publication): Node {
    Element("div", [Attr("class", "publication")], [Heading(e, p), Metadata(e, p)])
  }

  function PublicationTrees(e: Escapers, pubs: seq<Publication>): (ns: seq<Node>)
    ensures |ns| == |pubs|
  {
    seq(|pubs|, i requires 0 <= i < |pubs| => PublicationTree(e, pubs[i]))
  }

  /** The wrapper `<div class="orcid-publications">` holding one publication div per record, in order. */
  function DocumentTree(e: Escapers, pubs: seq<Publication>): Node {
    Element("div", [Attr("class", "orcid-publications")], PublicationTrees(e, pubs))
  }

  const WrapperOpen := "<div class=\"orcid-publications\">"

  /**
   * The output loop of lines 110-131: the wrapper is opened, each record's
   * markup is appended, and the wrapper is closed.
   */
  method RenderPublications(e: Escapers, publications: seq<Publication>) returns (output: string)
    ensures output == Serialize(DocumentTree(e, publications))
  {
    output := WrapperOpen;
    for i := 0 to |publications|
      invariant output == WrapperOpen + SerializeAll(PublicationTrees(e, publications[..i]))
    {
      output := AppendPublication(e, output, publications[i]);
      AppendRecord(e, publications, i);
      Assoc(WrapperOpen, SerializeAll(PublicationTrees(e, publications[..i])), Serialize(PublicationTree(e, publications[i])));
    }
    assert publications[..|publications|] == publications;
    WrapperMarkup(PublicationTrees(e, publications));
    output := output + "</div>";
  }

  /**
   * The body of that loop (lines 113-128): the pieces of one record's markup
   * appended one `.=` at a time, the link, year and type only when non-empty.
   */
  method AppendPublication(e: Escapers, before: string, pub: Publication) returns (output: string)
    ensures output == before + Serialize(PublicationTree(e, pub))
  {
    output := before + "<div class=\"publication\">";
    ghost var started := output;
    HeadingMarkup(e, pub);
    if !PhpEmpty(pub.url) {
      output := output + ("<h3><a href=\"" + e.url(pub.url) + "\" target=\"_blank\">" +
                          e.html(pub.title) + "</a></h3>");
      assert output == started + Serialize(Heading(e, pub));
    } else {
      output := output + ("<h3>" + e.html(pub.title) + "</h3>");
      assert output == started + Serialize(Heading(e, pub));
    }
    ghost var afterHeading := output;
    output := output + "<p>";
    ghost var yearText, typeText := "", "";
    if !PhpEmpty(pub.year) {
      yearText := "<span class=\"year\">(" + e.html(pub.year) + ")</span> ";
      output := output + ("<span class=\"year\">(" + e.html(pub.year) + ")</span> ");
      Assoc(afterHeading, "<p>", yearText);
    }
    assert output == afterHeading + ("<p>" + yearText);
    if !PhpEmpty(pub.workType) {
      typeText := "<span class=\"type\">" + e.html(pub.workType) + "</span>";
      output := output + ("<span class=\"type\">" + e.html(pub.workType) + "</span>");
      Assoc(afterHeading, "<p>" + yearText, typeText);
    }
    assert output == afterHeading + ("<p>" + yearText + typeText);
    output := output + "</p>";
    Assoc(afterHeading, "<p>" + yearText + typeText, "</p>");
    MetadataMarkup(e, pub);
    assert Serialize(Metadata(e, pub)) == "<p>" + yearText + typeText + "</p>";
    assert output == afterHeading + Serialize(Metadata(e, pub));
    output := output + "</div>";
    PublicationMarkup(e, pub, before, afterHeading, output);
  }

  /** An empty list renders as the bare wrapper. */
  lemma EmptyListMarkup(e: Escapers)
    ensures Serialize(DocumentTree(e, [])) == "<div class=\"orcid-publications\"></div>"
  {
    WrapperMarkup([]);
    assert WrapperOpen + "</div>" == "<div class=\"orcid-publications\"></div>";
  }

  /**
   * Two records look the same to the renderer when the escapers map their
   * fields to the same text and the same fields are empty.
   */
  predicate SameEscaped(e: Escapers, p: Publication, q: Publication) {
    && e.html(p.title) == e.html(q.title)
    && e.html(p.year) == e.html(q.year)
    && e.html(p.workType) == e.html(q.workType)
    && e.url(p.url) == e.url(q.url)
    && PhpEmpty(p.url) == PhpEmpty(q.url)
    && PhpEmpty(p.year) == PhpEmpty(q.year)
    && PhpEmpty(p.workType) == PhpEmpty(q.workType)
  }

  /**
   * Field text reaches the markup only through the escapers: lists whose
   * records look the same to the renderer produce the same output.
   */
  lemma OnlyEscapedFieldsReachMarkup(e: Escapers, ps: seq<Publication>, qs: seq<Publication>)
    requires |ps| == |qs|
    requires forall i | 0 <= i < |ps| :: SameEscaped(e, ps[i], qs[i])
    ensures Serialize(DocumentTree(e, ps)) == Serialize(DocumentTree(e, qs))
  {
    forall i | 0 <= i < |ps|
      ensures PublicationTree(e, ps[i]) == PublicationTree(e, qs[i])
    {
      assert Heading(e, ps[i]) == Heading(e, qs[i]);
      assert Metadata(e, ps[i]) == Metadata(e, qs[i]);
    }
    assert PublicationTrees(e, ps) == PublicationTrees(e, qs);
  }

  /** Rendering one more record appends that record's markup. */
  lemma AppendRecord(e: Escapers, pubs: seq<Publication>, i: nat)
    requires i < |pubs|
    ensures SerializeAll(PublicationTrees(e, pubs[..i + 1])) ==
            SerializeAll(PublicationTrees(e, pubs[..i])) + Serialize(PublicationTree(e, pubs[i]))
  {
    assert PublicationTrees(e, pubs[..i + 1]) == PublicationTrees(e, pubs[..i]) + [PublicationTree(e, pubs[i])];
    SerializeAllAppend(PublicationTrees(e, pubs[..i]), [PublicationTree(e, pubs[i])]);
    SerializeOne(PublicationTree(e, pubs[i]));
  }

  /** The wrapper div serializes to its opening tag, its children and its closing tag. */
  lemma WrapperMarkup(ns: seq<Node>)
    ensures Serialize(Element("div", [Attr("class", "orcid-publications")], ns)) ==
            WrapperOpen + SerializeAll(ns) + "</div>"
  {
    ClassOpen("div", "orcid-publications");
    WrapperOpenText();
    assert CloseTag("div") == "</div>";
  }

  lemma SerializeOne(n: Node)
    ensures SerializeAll([n]) == Serialize(n)
  {
    assert [n][1..] == [];
  }

  lemma SerializeTwo(m: Node, n: Node)
    ensures SerializeAll([m, n]) == Serialize(m) + Serialize(n)
  {
    assert [m, n][1..] == [n];
    SerializeOne(n);
  }

  lemma AttrsOne(a: Attr)
    ensures AttrsMarkup([a]) == " " + a.name + "=\"" + a.value + "\""
  {
    assert [a][1..] == [];
  }

  lemma AttrsTwo(a: Attr, b: Attr)
    ensures AttrsMarkup([a, b]) == " " + a.name + "=\"" + a.value + "\"" + AttrsMarkup([b])
  {
    assert [a, b][1..] == [b];
  }

  /** A publication div serializes to its opening tag, its two children and its closing tag. */
  lemma PublicationDivMarkup(h: Node, m: Node)
    ensures Serialize(Element("div", [Attr("class", "publication")], [h, m])) ==
            "<div class=\"publication\">" + Serialize(h) + Serialize(m) + "</div>"
  {
    SerializeTwo(h, m);
    ClassOpen("div", "publication");
    PublicationOpenText();
    assert CloseTag("div") == "</div>";
  }

  /** The text appended for one record is the serialization of its tree. */
  lemma PublicationMarkup(e: Escapers, p: Publication, before: string, afterHeading: string, after: string)
    requires afterHeading == before + "<div class=\"publication\">" + Serialize(Heading(e, p))
    requires after == afterHeading + Serialize(Metadata(e, p)) + "</div>"
    ensures after == before + Serialize(PublicationTree(e, p))
  {
    var h, m := Serialize(Heading(e, p)), Serialize(Metadata(e, p));
    PublicationDivMarkup(Heading(e, p), Metadata(e, p));
    Assoc(before, "<div class=\"publication\">", h);
    Assoc(before, "<div class=\"publication\">" + h, m);
    Assoc(before, "<div class=\"publication\">" + h + m, "</div>");
  }

  lemma ClassOpen(tag: string, name: string)
    ensures OpenTag(tag, [Attr("class", name)]) == "<" + tag + " class=\"" + name + "\">"
  {
    AttrsOne(Attr("class", name));
  }

  lemma LinkOpen(url: string)
    ensures OpenTag("a", [Attr("href", url), Attr("target", "_blank")]) == "<a href=\"" + url + "\" target=\"_blank\">"
  {
    AttrsTwo(Attr("href", url), Attr("target", "_blank"));
    AttrsOne(Attr("target", "_blank"));
  }

  lemma LinkMarkup(url: string, title: string)
    ensures Serialize(Element("a", [Attr("href", url), Attr("target", "_blank")], [Text(title)])) ==
            "<a href=\"" + url + "\" target=\"_blank\">" + title + "</a>"
  {
    LinkOpen(url);
    SerializeOne(Text(title));
    assert CloseTag("a") == "</a>";
  }

  lemma H3Markup(n: Node)
    ensures Serialize(Element("h3", [], [n])) == "<h3>" + Serialize(n) + "</h3>"
  {
    SerializeOne(n);
    PlainOpen("h3");
    assert CloseTag("h3") == "</h3>";
  }

  lemma HeadingMarkup(e: Escapers, p: Publication)
    ensures Serialize(Heading(e, p)) ==
      if PhpEmpty(p.url) then "<h3>" + e.html(p.title) + "</h3>"
      else "<h3><a href=\"" + e.url(p.url) + "\" target=\"_blank\">" + e.html(p.title) + "</a></h3>"
  {
    var title := e.html(p.title);
    if PhpEmpty(p.url) {
      H3Markup(Text(title));
    } else {
      var url := e.url(p.url);
      var link := Element("a", [Attr("href", url), Attr("target", "_blank")], [Text(title)]);
      LinkMarkup(url, title);
      H3Markup(link);
      LinkedHeadingText(url, title);
    }
  }

  lemma SpanMarkup(name: string, text: string)
    ensures Serialize(Element("span", [Attr("class", name)], [Text(text)])) ==
            "<span class=\"" + name + "\">" + text + "</span>"
  {
    SerializeOne(Text(text));
    ClassOpen("span", name);
    assert CloseTag("span") == "</span>";
  }

  lemma YearMarkup(e: Escapers, p: Publication)
    ensures SerializeAll(YearNodes(e, p)) ==
            if PhpEmpty(p.year) then "" else "<span class=\"year\">(" + e.html(p.year) + ")</span> "
  {
    if !PhpEmpty(p.year) {
      var y := "(" + e.html(p.year) + ")";
      SpanMarkup("year", y);
      SerializeTwo(YearNodes(e, p)[0], Text(" "));
    }
  }

  lemma TypeMarkup(e: Escapers, p: Publication)
    ensures SerializeAll(TypeNodes(e, p)) ==
            if PhpEmpty(p.workType) then "" else "<span class=\"type\">" + e.html(p.workType) + "</span>"
  {
    if !PhpEmpty(p.workType) {
      SpanMarkup("type", e.html(p.workType));
      SerializeOne(TypeNodes(e, p)[0]);
    }
  }

  lemma ParagraphMarkup(ns: seq<Node>)
    ensures Serialize(Element("p", [], ns)) == "<p>" + SerializeAll(ns) + "</p>"
  {
    PlainOpen("p");
    assert CloseTag("p") == "</p>";
  }

  lemma MetadataMarkup(e: Escapers, p: Publication)
    ensures Serialize(Metadata(e, p)) ==
      "<p>" +
      (if PhpEmpty(p.year) then "" else "<span class=\"year\">(" + e.html(p.year) + ")</span> ") +
      (if PhpEmpty(p.workType) then "" else "<span class=\"type\">" + e.html(p.workType) + "</span>") +
      "</p>"
  {
    var yearText := if PhpEmpty(p.year) then "" else "<span class=\"year\">(" + e.html(p.year) + ")</span> ";
    var typeText := if PhpEmpty(p.workType) then "" else "<span class=\"type\">" + e.html(p.workType) + "</span>";
    SerializeAllAppend(YearNodes(e, p), TypeNodes(e, p));
    YearMarkup(e, p);
    TypeMarkup(e, p);
    assert SerializeAll(YearNodes(e, p) + TypeNodes(e, p)) == yearText + typeText;
    ParagraphMarkup(YearNodes(e, p) + TypeNodes(e, p));
    Assoc("<p>", yearText, typeText);
  }

  // ---------------------------------------------------------------------
  // Solver aids: associativity of concatenation and equalities between
  // string literals, stated once so that the proofs above stay small.
  // They say nothing about the markup itself.
  // ---------------------------------------------------------------------

  lemma Assoc(a: string, b: string, c: string)
    ensures a + b + c == a + (b + c)
  {
  }

  lemma PublicationOpenText()
    ensures "<" + "div" + " class=\"" + "publication" + "\">" == "<div class=\"publication\">"
  {
  }

  lemma WrapperOpenText()
    ensures "<" + "div" + " class=\"" + "orcid-publications" + "\">" == WrapperOpen
  {
  }

  lemma PlainOpen(tag: string)
    ensures OpenTag(tag, []) == "<" + tag + ">"
  {
  }

  lemma LinkedHeadingText(url: string, title: string)
    ensures "<h3>" + ("<a href=\"" + url + "\" target=\"_blank\">" + title + "</a>") + "</h3>" ==
            "<h3><a href=\"" + url + "\" target=\"_blank\">" + title + "</a></h3>"
  {
    assert "<h3>" + "<a href=\"" == "<h3><a href=\"";
    assert "</a>" + "</h3>" == "</a></h3>";
  }
}
