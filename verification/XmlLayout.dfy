/** A document as it may be written: the tree with all the white space, quotes, references and ignored
    constructs that leave no trace in it. */
module XmlLayout {
  import opened Basics
  import opened XmlText
  import opened XmlTree

  /** An attribute with the white space before it and on both sides of '=', its quote, and its value as it
      is written. */
  datatype LaidAttribute = LaidAttribute(before: string, attribute: Attribute, left: string, right: string,
                                         quote: char, raw: string)

  /** `end` stands before the '>' or '/>' of an opening tag, `close` before the '>' of a closing tag; `raw`
      is data as it is written. Gap is white space between other constructs, Ignored one that the parser
      skips. */
  datatype Laid =
    | Tags(name: string, attributes: seq<LaidAttribute>, end: string, children: seq<Laid>, close: string)
    | EmptyTag(name: string, attributes: seq<LaidAttribute>, end: string)
    | Text(raw: string, value: string)
    | CdataText(value: string)
    | CommentText(value: string)
    | DeclarationText(letters: string, attributes: seq<LaidAttribute>, end: string)
    | DoctypeText(blank: char, value: string)
    | PiText(name: string, gap: string, value: string)
    | Gap(space: string)
    | Ignored(value: string)

  // ---- the text ------------------------------------------------------------------------

  function LayAttribute(a: LaidAttribute): string {
    a.before + a.attribute.name + a.left + "=" + a.right + [a.quote] + a.raw + [a.quote]
  }

  function LayAttributes(attributes: seq<LaidAttribute>): string {
    if attributes == [] then "" else LayAttribute(attributes[0]) + LayAttributes(attributes[1..])
  }

  function Lay(x: Laid): string {
    match x
    case Tags(name, attributes, end, children, close) =>
      "<" + name + LayAttributes(attributes) + end + ">" + LayAll(children) + "</" + name + close + ">"
    case EmptyTag(name, attributes, end) => "<" + name + LayAttributes(attributes) + end + "/>"
    case Text(raw, _) => raw
    case CdataText(value) => "<![CDATA[" + value + "]]>"
    case CommentText(value) => "<!--" + value + "-->"
    case DeclarationText(letters, attributes, end) => "<?" + letters + LayAttributes(attributes) + end + "?>"
    case DoctypeText(blank, value) => "<!DOCTYPE" + [blank] + value + ">"
    case PiText(name, gap, value) => "<?" + name + gap + value + "?>"
    case Gap(space) => space
    case Ignored(value) => "<!" + value + ">"
  }

  function LayAll(xs: seq<Laid>): string {
    if xs == [] then "" else Lay(xs[0]) + LayAll(xs[1..])
  }

  // ---- the tree ------------------------------------------------------------------------

  function AttributesOf(attributes: seq<LaidAttribute>): seq<Attribute> {
    if attributes == [] then [] else [attributes[0].attribute] + AttributesOf(attributes[1..])
  }

  function TreeOf(x: Laid): Option<Node> {
    match x
    case Tags(name, attributes, _, children, _) =>
      Some(Element(name, FirstData(TreesOf(children)), AttributesOf(attributes), TreesOf(children)))
    case EmptyTag(name, attributes, _) => Some(Element(name, "", AttributesOf(attributes), []))
    case Text(_, value) => Some(Data(value))
    case CdataText(value) => Some(Cdata(value))
    case CommentText(value) => Some(Comment(value))
    case DeclarationText(_, attributes, _) => Some(Declaration(AttributesOf(attributes)))
    case DoctypeText(_, value) => Some(Doctype(value))
    case PiText(name, gap, value) =>
      Some(Pi(name, if gap == "" && value != "" then value[0 := '\0'] else value))
    case Gap(_) => None
    case Ignored(_) => None
  }

  function TreesOf(xs: seq<Laid>): seq<Node> {
    if xs == [] then [] else (if TreeOf(xs[0]).Some? then [TreeOf(xs[0]).value] else []) + TreesOf(xs[1..])
  }

  // ---- what may be written -------------------------------------------------------------

  predicate White(s: string) {
    forall i :: 0 <= i < |s| ==> s[i] in {' ', '\n', '\r', '\t'}
  }

  /** The text stands for the value, with its references expanded, and does not hold the stop character. */
  predicate Means(raw: string, value: string, stop: char) {
    Expand(raw, stop) == Expanded(value, "")
  }

  predicate WellLaid(a: LaidAttribute) {
    && a.attribute.name != "" && AllIn(a.attribute.name, AttributeName)
    && White(a.before) && White(a.left) && White(a.right)
    && a.quote in {'\'', '"'} && Means(a.raw, a.attribute.value, a.quote)
  }

  /** White space is needed before the first attribute only. */
  predicate LegalAttributes(attributes: seq<LaidAttribute>) {
    (attributes != [] ==> attributes[0].before != "") && forall a :: a in attributes ==> WellLaid(a)
  }

  /** Between "<!" and the next '>', something that is no comment, CDATA section or document type. */
  predicate Ignorable(value: string) {
    && Free(value, ">") && !("--" <= value) && !("[CDATA[" <= value)
    && !("DOCTYPE" <= value && |value| > 7 && White([value[7]]))
  }

  predicate Legal(x: Laid) {
    match x
    case Tags(name, attributes, end, children, close) =>
      LegalName(name) && LegalAttributes(attributes) && White(end) && LegalAll(children) && White(close)
    case EmptyTag(name, attributes, end) => LegalName(name) && LegalAttributes(attributes) && White(end)
    case Text(raw, value) => Means(raw, value, '<') && !White(raw)
    case CdataText(value) => Free(value, "]]>")
    case CommentText(value) => Free(value, "-->")
    case DeclarationText(letters, attributes, end) =>
      IsXml(letters) && LegalAttributes(attributes) && White(end) && (attributes == [] ==> end != "")
    case DoctypeText(blank, value) => White([blank]) && Closed(value)
    case PiText(name, gap, value) =>
      && name != "" && AllIn(name, NodeName) && White(gap) && Free(value, "?>")
      && (value == "" || !White([value[0]]))
      && (if gap == "" then value == "" || !In(value[0], NodeName) else !IsXml(name))
    case Gap(space) => White(space)
    case Ignored(value) => Ignorable(value)
  }

  /** White space next to data would belong to the data. */
  predicate LegalAll(xs: seq<Laid>) {
    xs == [] ||
    (Legal(xs[0]) && LegalAll(xs[1..]) &&
     (|xs| > 1 && xs[0].Text? ==> !xs[1].Text? && !xs[1].Gap?) && (|xs| > 1 && xs[0].Gap? ==> !xs[1].Text?))
  }

  predicate LegalDocument(xs: seq<Laid>) {
    LegalAll(xs) && forall x :: x in xs ==> !x.Text?
  }

  // ---- open elements -------------------------------------------------------------------

  /** What stands before an opening tag among its siblings, and the tag. */
  datatype Frame = Frame(before: seq<Laid>, name: string, attributes: seq<LaidAttribute>, end: string)

  function LayFrames(frames: seq<Frame>): string {
    if frames == [] then ""
    else
      var f := frames[0];
      LayAll(f.before) + ("<" + f.name + LayAttributes(f.attributes) + f.end + ">") + LayFrames(frames[1..])
  }

  predicate LegalFrames(frames: seq<Frame>) {
    forall i :: 0 <= i < |frames| ==>
      var f := frames[i];
      LegalAll(f.before) && LegalName(f.name) && LegalAttributes(f.attributes) && White(f.end)
  }
}
