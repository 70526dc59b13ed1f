/** The document tree and its printed form without indentation (rapidxml_print.hpp). */
module XmlTree {
  import opened XmlText

  datatype Attribute = Attribute(name: string, value: string)

  datatype Node =
    | Element(name: string, value: string, attributes: seq<Attribute>, children: seq<Node>)
    | Data(value: string)
    | Cdata(value: string)
    | Comment(value: string)
    | Declaration(attributes: seq<Attribute>)
    | Doctype(value: string)
    | Pi(name: string, value: string)

  // ---- printing ----------------------------------------------------------------------

  /** The quote that needs the fewest references; the other one is then left as it is. */
  function PrintAttribute(a: Attribute): string {
    if '"' in a.value then " " + a.name + "='" + Escape(a.value, '"') + "'"
    else " " + a.name + "=\"" + Escape(a.value, '\'') + "\""
  }

  function PrintAttributes(attributes: seq<Attribute>): string {
    if attributes == [] then "" else PrintAttribute(attributes[0]) + PrintAttributes(attributes[1..])
  }

  function Print(n: Node): string {
    match n
    case Element(name, value, attributes, children) =>
      "<" + name + PrintAttributes(attributes) +
      (if value == "" && children == [] then "/>"
       else ">" + (if children == [] then Escape(value, '\0') else PrintAll(children)) + "</" + name + ">")
    case Data(value) => Escape(value, '\0')
    case Cdata(value) => "<![CDATA[" + value + "]]>"
    case Comment(value) => "<!--" + value + "-->"
    case Declaration(attributes) => "<?xml" + PrintAttributes(attributes) + "?>"
    case Doctype(value) => "<!DOCTYPE " + value + ">"
    case Pi(name, value) => "<?" + name + " " + value + "?>"
  }

  function PrintAll(nodes: seq<Node>): string {
    if nodes == [] then "" else Print(nodes[0]) + PrintAll(nodes[1..])
  }

  // ---- characters --------------------------------------------------------------------

  datatype CharClass = Space | NodeName | AttributeName

  predicate In(c: char, class_: CharClass) {
    match class_
    case Space => c in {' ', '\n', '\r', '\t'}
    case NodeName => c !in {' ', '\n', '\r', '\t', '/', '>', '?', '\0'}
    case AttributeName => c !in {' ', '\n', '\r', '\t', '/', '<', '>', '=', '?', '!', '\0'}
  }

  /** The classes by code points: white space is tab, line feed, carriage return and blank; names end at
      white space, at the terminator and at the marks that may follow them. */
  lemma ClassExact(c: char)
    ensures In(c, Space) <==> c as int in {9, 10, 13, 32}
    ensures In(c, NodeName) <==> c as int !in {0, 9, 10, 13, 32, 47, 62, 63}
    ensures In(c, AttributeName) <==> c as int !in {0, 9, 10, 13, 32, 33, 47, 60, 61, 62, 63}
  {
  }

  // ---- canonical trees ---------------------------------------------------------------

  predicate AllIn(s: string, class_: CharClass) {
    forall i :: 0 <= i < |s| ==> In(s[i], class_)
  }

  /** No terminator, and no occurrence of the mark that ends the construct, even one that begins
      inside the text and ends in the mark itself. */
  predicate Free(s: string, mark: string) {
    Plain(s) && forall i :: 0 <= i < |s| ==> !(mark <= (s + mark)[i..])
  }

  /** The name of an element: it must not look like a markup declaration. */
  predicate LegalName(name: string) {
    name != "" && name[0] != '!' && AllIn(name, NodeName)
  }

  /** A processing instruction with this target is the XML declaration. */
  predicate IsXml(name: string) {
    |name| == 3 && name[0] in {'x', 'X'} && name[1] in {'m', 'M'} && name[2] in {'l', 'L'}
  }

  /** The number of brackets that are open at the end of a document type. */
  function Depth(s: string): nat {
    if s == "" then 0
    else
      var d, c := Depth(s[..|s| - 1]), s[|s| - 1];
      if c == '[' then d + 1 else if c == ']' && d > 0 then d - 1 else d
  }

  /** A document type that ends with its last character: every '>' stands in brackets, which are closed. */
  predicate Closed(value: string) {
    Plain(value) && Depth(value) == 0 && forall i :: 0 <= i < |value| && value[i] == '>' ==> Depth(value[..i]) > 0
  }

  predicate LegalAttribute(a: Attribute) {
    a.name != "" && AllIn(a.name, AttributeName) && Plain(a.value)
  }

  predicate HasData(nodes: seq<Node>) {
    exists n :: n in nodes && n.Data?
  }

  /** The value of an element is that of its first data child; a value that begins with '\0' counts as
      none as long as another one follows. */
  function FirstData(nodes: seq<Node>): string {
    if nodes == [] then ""
    else if nodes[0].Data? && (At(nodes[0].value, 0) != '\0' || !HasData(nodes[1..])) then nodes[0].value
    else FirstData(nodes[1..])
  }

  predicate Canonical(n: Node) {
    match n
    case Element(name, value, attributes, children) =>
      && LegalName(name) && (forall a :: a in attributes ==> LegalAttribute(a))
      && value == FirstData(children) && CanonicalAll(children)
    case Data(value) => Plain(value) && !AllIn(value, Space)
    case Cdata(value) => Free(value, "]]>")
    case Comment(value) => Free(value, "-->")
    case Declaration(attributes) => attributes != [] && forall a :: a in attributes ==> LegalAttribute(a)
    case Doctype(value) => Closed(value)
    case Pi(name, value) =>
      && name != "" && AllIn(name, NodeName) && !IsXml(name) && Free(value, "?>")
      && (value == "" || !In(value[0], Space))
  }

  predicate CanonicalAll(nodes: seq<Node>) {
    nodes == [] ||
    (Canonical(nodes[0]) && CanonicalAll(nodes[1..]) &&
     (nodes[0].Data? && |nodes| > 1 ==> !nodes[1].Data?))
  }

  predicate CanonicalDocument(nodes: seq<Node>) {
    CanonicalAll(nodes) && forall n :: n in nodes ==> !n.Data?
  }
}
