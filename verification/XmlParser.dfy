/** The grammar the parser accepts under parse_full, on the text that remains to be read. The text
    ends at the first '\0'. */
module XmlParser {
  import opened Basics
  import opened XmlText
  import opened XmlTree

  datatype Parsed<T> = Ok(value: T, rest: string) | Error

  /** Number of leading characters in the class. */
  function Run(t: string, class_: CharClass): (n: nat)
    ensures n <= |t| && AllIn(t[..n], class_) && !In(At(t, n), class_)
  {
    if In(At(t, 0), class_) then
      var n := Run(t[1..], class_);
      assert forall i :: 0 <= i < n ==> t[..1 + n][1 + i] == t[1..][..n][i];
      1 + n
    else 0
  }

  function Skip(t: string, class_: CharClass): (rest: string)
    ensures |rest| <= |t|
  {
    t[Run(t, class_)..]
  }

  /** Position of the mark, unless the text ends first. */
  function Find(t: string, mark: string): (r: Option<nat>)
    ensures r.Some? ==> r.value + |mark| <= |t|
  {
    if mark <= t then Some(0)
    else if At(t, 0) == '\0' then None
    else match Find(t[1..], mark)
      case None => None
      case Some(n) => Some(1 + n)
  }

  function Upto(t: string, mark: string): (r: Parsed<string>)
    ensures r.Ok? ==> |r.rest| <= |t|
  {
    match Find(t, mark)
    case None => Error
    case Some(n) => Ok(t[..n], t[n + |mark|..])
  }

  /** The name and '=' of an attribute; what remains begins with the quote. */
  function AttributeHead(t: string): (r: Parsed<string>)
    requires In(At(t, 0), AttributeName)
    ensures r.Ok? ==> |r.rest| < |t| && At(r.rest, 0) in {'\'', '"'}
  {
    var n := Run(t, AttributeName);
    var t1 := Skip(t[n..], Space);
    if At(t1, 0) != '=' then Error
    else
      var t2 := Skip(t1[1..], Space);
      if At(t2, 0) != '\'' && At(t2, 0) != '"' then Error else Ok(t[..n], t2)
  }

  /** An attribute value with its quotes, and the white space behind it. */
  function AttributeValue(t: string): (r: Parsed<string>)
    requires At(t, 0) in {'\'', '"'}
    ensures r.Ok? ==> |r.rest| < |t|
  {
    ExpandRest(t[1..], t[0]);
    match Expand(t[1..], t[0])
    case Failed => Error
    case Expanded(value, rest) =>
      if At(rest, 0) != t[0] then Error else Ok(value, Skip(rest[1..], Space))
  }

  function ParseAttribute(t: string): (r: Parsed<Attribute>)
    requires In(At(t, 0), AttributeName)
    ensures r.Ok? ==> |r.rest| < |t|
  {
    match AttributeHead(t)
    case Error => Error
    case Ok(name, t1) =>
      match AttributeValue(t1)
      case Error => Error
      case Ok(value, rest) => Ok(Attribute(name, value), rest)
  }

  function ParseAttributes(t: string): (r: Parsed<seq<Attribute>>)
    ensures r.Ok? ==> |r.rest| <= |t|
    decreases |t|
  {
    if !In(At(t, 0), AttributeName) then Ok([], t)
    else
      match ParseAttribute(t)
      case Error => Error
      case Ok(a, rest) =>
        match ParseAttributes(rest)
        case Error => Error
        case Ok(more, rest') => Ok([a] + more, rest')
  }

  function ParseDeclaration(t: string): (r: Parsed<Option<Node>>)
    ensures r.Ok? ==> |r.rest| <= |t| && r.value.Some? && !r.value.value.Data?
  {
    match ParseAttributes(Skip(t, Space))
    case Error => Error
    case Ok(attributes, rest) =>
      if "?>" <= rest then Ok(Some(Declaration(attributes)), rest[2..]) else Error
  }

  /** The terminator that the parser puts behind the target of a processing instruction replaces
      the first character of the value when no white space stands between them. */
  function ParsePi(t: string): (r: Parsed<Option<Node>>)
    ensures r.Ok? ==> |r.rest| <= |t| && r.value.Some? && !r.value.value.Data?
  {
    var n := Run(t, NodeName);
    if n == 0 then Error
    else
      match Upto(Skip(t[n..], Space), "?>")
      case Error => Error
      case Ok(value, rest) =>
        Ok(Some(Pi(t[..n], if In(At(t, n), Space) || value == "" then value else value[0 := '\0'])), rest)
  }

  function ParseQuestion(s: string): (r: Parsed<Option<Node>>)
    ensures r.Ok? ==> |r.rest| <= |s|
  {
    if At(s, 0) in {'x', 'X'} && At(s, 1) in {'m', 'M'} && At(s, 2) in {'l', 'L'} && In(At(s, 3), Space) then
      ParseDeclaration(s[4..])
    else ParsePi(s)
  }

  /** Length up to the '>' that is outside of brackets; a '>' does not close while depth > 0. */
  function DoctypeLength(t: string, depth: nat): (r: Option<nat>)
    ensures r.Some? ==> r.value < |t|
  {
    var c := At(t, 0);
    if depth == 0 && c == '>' then Some(0)
    else if c == '\0' then None
    else
      var inner := if c == '[' then depth + 1 else if c == ']' && depth > 0 then depth - 1 else depth;
      match DoctypeLength(t[1..], inner)
      case None => None
      case Some(n) => Some(1 + n)
  }

  function ParseDoctype(t: string): (r: Parsed<Option<Node>>)
    ensures r.Ok? ==> |r.rest| <= |t| && r.value.Some? && r.value.value.Doctype?
  {
    match DoctypeLength(t, 0)
    case None => Error
    case Some(n) => Ok(Some(Doctype(t[..n])), t[n + 1..])
  }

  /** A document type, or a construct that is skipped. */
  function ParseOther(t: string): (r: Parsed<Option<Node>>)
    requires At(t, 0) == '!'
    ensures r.Ok? ==> |r.rest| < |t| && (r.value.Some? ==> !r.value.value.Data?)
  {
    if "!DOCTYPE" <= t && In(At(t, 8), Space) then ParseDoctype(t[9..])
    else
      match Upto(t[1..], ">")
      case Error => Error
      case Ok(_, rest) => Ok(None, rest)
  }

  function ParseComment(t: string): (r: Parsed<Option<Node>>)
    ensures r.Ok? ==> |r.rest| <= |t| && r.value.Some? && r.value.value.Comment?
  {
    match Upto(t, "-->")
    case Error => Error
    case Ok(value, rest) => Ok(Some(Comment(value)), rest)
  }

  function ParseCdata(t: string): (r: Parsed<Option<Node>>)
    ensures r.Ok? ==> |r.rest| <= |t| && r.value.Some? && r.value.value.Cdata?
  {
    match Upto(t, "]]>")
    case Error => Error
    case Ok(value, rest) => Ok(Some(Cdata(value)), rest)
  }

  /** Constructs that begin with '!'; those that are not recognised are skipped. */
  function ParseMarked(t: string): (r: Parsed<Option<Node>>)
    requires At(t, 0) == '!'
    ensures r.Ok? ==> |r.rest| < |t|
  {
    if "!--" <= t then ParseComment(t[3..])
    else if "![CDATA[" <= t then ParseCdata(t[8..])
    else ParseOther(t)
  }

  /** A node after its '<'. */
  function ParseNode(t: string): (r: Parsed<Option<Node>>)
    ensures r.Ok? ==> |r.rest| < |t|
    decreases |t|, 1
  {
    if At(t, 0) == '?' then ParseQuestion(t[1..])
    else if At(t, 0) == '!' then ParseMarked(t)
    else ParseElement(t)
  }

  /** The value an element has after its children were added: a data child becomes the value while
      there is none, or one that begins with '\0'. */
  function ValueOf(value: string, children: seq<Node>): string
    decreases |children|
  {
    if children == [] then value
    else ValueOf(if children[0].Data? && At(value, 0) == '\0' then children[0].value else value, children[1..])
  }

  function ParseElement(t: string): (r: Parsed<Option<Node>>)
    ensures r.Ok? ==> |r.rest| < |t|
    decreases |t|, 0
  {
    var n := Run(t, NodeName);
    if n == 0 then Error
    else
      match ParseAttributes(Skip(t[n..], Space))
      case Error => Error
      case Ok(attributes, rest) =>
        match ElementEnd(rest, t[..n])
        case Error => Error
        case Ok(children, rest') => Ok(Some(Element(t[..n], ValueOf("", children), attributes, children)), rest')
  }

  /** The end of the opening tag and, unless it closes the element, the contents. */
  function ElementEnd(t: string, name: string): (r: Parsed<seq<Node>>)
    ensures r.Ok? ==> |r.rest| <= |t|
    decreases |t|, 4
  {
    if At(t, 0) == '>' then ParseContents(t[1..], name)
    else if At(t, 0) == '/' && At(t, 1) == '>' then Ok([], t[2..])
    else Error
  }

  function Before(child: Option<Node>, r: Parsed<seq<Node>>): Parsed<seq<Node>> {
    match r
    case Error => Error
    case Ok(nodes, rest) => Ok((if child.Some? then [child.value] else []) + nodes, rest)
  }

  /** What stands between the tags of the element `name`, with the closing tag. White space before
      a data node belongs to it. */
  function ParseContents(t: string, name: string): (r: Parsed<seq<Node>>)
    ensures r.Ok? ==> |r.rest| <= |t|
    decreases |t|, 3
  {
    var s := Skip(t, Space);
    if At(s, 0) == '<' then ParseTag(s, name)
    else if At(s, 0) == '\0' then Error
    else
      ExpandRest(t, '<');
      match Expand(t, '<')
      case Failed => Error
      case Expanded(value, rest) =>
        if At(rest, 0) != '<' then Error
        else Before(Some(Data(value)), ParseTag(rest, name))
  }

  /** A closing tag after its "</"; the name must be that of the element. */
  function CloseTag(t: string, name: string): (r: Parsed<seq<Node>>)
    ensures r.Ok? ==> |r.rest| <= |t|
  {
    var n := Run(t, NodeName);
    var rest := Skip(t[n..], Space);
    if t[..n] != name || At(rest, 0) != '>' then Error else Ok([], rest[1..])
  }

  /** A closing tag, or a child and what follows it. */
  function ParseTag(t: string, name: string): (r: Parsed<seq<Node>>)
    requires At(t, 0) == '<'
    ensures r.Ok? ==> |r.rest| <= |t|
    decreases |t|, 2
  {
    if At(t, 1) == '/' then CloseTag(t[2..], name)
    else
      match ParseNode(t[1..])
      case Error => Error
      case Ok(child, rest) => Before(child, ParseContents(rest, name))
  }

  function ParseNodes(t: string): (r: Parsed<seq<Node>>)
    decreases |t|
  {
    var s := Skip(t, Space);
    if At(s, 0) == '\0' then Ok([], s)
    else if At(s, 0) != '<' then Error
    else
      match ParseNode(s[1..])
      case Error => Error
      case Ok(child, rest) => Before(child, ParseNodes(rest))
  }

  /** A whole document, after the byte order mark if there is one. */
  function ParseDocument(t: string): Parsed<seq<Node>> {
    ParseNodes(if BOM <= t then t[3..] else t)
  }

  const BOM: string := [0xEF as char, 0xBB as char, 0xBF as char]
}
