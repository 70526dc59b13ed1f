/** Parsing reads back what was written: the tree of every document, however it is laid out. */
module XmlRoundTrip {
  import opened Basics
  import opened XmlText
  import opened XmlReferences
  import opened XmlTree
  import opened XmlParser
  import opened XmlLayout

  // ---- scanning ----------------------------------------------------------------------

  lemma {:induction false} RunOf(name: string, t: string, class_: CharClass)
    requires AllIn(name, class_) && !In(At(t, 0), class_)
    ensures Run(name + t, class_) == |name|
    ensures (name + t)[..|name|] == name && (name + t)[|name|..] == t
  {
    if name == "" {
      assert name + t == t;
    } else {
      assert (name + t)[1..] == name[1..] + t;
      RunOf(name[1..], t, class_);
    }
  }

  lemma SkipNothing(t: string, class_: CharClass)
    requires !In(At(t, 0), class_)
    ensures Skip(t, class_) == t && Run(t, class_) == 0
  {
  }

  lemma {:induction false} FindOf(s: string, mark: string, rest: string)
    requires Free(s, mark)
    ensures Find(s + mark + rest, mark) == Some(|s|)
    ensures Upto(s + mark + rest, mark) == Ok(s, rest)
  {
    var t := s + mark + rest;
    assert t[..|s|] == s && t[|s| + |mark|..] == rest;
    if s == "" {
      assert t == mark + rest;
    } else {
      assert (s + mark)[0..] == s + mark == t[..|s + mark|];
      assert mark <= t ==> mark <= s + mark;
      assert t[1..] == s[1..] + mark + rest;
      assert Free(s[1..], mark) by {
        forall i | 0 <= i < |s[1..]| ensures !(mark <= (s[1..] + mark)[i..]) {
          assert (s + mark)[i + 1..] == (s[1..] + mark)[i..];
        }
      }
      FindOf(s[1..], mark, rest);
    }
  }

  lemma {:induction false} SkipWhite(space: string, t: string)
    requires White(space)
    ensures Skip(space + t, Space) == Skip(t, Space)
  {
    if space == "" {
      assert space + t == t;
    } else {
      assert (space + t)[1..] == space[1..] + t;
      SkipWhite(space[1..], t);
    }
  }

  lemma SkipUpTo(space: string, t: string)
    requires White(space) && !In(At(t, 0), Space)
    ensures Skip(space + t, Space) == t
  {
    hide Skip, In;
    SkipWhite(space, t);
    SkipNothing(t, Space);
  }

  lemma PrefixParts(a: string, b: string)
    ensures a <= a + b && (a + b)[|a|..] == b
  {
  }

  // ---- attributes --------------------------------------------------------------------

  lemma QuoteStops(quote: char, rest: string)
    ensures Stops([quote] + rest, quote)
  {
  }

  lemma AttributeHeadBack(name: string, left: string, right: string, t: string)
    requires name != "" && AllIn(name, AttributeName) && White(left) && White(right) && At(t, 0) in {'\'', '"'}
    ensures var u := name + (left + ("=" + (right + t)));
            In(At(u, 0), AttributeName) && AttributeHead(u) == Ok(name, t)
  {
    hide Skip, Run;
    var t1 := "=" + (right + t);
    RunOf(name, left + t1, AttributeName);
    SkipUpTo(left, t1);
    assert t1[1..] == right + t;
    SkipUpTo(right, t);
  }

  lemma AttributeValueBack(value: string, quote: char, body: string, rest: string)
    requires Expand(body + ([quote] + rest), quote) == Expanded(value, [quote] + rest) && quote in {'\'', '"'}
    ensures AttributeValue([quote] + (body + ([quote] + rest))) == Ok(value, Skip(rest, Space))
  {
    hide Expand, Skip;
    var t := [quote] + rest;
    assert ([quote] + (body + t))[1..] == body + t && t[1..] == rest;
  }

  lemma LaidAttributeParts(a: LaidAttribute, rest: string)
    ensures LayAttribute(a) + rest ==
              a.before + (a.attribute.name + (a.left + ("=" + (a.right + ([a.quote] + (a.raw + ([a.quote] + rest)))))))
  {
    var q := [a.quote];
    var t1 := q + (a.raw + (q + rest));
    assert LayAttribute(a) + rest == a.before + a.attribute.name + a.left + "=" + a.right + t1;
    assert a.before + a.attribute.name + a.left + "=" + a.right + t1
           == a.before + (a.attribute.name + (a.left + ("=" + (a.right + t1))));
  }

  lemma AttributeBack(a: LaidAttribute, rest: string)
    requires WellLaid(a)
    ensures var t := Skip(LayAttribute(a) + rest, Space);
            In(At(t, 0), AttributeName) && ParseAttribute(t) == Ok(a.attribute, Skip(rest, Space))
  {
    hide Expand, Stops, Skip, AttributeHead, AttributeValue, LayAttribute;
    var t1 := [a.quote] + (a.raw + ([a.quote] + rest));
    var t := a.attribute.name + (a.left + ("=" + (a.right + t1)));
    LaidAttributeParts(a, rest);
    AttributeHeadBack(a.attribute.name, a.left, a.right, t1);
    SkipUpTo(a.before, t);
    QuoteStops(a.quote, rest);
    ExpandContinues(a.raw, a.attribute.value, a.quote, [a.quote] + rest);
    AttributeValueBack(a.attribute.value, a.quote, a.raw, rest);
  }

  lemma {:induction false} AttributesBack(attributes: seq<LaidAttribute>, end: string, rest: string)
    requires (forall a :: a in attributes ==> WellLaid(a)) && White(end)
    requires !In(At(rest, 0), AttributeName) && !In(At(rest, 0), Space)
    ensures ParseAttributes(Skip(LayAttributes(attributes) + (end + rest), Space)) ==
            Ok(AttributesOf(attributes), rest)
  {
    hide ParseAttribute, LayAttribute, Skip, WellLaid;
    if attributes == [] {
      assert LayAttributes(attributes) + (end + rest) == end + rest;
      SkipUpTo(end, rest);
    } else {
      var a, more := attributes[0], attributes[1..];
      var t := LayAttributes(more) + (end + rest);
      assert LayAttributes(attributes) + (end + rest) == LayAttribute(a) + t;
      AttributeBack(a, t);
      AttributesBack(more, end, rest);
    }
  }

  /** What stands behind a name is not part of it. */
  lemma AttributesHead(attributes: seq<LaidAttribute>, end: string, rest: string)
    requires LegalAttributes(attributes) && White(end) && At(rest, 0) in {'>', '/', '?'}
    ensures !In(At(LayAttributes(attributes) + (end + rest), 0), NodeName)
    ensures attributes != [] || end != "" ==>
              var t := LayAttributes(attributes) + (end + rest); t != "" && In(t[0], Space)
  {
    hide Escape;
    if attributes != [] {
      assert WellLaid(attributes[0]);
      assert LayAttribute(attributes[0])[0] == attributes[0].before[0];
    }
  }

  // ---- nodes -------------------------------------------------------------------------

  /** Text that begins with data: white space is skipped to find a character that is neither '<'
      nor the end. */
  lemma {:induction false} DataBegins(raw: string, t: string)
    requires (forall i :: 0 <= i < |raw| ==> raw[i] != '<' && raw[i] != '\0') && !White(raw)
    ensures At(Skip(raw + t, Space), 0) !in {'<', '\0'}
  {
    var s := raw + t;
    if In(raw[0], Space) {
      assert raw == [raw[0]] + raw[1..];
      DataBegins(raw[1..], t);
      assert s[1..] == raw[1..] + t;
      assert Skip(s, Space) == Skip(s[1..], Space);
    } else {
      SkipNothing(s, Space);
    }
  }

  lemma CommentBack(value: string, rest: string)
    requires Free(value, "-->")
    ensures ParseNode(Lay(CommentText(value))[1..] + rest) == Ok(Some(Comment(value)), rest)
  {
    hide Upto, ParseElement, Free, DoctypeLength;
    FindOf(value, "-->", rest);
    var t := value + "-->" + rest;
    PrefixParts("!--", t);
    assert Lay(CommentText(value))[1..] + rest == "!--" + t;
  }

  lemma CdataDispatch(s: string, t: string)
    requires s == "![CDATA[" + t
    ensures var (r, u) := (ParseNode(s), Upto(t, "]]>"));
            r.Ok? == u.Ok? && (u.Ok? ==> r.value == Some(Cdata(u.value)) && r.rest == u.rest)
  {
    hide Upto, ParseElement, DoctypeLength;
    PrefixParts("![CDATA[", t);
    assert s[1] == '[' && "!--"[1] == '-';
  }

  lemma CdataBack(value: string, rest: string)
    requires Free(value, "]]>")
    ensures ParseNode(Lay(CdataText(value))[1..] + rest) == Ok(Some(Cdata(value)), rest)
  {
    hide ParseNode, Upto, Find, Free;
    var t := value + "]]>" + rest;
    FindOf(value, "]]>", rest);
    CdataDispatch("![CDATA[" + t, t);
    assert Lay(CdataText(value))[1..] + rest == "![CDATA[" + t;
  }

  lemma {:induction false} DoctypeLengthOf(value: string, rest: string, i: nat)
    requires Closed(value) && i <= |value|
    ensures DoctypeLength((value + (">" + rest))[i..], Depth(value[..i])) == Some(|value| - i)
    decreases |value| - i
  {
    var t := value + (">" + rest);
    assert At(t[i..], 0) == t[i];
    if i == |value| {
      assert value[..i] == value && t[i] == '>';
    } else {
      assert t[i] == value[i];
      assert value[..i + 1][..i] == value[..i];
      assert t[i..][1..] == t[i + 1..];
      DoctypeLengthOf(value, rest, i + 1);
    }
  }

  lemma DoctypeDispatch(blank: char, t: string)
    requires White([blank])
    ensures ParseNode("!DOCTYPE" + ([blank] + t)) == ParseDoctype(t)
  {
    hide Upto, ParseElement, ParseDoctype;
    var s := "!DOCTYPE" + ([blank] + t);
    assert blank == [blank][0];
    PrefixParts("!DOCTYPE", [blank] + t);
    assert s[9..] == t && At(s, 8) == blank;
    assert s[1] == 'D' && "!--"[1] == '-' && "![CDATA["[1] == '[';
  }

  lemma DoctypeRead(value: string, rest: string)
    requires Closed(value)
    ensures ParseDoctype(value + (">" + rest)) == Ok(Some(Doctype(value)), rest)
  {
    hide Closed, DoctypeLength;
    var t := value + (">" + rest);
    DoctypeLengthOf(value, rest, 0);
    assert value[..0] == "" && t[0..] == t;
    assert t[..|value|] == value && t[|value| + 1..] == rest;
  }

  lemma DoctypeBack(blank: char, value: string, rest: string)
    requires White([blank]) && Closed(value)
    ensures ParseNode(Lay(DoctypeText(blank, value))[1..] + rest) == Ok(Some(Doctype(value)), rest)
  {
    hide ParseNode, ParseDoctype, Closed;
    var t := value + (">" + rest);
    DoctypeDispatch(blank, t);
    DoctypeRead(value, rest);
    assert Lay(DoctypeText(blank, value))[1..] + rest == "!DOCTYPE" + ([blank] + t);
  }

  /** A word with no '>' in it begins a text exactly if it begins the part before the first '>'. */
  lemma WordBefore(word: string, value: string, rest: string)
    requires forall i :: 0 <= i < |word| ==> word[i] != '>'
    ensures word <= value + (">" + rest) <==> word <= value
  {
    var t := value + (">" + rest);
    assert t[|value|] == '>';
    if |word| <= |value| {
      assert t[..|word|] == value[..|word|];
    }
  }

  lemma MarkBefore(word: string, t: string)
    ensures "!" + word <= "!" + t <==> word <= t
  {
    if "!" + word <= "!" + t {
      assert word == ("!" + word)[1..] && t == ("!" + t)[1..];
      assert word == t[..|word|];
    }
  }

  lemma NotMarked(word: string, value: string, rest: string)
    requires !(word <= value) && forall i :: 0 <= i < |word| ==> word[i] != '>'
    ensures !("!" + word <= "!" + (value + (">" + rest)))
  {
    WordBefore(word, value, rest);
    MarkBefore(word, value + (">" + rest));
  }

  lemma NoDoctype(value: string, rest: string)
    requires !("DOCTYPE" <= value && |value| > 7 && White([value[7]]))
    ensures var s := "!" + (value + (">" + rest)); !("!DOCTYPE" <= s && In(At(s, 8), Space))
  {
    var t := value + (">" + rest);
    assert "!DOCTYPE" == "!" + "DOCTYPE";
    if "DOCTYPE" <= value {
      assert ("!" + t)[8] == t[7] == if |value| > 7 then value[7] else '>';
      assert |value| > 7 ==> [value[7]][0] == value[7];
    } else {
      NotMarked("DOCTYPE", value, rest);
    }
  }

  lemma IgnoredDispatch(s: string, t: string)
    requires s == "!" + t && !("!--" <= s) && !("![CDATA[" <= s) && !("!DOCTYPE" <= s && In(At(s, 8), Space))
    ensures var (r, u) := (ParseNode(s), Upto(t, ">"));
            r.Ok? == u.Ok? && (u.Ok? ==> r.value == None && r.rest == u.rest)
  {
    hide Upto, ParseElement, ParseDoctype, ParseComment, ParseCdata;
    assert s[1..] == t;
  }

  lemma IgnoredBack(value: string, rest: string)
    requires Ignorable(value)
    ensures ParseNode(Lay(Ignored(value))[1..] + rest) == Ok(None, rest)
  {
    hide Upto, ParseNode, Free;
    var t := value + (">" + rest);
    FindOf(value, ">", rest);
    assert t == value + ">" + rest;
    assert "!--" == "!" + "--" && "![CDATA[" == "!" + "[CDATA[";
    NotMarked("--", value, rest);
    NotMarked("[CDATA[", value, rest);
    NoDoctype(value, rest);
    IgnoredDispatch("!" + t, t);
    assert Lay(Ignored(value))[1..] + rest == "!" + t;
  }

  lemma PiIsNoDeclaration(name: string, gap: string, t: string)
    requires name != "" && AllIn(name, NodeName) && White(gap)
    requires if gap == "" then !In(At(t, 0), NodeName) && !In(At(t, 0), Space) else !IsXml(name)
    ensures ParseQuestion(name + (gap + t)) == ParsePi(name + (gap + t))
  {
    hide ParseDeclaration, ParsePi;
    var s := name + (gap + t);
    assert forall i :: 0 <= i < |name| ==> s[i] == name[i];
    assert At(s, |name|) == if gap == "" then At(t, 0) else gap[0];
  }

  lemma PiHead(gap: string, value: string, rest: string)
    requires White(gap) && (value == "" || !White([value[0]]))
    requires gap == "" ==> value == "" || !In(value[0], NodeName)
    ensures var t := value + "?>" + rest;
            && !In(At(gap + t, 0), NodeName) && !In(At(t, 0), Space)
            && (gap != "" <==> In(At(gap + t, 0), Space)) && (gap == "" ==> !In(At(t, 0), NodeName))
  {
    var t := value + "?>" + rest;
    if value != "" {
      assert t[0] == value[0] == [value[0]][0];
    } else {
      assert t[0] == '?';
    }
  }

  lemma PiRead(name: string, gap: string, value: string, rest: string)
    requires Legal(PiText(name, gap, value))
    ensures ParsePi(name + (gap + (value + "?>" + rest))) == Ok(TreeOf(PiText(name, gap, value)), rest)
  {
    hide Upto, Run, Skip, Free;
    var t := value + "?>" + rest;
    FindOf(value, "?>", rest);
    PiHead(gap, value, rest);
    RunOf(name, gap + t, NodeName);
    SkipUpTo(gap, t);
    assert At(name + (gap + t), |name|) == At(gap + t, 0);
  }

  lemma PiLaid(name: string, gap: string, value: string, rest: string)
    ensures Lay(PiText(name, gap, value))[1..] + rest == "?" + (name + (gap + (value + "?>" + rest)))
  {
  }

  lemma QuestionNode(s: string)
    ensures ParseNode("?" + s) == ParseQuestion(s)
  {
    hide ParseQuestion, ParseMarked, ParseElement;
    assert ("?" + s)[1..] == s;
  }

  lemma PiBack(name: string, gap: string, value: string, rest: string)
    requires Legal(PiText(name, gap, value))
    ensures ParseNode(Lay(PiText(name, gap, value))[1..] + rest) == Ok(TreeOf(PiText(name, gap, value)), rest)
  {
    hide ParseNode, ParsePi, ParseQuestion, Free, IsXml, Lay;
    var t := value + "?>" + rest;
    PiHead(gap, value, rest);
    PiRead(name, gap, value, rest);
    PiIsNoDeclaration(name, gap, t);
    PiLaid(name, gap, value, rest);
    QuestionNode(name + (gap + t));
  }

  lemma DeclarationDispatch(letters: string, blank: char, t: string)
    requires IsXml(letters) && In(blank, Space)
    ensures ParseNode("?" + (letters + ([blank] + t))) == ParseDeclaration(t)
  {
    hide ParseElement, ParseMarked, ParsePi, ParseDeclaration;
    var s := letters + ([blank] + t);
    assert s[4..] == t && At(s, 3) == blank;
    assert ("?" + s)[1..] == s;
  }

  lemma DeclarationRead(attributes: seq<LaidAttribute>, end: string, rest: string, t: string)
    requires LegalAttributes(attributes) && White(end)
    requires Skip(t, Space) == Skip(LayAttributes(attributes) + (end + ("?>" + rest)), Space)
    ensures ParseDeclaration(t) == Ok(Some(Declaration(AttributesOf(attributes))), rest)
  {
    hide ParseAttributes, Skip, LayAttributes, AttributesOf;
    AttributesBack(attributes, end, "?>" + rest);
    PrefixParts("?>", rest);
  }

  lemma DeclarationLaid(letters: string, attributes: seq<LaidAttribute>, end: string, rest: string)
    ensures Lay(DeclarationText(letters, attributes, end))[1..] + rest ==
            "?" + (letters + (LayAttributes(attributes) + (end + ("?>" + rest))))
  {
    hide LayAttributes;
  }

  lemma DeclarationBack(letters: string, attributes: seq<LaidAttribute>, end: string, rest: string)
    requires Legal(DeclarationText(letters, attributes, end))
    ensures ParseNode(Lay(DeclarationText(letters, attributes, end))[1..] + rest) ==
            Ok(Some(Declaration(AttributesOf(attributes))), rest)
  {
    hide ParseNode, ParseDeclaration, Skip, LayAttributes, Lay, IsXml, LegalAttributes, AttributesOf;
    var t := LayAttributes(attributes) + (end + ("?>" + rest));
    AttributesHead(attributes, end, "?>" + rest);
    assert t == [t[0]] + t[1..];
    SkipWhite([t[0]], t[1..]);
    DeclarationLaid(letters, attributes, end, rest);
    DeclarationDispatch(letters, t[0], t[1..]);
    DeclarationRead(attributes, end, rest, t[1..]);
  }

  lemma ElementDispatch(name: string, t: string)
    requires LegalName(name) && name <= t
    ensures ParseNode(t) == ParseElement(t)
  {
    hide ParseElement;
    assert t[0] == name[0];
  }

  /** The opening tag of an element is read; what remains decides. */
  lemma OpenBack(name: string, attributes: seq<LaidAttribute>, end: string, tail: string)
    requires LegalName(name) && LegalAttributes(attributes) && White(end) && At(tail, 0) in {'>', '/'}
    ensures var r := ParseElement(name + (LayAttributes(attributes) + (end + tail)));
            match ElementEnd(tail, name)
            case Error => r.Error?
            case Ok(children, rest) =>
              r == Ok(Some(Element(name, ValueOf("", children), AttributesOf(attributes), children)), rest)
  {
    hide Skip, ParseAttributes, ElementEnd, LayAttributes, ValueOf, Run;
    AttributesHead(attributes, end, tail);
    AttributesBack(attributes, end, tail);
    RunOf(name, LayAttributes(attributes) + (end + tail), NodeName);
  }

  /** The value an element gets is that of its first data child. */
  lemma {:induction false} ValueIsFirstData(value: string, children: seq<Node>)
    ensures ValueOf(value, children) ==
            if At(value, 0) == '\0' && HasData(children) then FirstData(children) else value
    decreases children
  {
    if children != [] {
      var n, more := children[0], children[1..];
      assert children == [n] + more;
      assert HasData(children) <==> n.Data? || HasData(more);
      ValueIsFirstData(if n.Data? && At(value, 0) == '\0' then n.value else value, more);
    }
  }

  lemma {:induction false} NoData(children: seq<Node>)
    requires !HasData(children)
    ensures FirstData(children) == ""
  {
    if children != [] {
      assert forall n :: n in children[1..] ==> n in children;
      NoData(children[1..]);
    }
  }

  lemma ElementValue(children: seq<Node>)
    ensures ValueOf("", children) == FirstData(children)
  {
    ValueIsFirstData("", children);
    if !HasData(children) {
      NoData(children);
    }
  }

  function CloseText(name: string, close: string, rest: string): string {
    "</" + (name + (close + (">" + rest)))
  }

  lemma EmptyTagText(name: string, attributes: seq<LaidAttribute>, end: string, rest: string)
    ensures Lay(EmptyTag(name, attributes, end))[1..] + rest
            == name + (LayAttributes(attributes) + (end + ("/>" + rest)))
  {
    hide LayAttributes;
  }

  lemma OpenText(name: string, attributes: string, end: string, t: string)
    ensures "<" + name + attributes + end + ">" + t == "<" + (name + (attributes + (end + (">" + t))))
  {
  }

  lemma TagsText(x: Laid, rest: string)
    requires x.Tags?
    ensures Lay(x)[1..] + rest
            == x.name + (LayAttributes(x.attributes)
                         + (x.end + (">" + (LayAll(x.children) + CloseText(x.name, x.close, rest)))))
  {
    hide LayAttributes, LayAll;
    var inside := LayAll(x.children) + "</" + x.name + x.close + ">";
    var open := "<" + x.name + LayAttributes(x.attributes) + x.end + ">";
    assert Lay(x) == open + inside;
    assert Lay(x)[1..] + rest == open[1..] + (inside + rest);
    assert inside + rest == LayAll(x.children) + CloseText(x.name, x.close, rest);
    OpenText(x.name, LayAttributes(x.attributes), x.end, inside + rest);
    assert open + (inside + rest) == open[..1] + (open[1..] + (inside + rest));
  }

  lemma EmptyTagBack(name: string, attributes: seq<LaidAttribute>, end: string, rest: string)
    requires LegalName(name) && LegalAttributes(attributes) && White(end)
    ensures ParseNode(Lay(EmptyTag(name, attributes, end))[1..] + rest) ==
            Ok(Some(Element(name, "", AttributesOf(attributes), [])), rest)
  {
    hide ParseNode, ParseElement, LayAttributes, Lay, LegalName, LegalAttributes;
    var tail := "/>" + rest;
    var t := LayAttributes(attributes) + (end + tail);
    EmptyTagText(name, attributes, end, rest);
    OpenBack(name, attributes, end, tail);
    assert tail[2..] == rest;
    assert ElementEnd(tail, name) == Ok([], rest);
    PrefixParts(name, t);
    ElementDispatch(name, name + t);
  }

  // ---- contents ----------------------------------------------------------------------

  /** Nodes that were read before the rest. */
  function After(nodes: seq<Node>, r: Parsed<seq<Node>>): Parsed<seq<Node>> {
    match r
    case Error => Error
    case Ok(more, rest) => Ok(nodes + more, rest)
  }

  /** A tag is read; the end of the text within an element is an error. */
  function TagOrEnd(t: string, name: string): Parsed<seq<Node>> {
    if At(t, 0) == '<' then ParseTag(t, name) else Error
  }

  lemma AfterNone(r: Parsed<seq<Node>>)
    ensures After([], r) == r
  {
    if r.Ok? {
      assert [] + r.value == r.value;
    }
  }

  lemma NoneBefore(r: Parsed<seq<Node>>)
    ensures Before(None, r) == r
  {
    if r.Ok? {
      assert [] + r.value == r.value;
    }
  }

  lemma AfterBefore(x: Laid, xs: seq<Laid>, r: Parsed<seq<Node>>)
    ensures Before(TreeOf(x), After(TreesOf(xs), r)) == After(TreesOf([x] + xs), r)
  {
    hide TreeOf;
    assert ([x] + xs)[1..] == xs;
    if r.Ok? {
      var one := if TreeOf(x).Some? then [TreeOf(x).value] else [];
      assert one + (TreesOf(xs) + r.value) == one + TreesOf(xs) + r.value;
    }
  }

  lemma LaidFirst(xs: seq<Laid>, t: string)
    requires xs != []
    ensures LayAll(xs) + t == Lay(xs[0]) + (LayAll(xs[1..]) + t)
  {
    hide Lay;
    assert LayAll(xs) == Lay(xs[0]) + LayAll(xs[1..]);
  }

  /** Contents that begin with a tag, or with the end. */
  lemma ContentsTag(t: string, name: string)
    requires At(t, 0) in {'<', '\0'}
    ensures ParseContents(t, name) == TagOrEnd(t, name) && At(Skip(t, Space), 0) == At(t, 0)
  {
    hide ParseTag;
    SkipNothing(t, Space);
  }

  lemma DataBack(raw: string, value: string, t: string, name: string)
    requires Legal(Text(raw, value)) && At(t, 0) in {'<', '\0'}
    ensures ParseContents(raw + t, name) == Before(Some(Data(value)), TagOrEnd(t, name))
  {
    hide ParseTag, Skip, Expand;
    RawChars(raw, '<');
    DataBegins(raw, t);
    ExpandContinues(raw, value, '<', t);
  }

  lemma GapBack(space: string, t: string, name: string)
    requires Legal(Gap(space)) && At(Skip(t, Space), 0) in {'<', '\0'}
    ensures Skip(space + t, Space) == Skip(t, Space) && ParseContents(space + t, name) == ParseContents(t, name)
  {
    hide ParseTag, Skip, Expand;
    SkipWhite(space, t);
  }

  lemma CloseRead(name: string, other: string, close: string, rest: string)
    requires AllIn(other, NodeName) && White(close)
    ensures var t := CloseText(other, close, rest);
            At(t, 0) == '<' && TagOrEnd(t, name) == if other == name then Ok([], rest) else Error
  {
    hide Run, Skip, ParseNode;
    var t1 := ">" + rest;
    var t := CloseText(other, close, rest);
    assert t[2..] == other + (close + t1) && At(t, 1) == '/';
    RunOf(other, close + t1, NodeName);
    SkipUpTo(close, t1);
    assert t1[1..] == rest;
  }

  lemma {:induction false} TagsBack(x: Laid, rest: string)
    requires x.Tags? && Legal(x)
    ensures ParseNode(Lay(x)[1..] + rest) == Ok(TreeOf(x), rest)
    decreases x, 0
  {
    hide ParseNode, ParseElement, LayAttributes, Lay, LegalAttributes, ParseContents, TagOrEnd, CloseText;
    var Tags(name, attributes, end, children, close) := x;
    var u := CloseText(name, close, rest);
    var tail := ">" + (LayAll(children) + u);
    var t := LayAttributes(attributes) + (end + tail);
    TagsText(x, rest);
    OpenBack(name, attributes, end, tail);
    assert tail[1..] == LayAll(children) + u;
    CloseRead(name, name, close, rest);
    ContentsBack(children, name, u);
    assert TreesOf(children) + [] == TreesOf(children);
    assert ElementEnd(tail, name) == Ok(TreesOf(children), rest);
    ElementValue(TreesOf(children));
    PrefixParts(name, t);
    ElementDispatch(name, name + t);
  }

  lemma LaidHead(x: Laid)
    requires Legal(x) && !x.Text? && !x.Gap?
    ensures |Lay(x)| > 1 && Lay(x)[0] == '<' && Lay(x)[1] != '/'
  {
    hide LayAttributes, LayAll;
  }

  /** Any construct but data and white space: the '<' and what the parser reads. */
  lemma {:induction false} NodeBack(x: Laid, rest: string)
    requires Legal(x) && !x.Text? && !x.Gap?
    ensures |Lay(x)| > 1 && Lay(x)[0] == '<' && Lay(x)[1] != '/'
    ensures ParseNode(Lay(x)[1..] + rest) == Ok(TreeOf(x), rest)
    decreases x, 1
  {
    hide ParseNode, Lay;
    LaidHead(x);
    match x
    case Tags(_, _, _, _, _) => TagsBack(x, rest);
    case EmptyTag(name, attributes, end) => EmptyTagBack(name, attributes, end, rest);
    case CdataText(value) => CdataBack(value, rest);
    case CommentText(value) => CommentBack(value, rest);
    case DeclarationText(letters, attributes, end) => DeclarationBack(letters, attributes, end, rest);
    case DoctypeText(blank, value) => DoctypeBack(blank, value, rest);
    case PiText(name, gap, value) => PiBack(name, gap, value, rest);
    case Ignored(value) => IgnoredBack(value, rest);
  }

  /** Contents that begin neither with data nor with white space. */
  lemma {:induction false} TagBack(xs: seq<Laid>, name: string, t: string)
    requires LegalAll(xs) && At(t, 0) in {'<', '\0'} && (xs != [] ==> !xs[0].Text? && !xs[0].Gap?)
    ensures At(LayAll(xs) + t, 0) in {'<', '\0'}
    ensures TagOrEnd(LayAll(xs) + t, name) == After(TreesOf(xs), TagOrEnd(t, name))
    decreases xs, 2
  {
    hide Lay, ParseNode, ParseContents, Legal, TreeOf;
    if xs == [] {
      assert LayAll(xs) + t == t;
      AfterNone(TagOrEnd(t, name));
    } else {
      var x, more := xs[0], xs[1..];
      var u := LayAll(more) + t;
      NodeBack(x, u);
      LaidFirst(xs, t);
      var s := LayAll(xs) + t;
      assert s[1..] == Lay(x)[1..] + u && At(s, 1) == Lay(x)[1];
      ContentsBack(more, name, t);
      AfterBefore(x, more, TagOrEnd(t, name));
      assert [x] + more == xs;
    }
  }

  /** What the contents of an element make of constructs that stand before a tag or before the end. */
  lemma {:induction false} ContentsBack(xs: seq<Laid>, name: string, t: string)
    requires LegalAll(xs) && At(t, 0) in {'<', '\0'}
    ensures ParseContents(LayAll(xs) + t, name) == After(TreesOf(xs), TagOrEnd(t, name))
    ensures xs == [] || !xs[0].Text? ==> At(Skip(LayAll(xs) + t, Space), 0) in {'<', '\0'}
    decreases xs, 3
  {
    hide ParseContents, TagOrEnd, Escape, Legal, Skip;
    if xs == [] || (!xs[0].Text? && !xs[0].Gap?) {
      TagBack(xs, name, t);
      ContentsTag(LayAll(xs) + t, name);
    } else {
      var x, more := xs[0], xs[1..];
      var u := LayAll(more) + t;
      LaidFirst(xs, t);
      AfterBefore(x, more, TagOrEnd(t, name));
      assert [x] + more == xs;
      match x
      case Text(raw, value) =>
        TagBack(more, name, t);
        DataBack(raw, value, u, name);
      case Gap(space) =>
        ContentsBack(more, name, t);
        GapBack(space, u, name);
        NoneBefore(After(TreesOf(more), TagOrEnd(t, name)));
    }
  }

  // ---- documents ---------------------------------------------------------------------

  lemma NodesStep(t: string, x: Laid, rest: string)
    requires At(t, 0) == '<' && ParseNode(t[1..]) == Ok(TreeOf(x), rest)
    ensures ParseNodes(t) == Before(TreeOf(x), ParseNodes(rest))
  {
    hide ParseNode, Skip, TreeOf;
    SkipNothing(t, Space);
  }

  lemma NodesGap(space: string, t: string)
    requires Legal(Gap(space))
    ensures ParseNodes(space + t) == ParseNodes(t)
  {
    hide ParseNode, Skip;
    SkipWhite(space, t);
  }

  lemma GapTree(x: Laid)
    requires x.Gap?
    ensures TreeOf(x) == None && Lay(x) == x.space
  {
  }

  lemma {:induction false} NodesBack(xs: seq<Laid>, t: string)
    requires LegalDocument(xs)
    ensures ParseNodes(LayAll(xs) + t) == After(TreesOf(xs), ParseNodes(t))
  {
    hide Lay, ParseNode, Legal, ParseNodes, TreeOf;
    if xs == [] {
      assert LayAll(xs) + t == t;
      AfterNone(ParseNodes(t));
    } else {
      var x, more := xs[0], xs[1..];
      var u := LayAll(more) + t;
      LaidFirst(xs, t);
      NodesBack(more, t);
      AfterBefore(x, more, ParseNodes(t));
      assert [x] + more == xs;
      if x.Gap? {
        NodesGap(x.space, u);
        GapTree(x);
        NoneBefore(After(TreesOf(more), ParseNodes(t)));
      } else {
        NodeBack(x, u);
        assert (LayAll(xs) + t)[1..] == Lay(x)[1..] + u;
        NodesStep(LayAll(xs) + t, x, u);
      }
    }
  }

  lemma NodesEnd(end: string)
    requires At(end, 0) == '\0'
    ensures ParseNodes(end) == Ok([], end)
  {
    SkipNothing(end, Space);
  }

  lemma GapHead(x: Laid)
    requires x.Gap? && Legal(x) && x.space != ""
    ensures x.space[0] in {' ', '\n', '\r', '\t'}
  {
  }

  /** Markup does not begin like a byte order mark. */
  lemma {:induction false} HeadOfMarkup(xs: seq<Laid>, t: string)
    requires LegalDocument(xs) && At(t, 0) in {'<', '\0'}
    ensures !(BOM <= LayAll(xs) + t)
  {
    hide Lay, Legal;
    if xs == [] {
      assert LayAll(xs) + t == t;
    } else {
      var u := LayAll(xs[1..]) + t;
      LaidFirst(xs, t);
      HeadOfMarkup(xs[1..], t);
      if !xs[0].Gap? {
        LaidHead(xs[0]);
        assert (Lay(xs[0]) + u)[0] == '<';
      } else {
        GapTree(xs[0]);
        if xs[0].space == "" {
          assert xs[0].space + u == u;
        } else {
          GapHead(xs[0]);
          assert (xs[0].space + u)[0] == xs[0].space[0];
        }
      }
    }
  }

  /** The round trip: a document reads as its tree, with or without a byte order mark, however much white
      space stands between the constructs, between attributes, around '=' and before '>' and '/>', and
      whatever is ignored between them. */
  lemma WrittenBack(mark: string, xs: seq<Laid>, end: string)
    requires LegalDocument(xs) && At(end, 0) == '\0' && mark in {"", [0xEF as char, 0xBB as char, 0xBF as char]}
    ensures ParseDocument(mark + LayAll(xs) + end) == Ok(TreesOf(xs), end)
  {
    hide ParseNodes, LayAll, TreesOf, LegalAll;
    HeadOfMarkup(xs, end);
    NodesBack(xs, end);
    NodesEnd(end);
    assert TreesOf(xs) + [] == TreesOf(xs);
    var t := LayAll(xs) + end;
    assert mark + LayAll(xs) + end == mark + t;
    if mark == "" {
      assert mark + t == t;
    } else {
      PrefixParts(mark, t);
    }
  }

  // ---- the printer's own layout --------------------------------------------------------

  function CompactAttribute(a: Attribute): LaidAttribute {
    if '"' in a.value then LaidAttribute(" ", a, "", "", '\'', Escape(a.value, '"'))
    else LaidAttribute(" ", a, "", "", '"', Escape(a.value, '\''))
  }

  function CompactAttributes(attributes: seq<Attribute>): seq<LaidAttribute> {
    if attributes == [] then []
    else
      var a := attributes[0];
      [CompactAttribute(a)] + CompactAttributes(attributes[1..])
  }

  /** How the printer writes a node: no white space but one blank before each attribute. */
  function Compact(n: Node): Laid {
    match n
    case Element(name, _, attributes, children) =>
      if children == [] then EmptyTag(name, CompactAttributes(attributes), "")
      else Tags(name, CompactAttributes(attributes), "", CompactAll(children), "")
    case Data(value) => Text(Escape(value, '\0'), value)
    case Cdata(value) => CdataText(value)
    case Comment(value) => CommentText(value)
    case Declaration(attributes) => DeclarationText("xml", CompactAttributes(attributes), "")
    case Doctype(value) => DoctypeText(' ', value)
    case Pi(name, value) => PiText(name, " ", value)
  }

  function CompactAll(nodes: seq<Node>): (xs: seq<Laid>)
    ensures |xs| == |nodes|
  {
    if nodes == [] then [] else [Compact(nodes[0])] + CompactAll(nodes[1..])
  }

  /** Escaped text stands for what was escaped. */
  lemma EscapeMeans(value: string, noexpand: char, stop: char)
    requires Plain(value) && noexpand in {'\0', '\'', '"'} && stop in {'<', '\'', '"'} && stop != noexpand
    ensures Means(Escape(value, noexpand), value, stop)
  {
    ExpandEscape(value, noexpand, stop, "");
    assert Escape(value, noexpand) + "" == Escape(value, noexpand);
  }

  lemma {:induction false} EscapedWhite(value: string)
    requires White(Escape(value, '\0'))
    ensures AllIn(value, Space)
  {
    if value != "" {
      var e, more := EscapeChar(value[0], '\0'), Escape(value[1..], '\0');
      assert Escape(value, '\0') == e + more;
      assert forall i :: 0 <= i < |more| ==> more[i] == (e + more)[|e| + i];
      assert e[0] == (e + more)[0];
      EscapedWhite(value[1..]);
      assert forall i :: 1 <= i < |value| ==> value[i] == value[1..][i - 1];
    }
  }

  lemma CompactAttributePrints(a: Attribute)
    requires LegalAttribute(a)
    ensures LayAttribute(CompactAttribute(a)) == PrintAttribute(a) && WellLaid(CompactAttribute(a))
  {
    hide Escape, Expand;
    EscapeMeans(a.value, '"', '\'');
    EscapeMeans(a.value, '\'', '"');
    assert " " + a.name + "" + "=" + "" == " " + a.name + "=";
    assert ("='") == "=" + ['\''] && "=\"" == "=" + ['"'];
  }

  lemma {:induction false} CompactAttributesPrint(attributes: seq<Attribute>)
    requires forall a :: a in attributes ==> LegalAttribute(a)
    ensures var c := CompactAttributes(attributes);
            LayAttributes(c) == PrintAttributes(attributes) && AttributesOf(c) == attributes && LegalAttributes(c)
    ensures CompactAttributes(attributes) == [] <==> attributes == []
  {
    hide LayAttribute, PrintAttribute, WellLaid, Escape;
    if attributes != [] {
      CompactAttributesPrint(attributes[1..]);
      CompactAttributePrints(attributes[0]);
    }
  }

  lemma CompactLeaf(n: Node)
    requires Canonical(n) && (n.Data? || n.Cdata? || n.Comment? || n.Doctype?)
    ensures Lay(Compact(n)) == Print(n) && Legal(Compact(n)) && TreeOf(Compact(n)) == Some(n)
  {
    hide Escape, Free, Closed, Expand;
    if n.Doctype? {
      assert "<!DOCTYPE" + [' '] == "<!DOCTYPE ";
    } else if n.Data? {
      EscapeMeans(n.value, '\0', '<');
      if White(Escape(n.value, '\0')) {
        EscapedWhite(n.value);
      }
    }
  }

  lemma CompactPi(n: Node)
    requires Canonical(n) && n.Pi?
    ensures Lay(Compact(n)) == Print(n) && Legal(Compact(n)) && TreeOf(Compact(n)) == Some(n)
  {
    hide Free, IsXml;
    if n.value != "" {
      assert [n.value[0]][0] == n.value[0];
    }
  }

  lemma {:induction false} CompactElement(n: Node)
    requires Canonical(n) && n.Element?
    ensures Lay(Compact(n)) == Print(n) && Legal(Compact(n)) && TreeOf(Compact(n)) == Some(n)
    decreases n, 0
  {
    hide Escape, LayAttributes, PrintAttributes, CompactAttributes, AttributesOf, LegalAttributes, LayAll, PrintAll,
         TreesOf, CompactAll, LegalAll, LegalName;
    var a := PrintAttributes(n.attributes);
    CompactAttributesPrint(n.attributes);
    if n.children == [] {
      assert "<" + n.name + a + "" == "<" + n.name + a;
    } else {
      CompactAllPrints(n.children);
      var p := PrintAll(n.children);
      assert "<" + n.name + a + "" + ">" + p + "</" + n.name + "" + ">"
             == "<" + n.name + a + (">" + p + "</" + n.name + ">");
    }
  }

  lemma CompactDeclaration(n: Node)
    requires Canonical(n) && n.Declaration?
    ensures Lay(Compact(n)) == Print(n) && Legal(Compact(n)) && TreeOf(Compact(n)) == Some(n)
  {
    hide LayAttributes, PrintAttributes, CompactAttributes, AttributesOf, LegalAttributes;
    var a := PrintAttributes(n.attributes);
    CompactAttributesPrint(n.attributes);
    assert "<?" + "xml" + a + "" + "?>" == "<?xml" + a + "?>";
  }

  lemma {:induction false} CompactPrints(n: Node)
    requires Canonical(n)
    ensures Lay(Compact(n)) == Print(n) && Legal(Compact(n)) && TreeOf(Compact(n)) == Some(n)
    ensures !Compact(n).Gap? && (Compact(n).Text? <==> n.Data?)
    decreases n, 1
  {
    hide Lay, Print, Legal, TreeOf;
    match n
    case Element(_, _, _, _) => CompactElement(n);
    case Declaration(_) => CompactDeclaration(n);
    case Pi(_, _) => CompactPi(n);
    case _ => CompactLeaf(n);
  }

  lemma {:induction false} CompactAllPrints(nodes: seq<Node>)
    requires CanonicalAll(nodes)
    ensures var c := CompactAll(nodes); LayAll(c) == PrintAll(nodes) && LegalAll(c) && TreesOf(c) == nodes
    ensures forall i :: 0 <= i < |nodes| ==>
              !CompactAll(nodes)[i].Gap? && (CompactAll(nodes)[i].Text? <==> nodes[i].Data?)
    decreases nodes, 2
  {
    hide Lay, Print, Legal, TreeOf, Compact, Canonical;
    if nodes != [] {
      CompactPrints(nodes[0]);
      CompactAllPrints(nodes[1..]);
    }
  }

  /** A canonical document is what the parser makes of its printed form. */
  lemma DocumentBack(nodes: seq<Node>, end: string)
    requires CanonicalDocument(nodes) && At(end, 0) == '\0'
    ensures ParseDocument(PrintAll(nodes) + end) == Ok(nodes, end)
  {
    hide ParseDocument, LayAll, PrintAll, TreesOf, CanonicalAll, LegalAll;
    CompactAllPrints(nodes);
    WrittenBack("", CompactAll(nodes), end);
    assert "" + PrintAll(nodes) + end == PrintAll(nodes) + end;
  }

  lemma PrintedValue(name: string, value: string, attributes: seq<Attribute>)
    requires value != ""
    ensures Print(Element(name, value, attributes, [])) == Print(Element(name, value, attributes, [Data(value)]))
  {
    hide Escape, PrintAttributes;
    assert PrintAll([Data(value)]) == Print(Data(value)) + PrintAll([]);
  }

  /** An element that was given a value and no children is read back with the value as a data child. */
  lemma ValueBack(name: string, value: string, attributes: seq<Attribute>, end: string)
    requires LegalName(name) && (forall a :: a in attributes ==> LegalAttribute(a)) && At(end, 0) == '\0'
    requires Plain(value) && !AllIn(value, Space)
    ensures ParseDocument(Print(Element(name, value, attributes, [])) + end) ==
            Ok([Element(name, value, attributes, [Data(value)])], end)
  {
    hide Print, ParseDocument;
    var n := Element(name, value, attributes, [Data(value)]);
    PrintedValue(name, value, attributes);
    assert PrintAll([n]) == Print(n) + PrintAll([]) == Print(n);
    var children := [Data(value)];
    assert Canonical(children[0]) && children[1..] == [] && !HasData([]);
    assert CanonicalAll(children) && FirstData(children) == value;
    assert Canonical(n) && [n][1..] == [];
    DocumentBack([n], end);
  }

  // ---- what does not come back -------------------------------------------------------

  lemma {:induction false} SpaceEscaped(space: string)
    requires AllIn(space, Space)
    ensures Escape(space, '\0') == space
  {
    if space != "" {
      SpaceEscaped(space[1..]);
    }
  }

  lemma SpacePrinted(space: string)
    requires AllIn(space, Space)
    ensures PrintAll([Data(space)]) == space
  {
    assert PrintAll([Data(space)]) == Print(Data(space)) + PrintAll([]);
    SpaceEscaped(space);
  }

  /** A data node of white space only is lost between two tags. */
  lemma SpaceIsLost(space: string, name: string, rest: string)
    requires AllIn(space, Space) && AllIn(name, NodeName)
    ensures ParseContents(PrintAll([Data(space)]) + ("</" + name + ">" + rest), name) == Ok([], rest)
  {
    hide ParseContents, TagOrEnd;
    var close := "</" + name + ">" + rest;
    SpacePrinted(space);
    assert close == CloseText(name, "", rest);
    CloseRead(name, name, "", rest);
    assert LayAll([Gap(space)]) == Lay(Gap(space)) + LayAll([]) == space;
    ContentsBack([Gap(space)], name, close);
    assert TreesOf([Gap(space)]) == [];
  }

  lemma {:induction false} FoundPlain(t: string, mark: string)
    requires mark != "" && mark[0] != '\0'
    ensures var r := Find(t, mark); r.Some? ==> Plain(t[..r.value])
  {
    if !(mark <= t) && At(t, 0) != '\0' {
      FoundPlain(t[1..], mark);
      var r := Find(t[1..], mark);
      if r.Some? {
        assert t[..1 + r.value] == [t[0]] + t[1..][..r.value];
      }
    }
  }

  /** A processing instruction keeps the value it was written with exactly when white space stands
      behind its target or the value is empty. */
  lemma PiValueKept(t: string)
    requires ParsePi(t).Ok?
    ensures var n := Run(t, NodeName);
            var written := Upto(Skip(t[n..], Space), "?>").value;
            ParsePi(t).value.value.value == written <==> In(At(t, n), Space) || written == ""
  {
    var s := Skip(t[Run(t, NodeName)..], Space);
    FoundPlain(s, "?>");
  }
}
