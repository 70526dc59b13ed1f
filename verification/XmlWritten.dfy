/** What the parser accepts was written: for every text that it accepts there is a layout that is this text,
    and its tree is what the parser returns. Together with XmlRoundTrip this says which texts are accepted. */
module XmlWritten {
  import opened Basics
  import opened XmlText
  import opened XmlReferences
  import opened XmlTree
  import opened XmlParser
  import opened XmlLayout
  import opened XmlRoundTrip
  import opened XmlInPlace

  // ---- scanning ----------------------------------------------------------------------

  lemma RunWhite(t: string)
    ensures var n := Run(t, Space); White(t[..n]) && t == t[..n] + Skip(t, Space) && !In(At(Skip(t, Space), 0), Space)
  {
    var n := Run(t, Space);
    assert At(Skip(t, Space), 0) == At(t, n);
  }

  lemma {:induction false} FoundThere(t: string, mark: string)
    requires Find(t, mark).Some?
    ensures mark <= t[Find(t, mark).value..]
  {
    if mark <= t {
      assert t[0..] == t;
    } else {
      FoundThere(t[1..], mark);
      var n := Find(t, mark).value;
      assert t[1..][n - 1..] == t[n..];
    }
  }

  lemma FoundParts(t: string, mark: string)
    requires Find(t, mark).Some?
    ensures var n := Find(t, mark).value; t == t[..n] + (mark + t[n + |mark|..])
  {
    hide Find;
    var n := Find(t, mark).value;
    FoundThere(t, mark);
    assert t == t[..n] + t[n..];
    assert t[n..] == mark + t[n..][|mark|..];
    assert t[n..][|mark|..] == t[n + |mark|..];
  }

  lemma {:induction false} NotFoundBefore(t: string, mark: string, i: nat)
    requires Find(t, mark).Some? && i < Find(t, mark).value
    ensures !(mark <= t[i..])
  {
    if i > 0 {
      NotFoundBefore(t[1..], mark, i - 1);
      assert t[1..][i - 1..] == t[i..];
    } else {
      assert t[0..] == t;
    }
  }

  /** The text up to the first occurrence of the mark. */
  lemma {:induction false} FindWritten(t: string, mark: string)
    requires Find(t, mark).Some? && mark != "" && mark[0] != '\0'
    ensures var n := Find(t, mark).value; Free(t[..n], mark) && t == t[..n] + (mark + t[n + |mark|..])
  {
    hide Find;
    var n := Find(t, mark).value;
    var s := t[..n];
    FoundPlain(t, mark);
    FoundParts(t, mark);
    forall i | 0 <= i < |s| ensures !(mark <= (s + mark)[i..]) {
      NotFoundBefore(t, mark, i);
      assert t == (s + mark) + t[n + |mark|..];
      assert t[i..] == (s + mark)[i..] + t[n + |mark|..];
    }
  }

  // ---- attributes --------------------------------------------------------------------

  lemma HeadUnfold(t: string)
    requires In(At(t, 0), AttributeName) && AttributeHead(t).Ok?
    ensures var n := Run(t, AttributeName);
            var t1 := Skip(t[n..], Space);
            n > 0 && At(t1, 0) == '=' && AttributeHead(t) == Ok(t[..n], Skip(t1[1..], Space))
  {
    hide Skip;
  }

  lemma HeadWritten(t: string) returns (name: string, left: string, right: string)
    requires In(At(t, 0), AttributeName) && AttributeHead(t).Ok?
    ensures name == AttributeHead(t).value && name != "" && AllIn(name, AttributeName) && White(left) && White(right)
    ensures t == name + (left + ("=" + (right + AttributeHead(t).rest)))
  {
    hide Run, Skip, White, In, AllIn, AttributeHead;
    HeadUnfold(t);
    var n := Run(t, AttributeName);
    name := t[..n];
    var t0 := t[n..];
    RunWhite(t0);
    left := t0[..Run(t0, Space)];
    var t1 := Skip(t0, Space);
    assert t1 == "=" + t1[1..];
    RunWhite(t1[1..]);
    right := t1[1..][..Run(t1[1..], Space)];
    assert t == name + t0;
  }

  lemma ValueWritten(t: string) returns (raw: string, gap: string)
    requires At(t, 0) in {'\'', '"'} && AttributeValue(t).Ok?
    ensures Means(raw, AttributeValue(t).value, t[0]) && White(gap)
    ensures t == [t[0]] + (raw + ([t[0]] + (gap + AttributeValue(t).rest)))
    ensures !In(At(AttributeValue(t).rest, 0), Space)
  {
    hide Expand, Skip, White, Run;
    var quote := t[0];
    raw := ExpandSplit(t[1..], quote);
    var rest := Expand(t[1..], quote).rest;
    RunWhite(rest[1..]);
    gap := rest[1..][..Run(rest[1..], Space)];
    assert rest == [quote] + rest[1..];
    assert t == [quote] + t[1..];
  }

  /** An attribute, the white space before it left out, and the white space behind it. */
  lemma AttributeWritten(t: string) returns (a: LaidAttribute, gap: string)
    requires In(At(t, 0), AttributeName) && ParseAttribute(t).Ok?
    ensures WellLaid(a) && a.before == "" && a.attribute == ParseAttribute(t).value && White(gap)
    ensures t == LayAttribute(a) + (gap + ParseAttribute(t).rest)
    ensures !In(At(ParseAttribute(t).rest, 0), Space)
  {
    hide AttributeHead, AttributeValue, LayAttribute, Expand;
    var name, left, right := HeadWritten(t);
    var t1 := AttributeHead(t).rest;
    var raw;
    raw, gap := ValueWritten(t1);
    a := LaidAttribute("", ParseAttribute(t).value, left, right, t1[0], raw);
    LaidAttributeParts(a, gap + ParseAttribute(t).rest);
    assert "" + t == t;
  }

  lemma LaidBefore(a: LaidAttribute, before: string, t: string)
    requires a.before == ""
    ensures LayAttribute(a.(before := before)) + t == before + (LayAttribute(a) + t)
  {
    LaidAttributeParts(a, t);
    LaidAttributeParts(a.(before := before), t);
    var u := a.attribute.name + (a.left + ("=" + (a.right + ([a.quote] + (a.raw + ([a.quote] + t))))));
    assert "" + u == u;
  }

  lemma LaidFirstAttribute(a: LaidAttribute, more: seq<LaidAttribute>, t: string)
    ensures LayAttributes([a] + more) + t == LayAttribute(a) + (LayAttributes(more) + t)
    ensures AttributesOf([a] + more) == [a.attribute] + AttributesOf(more)
  {
    hide LayAttribute;
    assert ([a] + more)[1..] == more;
  }

  lemma Reattached(a: LaidAttribute, gap: string)
    requires WellLaid(a) && White(gap)
    ensures WellLaid(a.(before := gap))
  {
  }

  /** Attributes with the white space `gap` before them. */
  lemma {:induction false} AttributesWritten(gap: string, t: string)
    returns (attributes: seq<LaidAttribute>, end: string)
    requires White(gap) && ParseAttributes(t).Ok?
    ensures (forall a :: a in attributes ==> WellLaid(a)) && White(end)
    ensures if attributes == [] then end == gap && !In(At(t, 0), AttributeName)
            else attributes[0].before == gap && In(At(t, 0), AttributeName)
    ensures AttributesOf(attributes) == ParseAttributes(t).value
    ensures gap + t == LayAttributes(attributes) + (end + ParseAttributes(t).rest)
    decreases |t|
  {
    hide ParseAttribute, LayAttribute, White, Expand;
    if !In(At(t, 0), AttributeName) {
      attributes, end := [], gap;
      assert LayAttributes([]) + (end + t) == gap + t;
    } else {
      var a, gap' := AttributeWritten(t);
      var rest := ParseAttribute(t).rest;
      var more;
      more, end := AttributesWritten(gap', rest);
      var a' := a.(before := gap);
      attributes := [a'] + more;
      LaidBefore(a, gap, gap' + rest);
      LaidFirstAttribute(a', more, end + ParseAttributes(rest).rest);
      assert WellLaid(a') by { Reattached(a, gap); }
    }
  }

  /** A name and the attributes behind it. */
  lemma NameWritten(t: string, n: nat) returns (attributes: seq<LaidAttribute>, end: string)
    requires n == Run(t, NodeName) && ParseAttributes(Skip(t[n..], Space)).Ok?
    ensures LegalAttributes(attributes) && White(end)
    ensures AttributesOf(attributes) == ParseAttributes(Skip(t[n..], Space)).value
    ensures t == t[..n] + (LayAttributes(attributes) + (end + ParseAttributes(Skip(t[n..], Space)).rest))
  {
    hide ParseAttributes, LayAttributes, WellLaid, Run;
    var t0 := t[n..];
    RunWhite(t0);
    var gap := t0[..Run(t0, Space)];
    var t1 := Skip(t0, Space);
    attributes, end := AttributesWritten(gap, t1);
    assert t == t[..n] + t0;
    if gap == "" {
      assert t0 == t1;
      assert At(t1, 0) == At(t, n);
    }
  }

  // ---- nodes that are not elements ---------------------------------------------------

  lemma CommentOpen(value: string, rest: string)
    ensures Lay(CommentText(value)) + rest == "<!--" + (value + ("-->" + rest))
  {
  }

  lemma CommentWritten(t: string) returns (x: Laid)
    requires ParseComment(t).Ok?
    ensures Legal(x) && x.CommentText? && "<!--" + t == Lay(x) + ParseComment(t).rest
    ensures TreeOf(x) == ParseComment(t).value
  {
    hide Find, Free, Lay;
    FindWritten(t, "-->");
    var n := Find(t, "-->").value;
    x := CommentText(t[..n]);
    CommentOpen(t[..n], t[n + 3..]);
  }

  lemma CdataOpen(value: string, rest: string)
    ensures Lay(CdataText(value)) + rest == "<![CDATA[" + (value + ("]]>" + rest))
  {
  }

  lemma CdataWritten(t: string) returns (x: Laid)
    requires ParseCdata(t).Ok?
    ensures Legal(x) && x.CdataText? && "<![CDATA[" + t == Lay(x) + ParseCdata(t).rest
    ensures TreeOf(x) == ParseCdata(t).value
  {
    hide Find, Free, Lay;
    FindWritten(t, "]]>");
    var n := Find(t, "]]>").value;
    x := CdataText(t[..n]);
    CdataOpen(t[..n], t[n + 3..]);
  }

  function DepthAfter(depth: nat, c: char): nat {
    if c == '[' then depth + 1 else if c == ']' && depth > 0 then depth - 1 else depth
  }

  lemma {:induction false} DoctypeStep(t: string, depth: nat)
    requires DoctypeLength(t, depth).Some?
    ensures var n := DoctypeLength(t, depth).value;
            if n == 0 then depth == 0 && t != "" && t[0] == '>'
            else t != "" && t[0] != '\0' && (t[0] == '>' ==> depth > 0) && n <= |t| - 1
                 && DoctypeLength(t[1..], DepthAfter(depth, t[0])) == Some(n - 1)
  {
  }

  lemma DepthNext(u: string, c: char)
    ensures Depth(u + [c]) == DepthAfter(Depth(u), c)
  {
    assert (u + [c])[..|u|] == u;
  }

  /** Reading on from a part u of a document type, in which no '>' stands outside of brackets. */
  lemma {:induction false} DoctypeRest(u: string, t: string)
    requires Plain(u) && forall i :: 0 <= i < |u| && u[i] == '>' ==> Depth(u[..i]) > 0
    requires DoctypeLength(t, Depth(u)).Some?
    ensures var n := DoctypeLength(t, Depth(u)).value; n < |t| && Closed(u + t[..n]) && t[n] == '>'
    decreases |t|
  {
    hide Depth, DoctypeLength, DepthAfter;
    var n := DoctypeLength(t, Depth(u)).value;
    DoctypeStep(t, Depth(u));
    if n == 0 {
      assert u + t[..0] == u;
    } else {
      var v := u + [t[0]];
      DepthNext(u, t[0]);
      assert forall i :: 0 <= i <= |u| ==> v[..i] == u[..i];
      assert u[..|u|] == u;
      DoctypeRest(v, t[1..]);
      assert u + t[..n] == v + t[1..][..n - 1];
    }
  }

  lemma DoctypeOpen(blank: char, value: string, rest: string)
    ensures Lay(DoctypeText(blank, value)) + rest == "<!DOCTYPE" + ([blank] + (value + (">" + rest)))
  {
  }

  lemma DoctypeWritten(blank: char, t: string) returns (x: Laid)
    requires In(blank, Space) && ParseDoctype(t).Ok?
    ensures Legal(x) && x.DoctypeText? && "<!DOCTYPE" + ([blank] + t) == Lay(x) + ParseDoctype(t).rest
    ensures TreeOf(x) == ParseDoctype(t).value
  {
    hide DoctypeLength, Closed, Lay;
    DoctypeRest("", t);
    var n := DoctypeLength(t, 0).value;
    assert "" + t[..n] == t[..n];
    x := DoctypeText(blank, t[..n]);
    assert t == t[..n] + (">" + t[n + 1..]);
    DoctypeOpen(blank, t[..n], t[n + 1..]);
  }

  lemma IgnoredLaid(value: string, rest: string)
    ensures Lay(Ignored(value)) + rest == "<" + ("!" + (value + (">" + rest)))
  {
  }

  lemma IsIgnorable(value: string, rest: string)
    requires Free(value, ">")
    requires var t := "!" + (value + (">" + rest));
             !("!--" <= t) && !("![CDATA[" <= t) && !("!DOCTYPE" <= t && In(At(t, 8), Space))
    ensures Ignorable(value)
  {
    hide Free;
    var u := value + (">" + rest);
    assert "!--" == "!" + "--" && "![CDATA[" == "!" + "[CDATA[" && "!DOCTYPE" == "!" + "DOCTYPE";
    WordBefore("--", value, rest);
    WordBefore("[CDATA[", value, rest);
    WordBefore("DOCTYPE", value, rest);
    MarkBefore("--", u);
    MarkBefore("[CDATA[", u);
    MarkBefore("DOCTYPE", u);
    if |value| > 7 {
      assert ("!" + u)[8] == u[7] == value[7] == [value[7]][0];
    }
  }

  lemma IgnoredWritten(t: string) returns (x: Laid)
    requires At(t, 0) == '!' && !("!--" <= t) && !("![CDATA[" <= t) && !("!DOCTYPE" <= t && In(At(t, 8), Space))
    requires Upto(t[1..], ">").Ok?
    ensures Legal(x) && x.Ignored? && "<" + t == Lay(x) + Upto(t[1..], ">").rest
  {
    hide Find, Free, Lay, Ignorable, In;
    var t0 := t[1..];
    FindWritten(t0, ">");
    var n := Find(t0, ">").value;
    var value, rest := t0[..n], t0[n + 1..];
    x := Ignored(value);
    assert t0 == value + (">" + rest);
    assert t == "!" + t0;
    IsIgnorable(value, rest);
    IgnoredLaid(value, rest);
  }

  lemma IgnoredTree(x: Laid)
    requires x.Ignored?
    ensures TreeOf(x) == None
  {
  }

  lemma MarkedWritten(t: string) returns (x: Laid)
    requires At(t, 0) == '!' && ParseMarked(t).Ok?
    ensures Legal(x) && !x.Text? && !x.Gap? && "<" + t == Lay(x) + ParseMarked(t).rest
    ensures TreeOf(x) == ParseMarked(t).value
  {
    hide Lay, Legal, TreeOf, ParseComment, ParseCdata, ParseDoctype, Upto;
    if "!--" <= t {
      x := CommentWritten(t[3..]);
      assert "<" + t == "<!--" + t[3..];
    } else if "![CDATA[" <= t {
      x := CdataWritten(t[8..]);
      assert "<" + t == "<![CDATA[" + t[8..];
    } else if "!DOCTYPE" <= t && In(At(t, 8), Space) {
      x := DoctypeWritten(t[8], t[9..]);
      assert t == "!DOCTYPE" + ([t[8]] + t[9..]);
      assert "<" + ("!DOCTYPE" + ([t[8]] + t[9..])) == "<!DOCTYPE" + ([t[8]] + t[9..]);
    } else {
      x := IgnoredWritten(t);
      IgnoredTree(x);
    }
  }

  lemma PiUnfold(s: string)
    requires ParsePi(s).Ok?
    ensures var n := Run(s, NodeName);
            var t := Skip(s[n..], Space);
            && n > 0 && Find(t, "?>").Some?
            && var value := t[..Find(t, "?>").value];
               && ParsePi(s).rest == t[|value| + 2..]
               && ParsePi(s).value ==
                  Some(Pi(s[..n], if In(At(s, n), Space) || value == "" then value else value[0 := '\0']))
  {
    hide Find, Run, Skip, In;
  }

  lemma PiResult(s: string) returns (name: string, gap: string, t: string, value: string)
    requires ParsePi(s).Ok?
    ensures name != "" && AllIn(name, NodeName) && White(gap) && !In(At(t, 0), Space) && !In(At(s, |name|), NodeName)
    ensures s == name + (gap + t) && t == value + ("?>" + ParsePi(s).rest) && Free(value, "?>")
    ensures ParsePi(s).value ==
            Some(Pi(name, if In(At(s, |name|), Space) || value == "" then value else value[0 := '\0']))
  {
    hide ParsePi, Find, Free, Run, Skip, In, White, AllIn;
    PiUnfold(s);
    var n := Run(s, NodeName);
    var t0 := s[n..];
    RunWhite(t0);
    name, gap, t := s[..n], t0[..Run(t0, Space)], Skip(t0, Space);
    FindWritten(t, "?>");
    value := t[..Find(t, "?>").value];
    assert s == name + t0 && t0 == gap + t;
  }

  lemma PiOpen(name: string, gap: string, value: string, rest: string)
    ensures Lay(PiText(name, gap, value)) + rest == "<?" + (name + (gap + (value + ("?>" + rest))))
  {
  }

  lemma PiParts(s: string, name: string, gap: string, t: string, value: string)
    requires s == name + (gap + t) && White(gap) && !In(At(t, 0), Space) && !In(At(s, |name|), NodeName) && value <= t
    ensures In(At(s, |name|), Space) <==> gap != ""
    ensures value == "" || !White([value[0]])
    ensures gap == "" ==> value == "" || !In(value[0], NodeName)
    ensures gap != "" && IsXml(name) ==>
              At(s, 0) in {'x', 'X'} && At(s, 1) in {'m', 'M'} && At(s, 2) in {'l', 'L'} && In(At(s, 3), Space)
  {
    assert At(s, |name|) == At(gap + t, 0) == if gap == "" then At(t, 0) else gap[0];
    assert forall i :: 0 <= i < |name| ==> s[i] == name[i];
    if value != "" {
      assert t[0] == value[0] == [value[0]][0];
    }
  }

  lemma PiWritten(s: string) returns (x: Laid)
    requires ParsePi(s).Ok?
    requires !(At(s, 0) in {'x', 'X'} && At(s, 1) in {'m', 'M'} && At(s, 2) in {'l', 'L'} && In(At(s, 3), Space))
    ensures Legal(x) && x.PiText? && "<?" + s == Lay(x) + ParsePi(s).rest && TreeOf(x) == ParsePi(s).value
  {
    hide ParsePi, Free, In, IsXml, White, Lay, AllIn;
    var name, gap, t, value := PiResult(s);
    x := PiText(name, gap, value);
    PiParts(s, name, gap, t, value);
    PiOpen(name, gap, value, ParsePi(s).rest);
  }

  lemma DeclarationOpen(letters: string, attributes: seq<LaidAttribute>, end: string, rest: string)
    ensures Lay(DeclarationText(letters, attributes, end)) + rest ==
            "<?" + (letters + (LayAttributes(attributes) + (end + ("?>" + rest))))
  {
    hide LayAttributes;
  }

  lemma DeclarationParts(t: string) returns (tail: string)
    requires ParseDeclaration(t).Ok?
    ensures ParseAttributes(Skip(t, Space)).Ok? && tail == ParseAttributes(Skip(t, Space)).rest
    ensures tail == "?>" + ParseDeclaration(t).rest
    ensures ParseDeclaration(t).value == Some(Declaration(ParseAttributes(Skip(t, Space)).value))
  {
    hide ParseAttributes, Skip;
    tail := ParseAttributes(Skip(t, Space)).rest;
    assert tail == "?>" + tail[2..];
  }

  lemma GapGrows(c: char, gap: string)
    requires In(c, Space) && White(gap)
    ensures White([c] + gap) && [c] + gap != ""
  {
  }

  lemma DeclarationWritten(s: string) returns (x: Laid)
    requires At(s, 0) in {'x', 'X'} && At(s, 1) in {'m', 'M'} && At(s, 2) in {'l', 'L'} && In(At(s, 3), Space)
    requires ParseDeclaration(s[4..]).Ok?
    ensures Legal(x) && x.DeclarationText? && "<?" + s == Lay(x) + ParseDeclaration(s[4..]).rest
    ensures TreeOf(x) == ParseDeclaration(s[4..]).value
  {
    hide ParseDeclaration, ParseAttributes, LayAttributes, AttributesOf, Skip, WellLaid, White, Run, Lay;
    var letters, t := s[..3], s[4..];
    RunWhite(t);
    var white := t[..Run(t, Space)];
    var gap, u := [s[3]] + white, Skip(t, Space);
    GapGrows(s[3], white);
    var tail := DeclarationParts(t);
    var attributes, end := AttributesWritten(gap, u);
    x := DeclarationText(letters, attributes, end);
    assert s == letters + ([s[3]] + t);
    assert [s[3]] + (white + u) == gap + u;
    DeclarationOpen(letters, attributes, end, ParseDeclaration(t).rest);
  }

  lemma QuestionWritten(s: string) returns (x: Laid)
    requires ParseQuestion(s).Ok?
    ensures Legal(x) && !x.Text? && !x.Gap? && "<?" + s == Lay(x) + ParseQuestion(s).rest
    ensures TreeOf(x) == ParseQuestion(s).value
  {
    hide Lay, Legal, TreeOf, ParseDeclaration, ParsePi;
    if At(s, 0) in {'x', 'X'} && At(s, 1) in {'m', 'M'} && At(s, 2) in {'l', 'L'} && In(At(s, 3), Space) {
      x := DeclarationWritten(s);
    } else {
      x := PiWritten(s);
    }
  }

  // ---- elements ----------------------------------------------------------------------

  lemma LaidNext(x: Laid, xs: seq<Laid>, t: string)
    ensures LayAll([x] + xs) + t == Lay(x) + (LayAll(xs) + t)
    ensures TreesOf([x] + xs) == (if TreeOf(x).Some? then [TreeOf(x).value] else []) + TreesOf(xs)
  {
    hide Lay, TreeOf;
    assert ([x] + xs)[1..] == xs;
  }

  lemma LegalNext(x: Laid, xs: seq<Laid>)
    requires Legal(x) && LegalAll(xs)
    requires xs != [] ==> (x.Text? ==> !xs[0].Text? && !xs[0].Gap?) && (x.Gap? ==> !xs[0].Text?)
    ensures LegalAll([x] + xs)
  {
    hide Legal;
    assert ([x] + xs)[1..] == xs;
  }

  /** An opening tag up to its '>' or '/>', where `tail` begins. */
  lemma OpenWritten(t: string)
    returns (name: string, attributes: seq<LaidAttribute>, end: string, tail: string)
    requires At(t, 0) != '!' && ParseElement(t).Ok?
    ensures LegalName(name) && LegalAttributes(attributes) && White(end)
    ensures t == name + (LayAttributes(attributes) + (end + tail)) && |tail| < |t|
    ensures ElementEnd(tail, name).Ok? && ParseElement(t).rest == ElementEnd(tail, name).rest
    ensures var children := ElementEnd(tail, name).value;
            ParseElement(t).value == Some(Element(name, ValueOf("", children), AttributesOf(attributes), children))
  {
    hide ParseAttributes, LayAttributes, AttributesOf, Skip, Run, ElementEnd, LegalAttributes, ValueOf;
    var n := Run(t, NodeName);
    name := t[..n];
    attributes, end := NameWritten(t, n);
    tail := ParseAttributes(Skip(t[n..], Space)).rest;
    assert name[0] == t[0];
  }

  lemma TagsBegin(x: Laid)
    requires x.Tags?
    ensures Lay(x) != "" && Lay(x)[0] == '<'
  {
    hide LayAttributes, LayAll;
  }

  lemma TagsOpen(x: Laid, rest: string)
    requires x.Tags?
    ensures Lay(x) + rest == "<" + (x.name + (LayAttributes(x.attributes)
                                    + (x.end + (">" + (LayAll(x.children) + CloseText(x.name, x.close, rest))))))
  {
    hide Lay, LayAttributes, LayAll, CloseText;
    TagsText(x, rest);
    TagsBegin(x);
    assert Lay(x) == ['<'] + Lay(x)[1..];
  }

  lemma EmptyTagOpen(name: string, attributes: seq<LaidAttribute>, end: string, rest: string)
    ensures Lay(EmptyTag(name, attributes, end)) + rest ==
            "<" + (name + (LayAttributes(attributes) + (end + ("/>" + rest))))
  {
    hide LayAttributes;
  }

  lemma NoTrees()
    ensures FirstData([]) == "" && TreesOf([]) == []
  {
  }

  lemma {:induction false} ElementWritten(t: string) returns (x: Laid)
    requires At(t, 0) != '!' && ParseElement(t).Ok?
    ensures Legal(x) && (x.Tags? || x.EmptyTag?) && "<" + t == Lay(x) + ParseElement(t).rest
    ensures TreeOf(x) == ParseElement(t).value
    decreases |t|, 0
  {
    hide ParseElement, LayAttributes, AttributesOf, ParseContents, LegalAttributes, LegalAll, LayAll, Lay, LegalName,
         TreesOf, FirstData, ValueOf, White, CloseText;
    var name, attributes, end, tail := OpenWritten(t);
    ElementValue(ElementEnd(tail, name).value);
    if At(tail, 0) == '>' {
      var u := tail[1..];
      var children, close := ContentsWritten(u, name);
      x := Tags(name, attributes, end, children, close);
      assert tail == ">" + u;
      TagsOpen(x, ParseContents(u, name).rest);
    } else {
      x := EmptyTag(name, attributes, end);
      NoTrees();
      assert tail == "/>" + tail[2..];
      EmptyTagOpen(name, attributes, end, tail[2..]);
    }
  }

  lemma {:induction false} NodeWritten(t: string) returns (x: Laid)
    requires ParseNode(t).Ok?
    ensures Legal(x) && !x.Text? && !x.Gap? && "<" + t == Lay(x) + ParseNode(t).rest && TreeOf(x) == ParseNode(t).value
    decreases |t|, 1
  {
    hide Lay, Legal, TreeOf, ParseQuestion, ParseMarked, ParseElement;
    if At(t, 0) == '?' {
      x := QuestionWritten(t[1..]);
      assert "<" + t == "<?" + t[1..];
    } else if At(t, 0) == '!' {
      x := MarkedWritten(t);
    } else {
      x := ElementWritten(t);
    }
  }

  lemma CloseWritten(t: string, name: string) returns (close: string)
    requires CloseTag(t, name).Ok?
    ensures White(close) && "</" + t == CloseText(name, close, CloseTag(t, name).rest) && CloseTag(t, name).value == []
  {
    hide Run, Skip, White;
    var n := Run(t, NodeName);
    RunWhite(t[n..]);
    close := t[n..][..Run(t[n..], Space)];
    var rest := Skip(t[n..], Space);
    assert rest == ">" + rest[1..];
    assert t == name + (close + (">" + rest[1..]));
  }

  lemma {:induction false} TagWritten(t: string, name: string) returns (xs: seq<Laid>, close: string)
    requires At(t, 0) == '<' && ParseTag(t, name).Ok?
    ensures LegalAll(xs) && White(close) && TreesOf(xs) == ParseTag(t, name).value
    ensures t == LayAll(xs) + CloseText(name, close, ParseTag(t, name).rest)
    ensures xs != [] ==> !xs[0].Text? && !xs[0].Gap?
    decreases |t|, 2
  {
    hide ParseNode, CloseTag, ParseContents, Lay, Legal, TreeOf, CloseText, White;
    if At(t, 1) == '/' {
      xs := [];
      close := CloseWritten(t[2..], name);
      assert t == "</" + t[2..];
      assert LayAll(xs) + t == t;
    } else {
      var x := NodeWritten(t[1..]);
      var more;
      more, close := ContentsWritten(ParseNode(t[1..]).rest, name);
      xs := [x] + more;
      LaidNext(x, more, CloseText(name, close, ParseTag(t, name).rest));
      LegalNext(x, more);
      assert t == "<" + t[1..];
    }
  }

  lemma DataWritten(t: string) returns (x: Laid)
    requires At(Skip(t, Space), 0) !in {'<', '\0'} && Expand(t, '<').Expanded? && At(Expand(t, '<').rest, 0) == '<'
    ensures Legal(x) && x.Text? && t == Lay(x) + Expand(t, '<').rest && TreeOf(x) == Some(Data(Expand(t, '<').out))
  {
    hide Expand, Skip;
    var raw := ExpandSplit(t, '<');
    var rest := Expand(t, '<').rest;
    x := Text(raw, Expand(t, '<').out);
    if White(raw) {
      SkipUpTo(raw, rest);
    }
  }

  lemma GapLegal(gap: string)
    requires White(gap)
    ensures Legal(Gap(gap)) && Lay(Gap(gap)) == gap && TreeOf(Gap(gap)) == None
  {
  }

  lemma {:induction false} ContentsWritten(t: string, name: string) returns (xs: seq<Laid>, close: string)
    requires ParseContents(t, name).Ok?
    ensures LegalAll(xs) && White(close) && TreesOf(xs) == ParseContents(t, name).value
    ensures t == LayAll(xs) + CloseText(name, close, ParseContents(t, name).rest)
    decreases |t|, 3
  {
    hide ParseTag, Lay, Legal, TreeOf, CloseText, White, Run, Skip, Expand;
    RunWhite(t);
    var gap, s := t[..Run(t, Space)], Skip(t, Space);
    var u := ParseContents(t, name).rest;
    if At(s, 0) == '<' {
      xs, close := TagWritten(s, name);
      if gap != "" {
        LaidNext(Gap(gap), xs, CloseText(name, close, u));
        GapLegal(gap);
        LegalNext(Gap(gap), xs);
        xs := [Gap(gap)] + xs;
      } else {
        assert gap + s == s;
      }
    } else {
      ExpandRest(t, '<');
      var x := DataWritten(t);
      var more;
      more, close := TagWritten(Expand(t, '<').rest, name);
      LaidNext(x, more, CloseText(name, close, u));
      LegalNext(x, more);
      xs := [x] + more;
    }
  }

  // ---- documents ---------------------------------------------------------------------

  lemma {:induction false} NodesWritten(t: string) returns (xs: seq<Laid>)
    requires ParseNodes(t).Ok?
    ensures LegalDocument(xs) && TreesOf(xs) == ParseNodes(t).value && t == LayAll(xs) + ParseNodes(t).rest
    ensures At(ParseNodes(t).rest, 0) == '\0'
    decreases |t|
  {
    hide ParseNode, Lay, Legal, TreeOf, White, Run, Skip;
    RunWhite(t);
    var gap, s := t[..Run(t, Space)], Skip(t, Space);
    var end := ParseNodes(t).rest;
    GapLegal(gap);
    if At(s, 0) == '\0' {
      xs := [Gap(gap)];
      LaidNext(Gap(gap), [], end);
      LegalNext(Gap(gap), []);
      assert LayAll([]) + end == end && [Gap(gap)] + [] == [Gap(gap)];
    } else {
      var x := NodeWritten(s[1..]);
      var more := NodesWritten(ParseNode(s[1..]).rest);
      assert s == "<" + s[1..];
      LaidNext(x, more, end);
      LegalNext(x, more);
      LaidNext(Gap(gap), [x] + more, end);
      LegalNext(Gap(gap), [x] + more);
      xs := [Gap(gap)] + ([x] + more);
    }
  }

  /** What is accepted is a document: its layout. */
  lemma DocumentWritten(t: string) returns (mark: string, xs: seq<Laid>)
    requires ParseDocument(t).Ok?
    ensures mark in {"", [0xEF as char, 0xBB as char, 0xBF as char]} && LegalDocument(xs)
    ensures var r := ParseDocument(t);
            TreesOf(xs) == r.value && t == mark + LayAll(xs) + r.rest && At(r.rest, 0) == '\0'
  {
    hide ParseNodes, LayAll, TreesOf, LegalAll;
    mark := if BOM <= t then BOM else "";
    var u := if BOM <= t then t[3..] else t;
    xs := NodesWritten(u);
    assert t == mark + u;
  }

  /** The text is a document, laid out as xs, up to the end of the text at its first terminator. */
  ghost predicate WrittenAs(t: string, mark: string, xs: seq<Laid>, end: string) {
    && mark in {"", [0xEF as char, 0xBB as char, 0xBF as char]} && LegalDocument(xs) && At(end, 0) == '\0'
    && t == mark + LayAll(xs) + end
  }

  /** The parser accepts exactly the documents that may be written, and returns their trees. */
  lemma AcceptedExactly(t: string, nodes: seq<Node>, end: string)
    ensures ParseDocument(t) == Ok(nodes, end) <==>
              exists mark, xs :: WrittenAs(t, mark, xs, end) && nodes == TreesOf(xs)
  {
    hide ParseDocument, LayAll, TreesOf, LegalAll;
    if ParseDocument(t) == Ok(nodes, end) {
      var mark, xs := DocumentWritten(t);
      assert WrittenAs(t, mark, xs, end);
    }
    forall mark, xs | WrittenAs(t, mark, xs, end) && nodes == TreesOf(xs) ensures ParseDocument(t) == Ok(nodes, end) {
      WrittenBack(mark, xs, end);
    }
  }

  // ---- in the buffer -----------------------------------------------------------------

  /** The parser in its buffer accepts exactly the documents, and its nodes read as the tree of each layout
      of the buffer. */
  method ParseBuffer(text: array<char>, ghost nul: nat) returns (ok: bool, children: seq<NodeRef>)
    requires nul < text.Length && text[nul] == '\0'
    modifies text
    ensures ok <==> exists mark, xs, end :: WrittenAs(old(text[..]), mark, xs, end)
    ensures forall mark, xs, end :: WrittenAs(old(text[..]), mark, xs, end) ==>
              ReadAll(text[..], children) == TreesOf(xs)
    ensures ok ==> NodesIn(text[..], children, 0, nul)
  {
    hide TreesOf, ParseDocument, ReadAll, NodesIn, WrittenAs;
    ghost var t := text[..];
    ghost var r := ParseDocument(t);
    if r.Ok? {
      AcceptedExactly(t, r.value, r.rest);
    }
    forall mark, xs, end | WrittenAs(t, mark, xs, end) ensures r == Ok(TreesOf(xs), end) {
      AcceptedExactly(t, TreesOf(xs), end);
    }
    ok, children := ParseDocumentAt(text, nul);
  }
}
