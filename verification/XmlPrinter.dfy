/** The printer: it walks the tree and appends characters to its output. */
module XmlPrinter {
  import opened XmlText
  import opened XmlTree
  import opened XmlParser
  import opened XmlRoundTrip
  import opened XmlInPlace

  lemma EscapeStep(s: string, i: nat, noexpand: char)
    requires i < |s|
    ensures Escape(s[..i + 1], noexpand) == Escape(s[..i], noexpand) + EscapeChar(s[i], noexpand)
  {
    hide EscapeChar;
    if i == 0 {
      assert s[..1] == [s[0]] && s[..0] == "";
      assert Escape(s[..1], noexpand) == EscapeChar(s[0], noexpand) + Escape("", noexpand);
    } else {
      EscapeStep(s[1..], i - 1, noexpand);
      assert s[..i + 1][1..] == s[1..][..i] && s[..i][1..] == s[1..][..i - 1];
    }
  }

  lemma EscapeNothing(s: string, noexpand: char)
    requires s == ""
    ensures Escape(s, noexpand) == ""
  {
  }

  method ExpandChar(c: char, noexpand: char, out: string) returns (out': string)
    ensures out' == out + EscapeChar(c, noexpand)
  {
    if c == noexpand {
      out' := out + [c];
    } else {
      match c
      case '<' => out' := out + "&lt;";
      case '>' => out' := out + "&gt;";
      case '\'' => out' := out + "&apos;";
      case '"' => out' := out + "&quot;";
      case '&' => out' := out + "&amp;";
      case _ => out' := out + [c];
    }
  }

  method CopyAndExpandChars(s: string, noexpand: char, out: string) returns (out': string)
    ensures out' == out + Escape(s, noexpand)
  {
    hide Escape, EscapeChar;
    EscapeNothing(s[..0], noexpand);
    out' := out;
    var i := 0;
    while i < |s|
      invariant i <= |s| && out' == out + Escape(s[..i], noexpand)
    {
      EscapeStep(s, i, noexpand);
      out' := ExpandChar(s[i], noexpand, out');
      i := i + 1;
    }
    assert s[..i] == s;
  }

  method FindChar(s: string, c: char) returns (found: bool)
    ensures found == (c in s)
  {
    for i := 0 to |s|
      invariant c !in s[..i]
    {
      if s[i] == c {
        return true;
      }
    }
    assert s[..|s|] == s;
    return false;
  }

  lemma PrintedStep(attributes: seq<Attribute>, i: nat)
    requires i < |attributes|
    ensures PrintAttributes(attributes[..i + 1]) == PrintAttributes(attributes[..i]) + PrintAttribute(attributes[i])
  {
    hide PrintAttribute;
    if i == 0 {
      assert attributes[..1] == [attributes[0]] && attributes[..0] == [];
      assert PrintAttributes(attributes[..1]) == PrintAttribute(attributes[0]) + PrintAttributes([]);
    } else {
      PrintedStep(attributes[1..], i - 1);
      assert attributes[..i + 1][1..] == attributes[1..][..i] && attributes[..i][1..] == attributes[1..][..i - 1];
    }
  }

  lemma NoAttributes(attributes: seq<Attribute>)
    requires attributes == []
    ensures PrintAttributes(attributes) == ""
  {
  }

  method PrintAttributesTo(attributes: seq<Attribute>, out: string) returns (out': string)
    ensures out' == out + PrintAttributes(attributes)
  {
    hide Escape, PrintAttributes;
    out' := out;
    assert PrintAttributes(attributes[..0]) == "" by { NoAttributes(attributes[..0]); }
    for i := 0 to |attributes|
      invariant out' == out + PrintAttributes(attributes[..i])
    {
      ghost var before := out';
      var a := attributes[i];
      out' := out' + " " + a.name + "=";
      var quoted := FindChar(a.value, '"');
      if quoted {
        out' := CopyAndExpandChars(a.value, '"', out' + "'");
        out' := out' + "'";
        assert out' == before + PrintAttribute(a);
      } else {
        out' := CopyAndExpandChars(a.value, '\'', out' + "\"");
        out' := out' + "\"";
        assert out' == before + PrintAttribute(a);
      }
      PrintedStep(attributes, i);
    }
    assert attributes[..|attributes|] == attributes;
  }

  lemma WrappedText(out: string, open: string, value: string, close: string)
    ensures out + open + value + close == out + (open + value + close)
  {
  }

  method PrintNodeTo(n: Node, out: string) returns (out': string)
    ensures out' == out + Print(n)
    decreases n, 1
  {
    hide Escape, PrintAttributes, PrintAll;
    match n
    case Element(_, _, _, _) => out' := PrintElementTo(n, out);
    case Data(value) => out' := CopyAndExpandChars(value, '\0', out);
    case Cdata(value) =>
      WrappedText(out, "<![CDATA[", value, "]]>");
      out' := out + "<![CDATA[" + value + "]]>";
    case Comment(value) =>
      WrappedText(out, "<!--", value, "-->");
      out' := out + "<!--" + value + "-->";
    case Declaration(attributes) =>
      out' := PrintAttributesTo(attributes, out + "<?xml");
      out' := out' + "?>";
      WrappedText(out, "<?xml", PrintAttributes(attributes), "?>");
    case Doctype(value) =>
      WrappedText(out, "<!DOCTYPE ", value, ">");
      out' := out + "<!DOCTYPE " + value + ">";
    case Pi(name, value) =>
      WrappedText(out, "<?" + name + " ", value, "?>");
      out' := out + "<?" + name + " " + value + "?>";
  }

  lemma ElementText(out: string, name: string, attributes: string, inner: string)
    ensures out + "<" + name + attributes + ">" + inner + "</" + name + ">" ==
            out + ("<" + name + attributes + (">" + inner + "</" + name + ">"))
    ensures out + "<" + name + attributes + "/>" == out + ("<" + name + attributes + "/>")
  {
  }

  lemma SoleData(children: seq<Node>)
    requires |children| == 1 && children[0].Data?
    ensures PrintAll(children) == Escape(children[0].value, '\0')
  {
    hide Escape;
    assert PrintAll(children[1..]) == "";
  }

  method PrintElementTo(n: Node, out: string) returns (out': string)
    requires n.Element?
    ensures out' == out + Print(n)
    decreases n, 0
  {
    hide Escape, PrintAttributes, PrintAll;
    ghost var inner := if n.children == [] then Escape(n.value, '\0') else PrintAll(n.children);
    ElementText(out, n.name, PrintAttributes(n.attributes), inner);
    out' := PrintAttributesTo(n.attributes, out + "<" + n.name);
    if n.value == "" && n.children == [] {
      out' := out' + "/>";
    } else {
      out' := out' + ">";
      if n.children == [] {
        out' := CopyAndExpandChars(n.value, '\0', out');
      } else if |n.children| == 1 && n.children[0].Data? {
        SoleData(n.children);
        out' := CopyAndExpandChars(n.children[0].value, '\0', out');
      } else {
        out' := PrintChildrenTo(n.children, out');
      }
      out' := out' + "</" + n.name + ">";
    }
  }

  method PrintChildrenTo(nodes: seq<Node>, out: string) returns (out': string)
    ensures out' == out + PrintAll(nodes)
    decreases nodes, 2
  {
    hide Print;
    if nodes == [] {
      out' := out;
    } else {
      out' := PrintNodeTo(nodes[0], out);
      out' := PrintChildrenTo(nodes[1..], out');
      assert PrintAll(nodes) == Print(nodes[0]) + PrintAll(nodes[1..]);
    }
  }

  /** Prints a canonical document into a buffer and parses the buffer in place: the nodes in the
      buffer read as the document that was printed. */
  method PrintAndParse(nodes: seq<Node>) returns (text: array<char>, children: seq<NodeRef>)
    requires CanonicalDocument(nodes)
    ensures ReadAll(text[..], children) == nodes && NodesIn(text[..], children, 0, |PrintAll(nodes)|)
  {
    hide PrintAll, ParseDocument, ReadAll, NodesIn, CanonicalAll;
    var out := PrintChildrenTo(nodes, "");
    assert out == PrintAll(nodes);
    text := new char[|out| + 1](i requires 0 <= i < |out| + 1 => if i < |out| then out[i] else '\0');
    assert text[..] == out + ['\0'];
    DocumentBack(nodes, ['\0']);
    var ok;
    ok, children := ParseDocumentAt(text, |out|);
  }
}
