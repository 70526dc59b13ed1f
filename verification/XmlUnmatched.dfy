/** Tags must match: a document in which an element is closed by another name, or not at all, is rejected,
    however deep the element lies. */
module XmlUnmatched {
  import opened XmlText
  import opened XmlTree
  import opened XmlParser
  import opened XmlLayout
  import opened XmlRoundTrip
  import opened XmlInPlace

  lemma OpenRejected(name: string, attributes: seq<LaidAttribute>, end: string, v: string)
    requires LegalName(name) && LegalAttributes(attributes) && White(end) && ParseContents(v, name).Error?
    ensures var t := "<" + name + LayAttributes(attributes) + end + ">" + v;
            At(t, 0) == '<' && ParseNode(t[1..]).Error? && At(t, 1) != '/'
  {
    hide ParseElement, ParseNode, ParseContents, LayAttributes, LegalAttributes;
    var tail := ">" + v;
    var s := name + (LayAttributes(attributes) + (end + tail));
    OpenText(name, LayAttributes(attributes), end, v);
    OpenBack(name, attributes, end, tail);
    assert tail[1..] == v;
    PrefixParts(name, LayAttributes(attributes) + (end + tail));
    ElementDispatch(name, s);
    assert ("<" + s)[1..] == s;
  }

  function OpenTag(f: Frame): string {
    "<" + f.name + LayAttributes(f.attributes) + f.end + ">"
  }

  lemma FramesFirst(frames: seq<Frame>, u: string)
    requires frames != []
    ensures LayFrames(frames) + u == LayAll(frames[0].before) + (OpenTag(frames[0]) + (LayFrames(frames[1..]) + u))
  {
    hide LayAll, LayAttributes;
    var rest := LayFrames(frames[1..]);
    assert LayFrames(frames) == LayAll(frames[0].before) + OpenTag(frames[0]) + rest;
  }

  function Innermost(frames: seq<Frame>, name: string): string {
    if frames == [] then name else frames[|frames| - 1].name
  }

  /** What the innermost open element rejects, all of them reject. */
  lemma {:induction false} InnerRejected(frames: seq<Frame>, name: string, u: string)
    requires LegalFrames(frames) && ParseContents(u, Innermost(frames, name)).Error?
    ensures ParseContents(LayFrames(frames) + u, name).Error?
    decreases |frames|
  {
    hide ParseContents, ParseNode, LayAll, LayAttributes, TreesOf, LegalAll, LegalName, LegalAttributes;
    if frames == [] {
      assert LayFrames(frames) + u == u;
    } else {
      var f, more := frames[0], frames[1..];
      var v := LayFrames(more) + u;
      InnerRejected(more, f.name, u);
      OpenRejected(f.name, f.attributes, f.end, v);
      FramesFirst(frames, u);
      ContentsBack(f.before, name, OpenTag(f) + v);
    }
  }

  lemma NodesRejected(t: string)
    requires At(t, 0) == '<' && ParseNode(t[1..]).Error?
    ensures ParseNodes(t).Error?
  {
    hide ParseNode, Skip;
    SkipNothing(t, Space);
  }

  lemma TopRejected(frames: seq<Frame>, u: string)
    requires frames != [] && LegalFrames(frames) && LegalDocument(frames[0].before)
    requires ParseContents(u, Innermost(frames, "")).Error?
    ensures ParseNodes(LayFrames(frames) + u).Error?
  {
    hide ParseContents, ParseNode, ParseNodes, LayAll, LayAttributes, TreesOf, LegalAll, LegalName, LegalAttributes,
         Skip;
    var f, more := frames[0], frames[1..];
    var v := LayFrames(more) + u;
    InnerRejected(more, f.name, u);
    OpenRejected(f.name, f.attributes, f.end, v);
    FramesFirst(frames, u);
    NodesBack(f.before, OpenTag(f) + v);
    NodesRejected(OpenTag(f) + v);
  }

  lemma {:induction false} FramesHead(frames: seq<Frame>, u: string)
    requires frames != [] && LegalFrames(frames) && LegalDocument(frames[0].before)
    ensures !(BOM <= LayFrames(frames) + u)
  {
    hide LayAll, LayAttributes, LegalAll;
    var t := OpenTag(frames[0]) + (LayFrames(frames[1..]) + u);
    FramesFirst(frames, u);
    HeadOfMarkup(frames[0].before, t);
  }

  /** However deep, the closing tag of an element must repeat its name: a document in which elements are
      open and the innermost one is closed by another name is rejected, whatever follows. */
  lemma MismatchRejected(frames: seq<Frame>, children: seq<Laid>, other: string, close: string, rest: string)
    requires frames != [] && LegalFrames(frames) && LegalDocument(frames[0].before) && LegalAll(children)
    requires AllIn(other, NodeName) && other != frames[|frames| - 1].name && White(close)
    ensures ParseDocument(LayFrames(frames) + LayAll(children) + ("</" + other + close + ">" + rest)).Error?
  {
    hide ParseContents, ParseNodes, LayFrames, LayAll, TreesOf, LegalAll, LegalFrames;
    var name := frames[|frames| - 1].name;
    var t := "</" + other + close + ">" + rest;
    assert t == CloseText(other, close, rest);
    var u := LayAll(children) + t;
    CloseRead(name, other, close, rest);
    ContentsBack(children, name, t);
    TopRejected(frames, u);
    FramesHead(frames, u);
    assert LayFrames(frames) + LayAll(children) + t == LayFrames(frames) + u;
  }

  /** An element that is open where the text ends is rejected. */
  lemma UnclosedRejected(frames: seq<Frame>, children: seq<Laid>, end: string)
    requires frames != [] && LegalFrames(frames) && LegalDocument(frames[0].before) && LegalAll(children)
    requires At(end, 0) == '\0'
    ensures ParseDocument(LayFrames(frames) + LayAll(children) + end).Error?
  {
    hide ParseContents, ParseNodes, LayFrames, LayAll, TreesOf, LegalAll, LegalFrames;
    var u := LayAll(children) + end;
    ContentsBack(children, frames[|frames| - 1].name, end);
    TopRejected(frames, u);
    FramesHead(frames, u);
    assert LayFrames(frames) + LayAll(children) + end == LayFrames(frames) + u;
  }

  /** A buffer in which the innermost open element is closed by another name, or not at all, is rejected. */
  method RejectUnmatched(text: array<char>, ghost frames: seq<Frame>, ghost children: seq<Laid>, ghost other: string,
                         ghost close: string, ghost rest: string)
    returns (ok: bool, nodes: seq<NodeRef>)
    requires frames != [] && LegalFrames(frames) && LegalDocument(frames[0].before) && LegalAll(children)
    requires AllIn(other, NodeName) && other != frames[|frames| - 1].name && White(close)
    requires text[..] == LayFrames(frames) + LayAll(children) + ("</" + other + close + ">" + (rest + ['\0']))
             || text[..] == LayFrames(frames) + LayAll(children) + ['\0']
    modifies text
    ensures !ok
  {
    hide LayAll, LayFrames, ParseDocument, ReadAll, NodesIn, LegalAll, LegalFrames;
    MismatchRejected(frames, children, other, close, rest + ['\0']);
    UnclosedRejected(frames, children, ['\0']);
    assert text[..][|text[..]| - 1] == '\0';
    ok, nodes := ParseDocumentAt(text, text.Length - 1);
  }
}
