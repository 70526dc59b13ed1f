/** The parser itself: it works in the text buffer, expands references there, puts terminators
    behind names and values, and builds nodes that point into the buffer. */
module XmlInPlace {
  import opened Basics
  import opened XmlText
  import opened XmlTree
  import opened XmlParser

  // ---- nodes that point into the buffer ----------------------------------------------

  datatype Slice = Slice(at: nat, size: nat)

  datatype Kind = ElementKind | DataKind | CdataKind | CommentKind | DeclarationKind | DoctypeKind | PiKind

  datatype AttributeRef = AttributeRef(name: Option<Slice>, value: Option<Slice>)

  datatype NodeRef = NodeRef(kind: Kind, name: Option<Slice>, value: Option<Slice>,
                             attributes: seq<AttributeRef>, children: seq<NodeRef>)

  /** A slice inside s[lo..hi] that a terminator follows. */
  ghost predicate SliceIn(s: string, o: Option<Slice>, lo: nat, hi: nat) {
    o.Some? ==> lo <= o.value.at && o.value.at + o.value.size < hi <= |s| && s[o.value.at + o.value.size] == '\0'
  }

  ghost predicate AttributesIn(s: string, attributes: seq<AttributeRef>, lo: nat, hi: nat) {
    forall a :: a in attributes ==> SliceIn(s, a.name, lo, hi) && SliceIn(s, a.value, lo, hi)
  }

  ghost predicate NodeIn(s: string, n: NodeRef, lo: nat, hi: nat)
    decreases n
  {
    SliceIn(s, n.name, lo, hi) && SliceIn(s, n.value, lo, hi) &&
    AttributesIn(s, n.attributes, lo, hi) && NodesIn(s, n.children, lo, hi)
  }

  ghost predicate NodesIn(s: string, ns: seq<NodeRef>, lo: nat, hi: nat)
    decreases ns
  {
    ns == [] || (NodeIn(s, ns[0], lo, hi) && NodesIn(s, ns[1..], lo, hi))
  }

  function Str(s: string, o: Option<Slice>): string {
    if o.Some? && o.value.at + o.value.size <= |s| then s[o.value.at..o.value.at + o.value.size] else ""
  }

  function ReadAttributes(s: string, attributes: seq<AttributeRef>): (r: seq<Attribute>)
    ensures |r| == |attributes|
  {
    if attributes == [] then []
    else [Attribute(Str(s, attributes[0].name), Str(s, attributes[0].value))] + ReadAttributes(s, attributes[1..])
  }

  /** The tree that the references denote. */
  function Read(s: string, n: NodeRef): Node
    decreases n
  {
    match n.kind
    case ElementKind =>
      Element(Str(s, n.name), Str(s, n.value), ReadAttributes(s, n.attributes), ReadAll(s, n.children))
    case DataKind => Data(Str(s, n.value))
    case CdataKind => Cdata(Str(s, n.value))
    case CommentKind => Comment(Str(s, n.value))
    case DeclarationKind => Declaration(ReadAttributes(s, n.attributes))
    case DoctypeKind => Doctype(Str(s, n.value))
    case PiKind => Pi(Str(s, n.name), Str(s, n.value))
  }

  function ReadAll(s: string, ns: seq<NodeRef>): (r: seq<Node>)
    ensures |r| == |ns|
    decreases ns
  {
    if ns == [] then [] else [Read(s, ns[0])] + ReadAll(s, ns[1..])
  }

  /** The buffer changed at most between pos and next, and next is where reading goes on. */
  ghost predicate Left(was: string, now: string, pos: nat, next: nat, nul: nat) {
    pos <= next <= nul < |was| == |now| && now[..pos] == was[..pos] && now[next..] == was[next..]
  }

  // ---- frames ------------------------------------------------------------------------

  ghost predicate Same(s: string, s': string, lo: nat, hi: nat) {
    |s| == |s'| && forall i :: lo <= i < hi && i < |s| ==> s[i] == s'[i]
  }

  lemma SliceFrame(s: string, s': string, o: Option<Slice>, lo: nat, hi: nat, lo': nat, hi': nat)
    requires SliceIn(s, o, lo, hi) && Same(s, s', lo, hi) && lo' <= lo && hi <= hi' <= |s|
    ensures SliceIn(s', o, lo', hi') && Str(s', o) == Str(s, o)
  {
  }

  lemma {:induction false} AttributesFrame(s: string, s': string, attributes: seq<AttributeRef>,
                                           lo: nat, hi: nat, lo': nat, hi': nat)
    requires AttributesIn(s, attributes, lo, hi) && Same(s, s', lo, hi) && lo' <= lo && hi <= hi' <= |s|
    ensures AttributesIn(s', attributes, lo', hi') && ReadAttributes(s', attributes) == ReadAttributes(s, attributes)
  {
    if attributes != [] {
      SliceFrame(s, s', attributes[0].name, lo, hi, lo', hi');
      SliceFrame(s, s', attributes[0].value, lo, hi, lo', hi');
      AttributesFrame(s, s', attributes[1..], lo, hi, lo', hi');
      assert attributes == [attributes[0]] + attributes[1..];
    }
  }

  /** A change outside of its region does not touch a node, and the region may be widened. */
  lemma {:induction false} NodeFrame(s: string, s': string, n: NodeRef, lo: nat, hi: nat, lo': nat, hi': nat)
    requires NodeIn(s, n, lo, hi) && Same(s, s', lo, hi) && lo' <= lo && hi <= hi' <= |s|
    ensures NodeIn(s', n, lo', hi') && Read(s', n) == Read(s, n)
    decreases n
  {
    hide SliceIn, Str, Same;
    SliceFrame(s, s', n.name, lo, hi, lo', hi');
    SliceFrame(s, s', n.value, lo, hi, lo', hi');
    AttributesFrame(s, s', n.attributes, lo, hi, lo', hi');
    NodesFrame(s, s', n.children, lo, hi, lo', hi');
  }

  lemma {:induction false} NodesFrame(s: string, s': string, ns: seq<NodeRef>, lo: nat, hi: nat, lo': nat, hi': nat)
    requires NodesIn(s, ns, lo, hi) && Same(s, s', lo, hi) && lo' <= lo && hi <= hi' <= |s|
    ensures NodesIn(s', ns, lo', hi') && ReadAll(s', ns) == ReadAll(s, ns)
    decreases ns
  {
    hide Same;
    if ns != [] {
      NodeFrame(s, s', ns[0], lo, hi, lo', hi');
      NodesFrame(s, s', ns[1..], lo, hi, lo', hi');
    }
  }

  lemma {:induction false} NodesAppend(s: string, ns: seq<NodeRef>, n: NodeRef, lo: nat, hi: nat)
    requires NodesIn(s, ns, lo, hi) && NodeIn(s, n, lo, hi)
    ensures NodesIn(s, ns + [n], lo, hi) && ReadAll(s, ns + [n]) == ReadAll(s, ns) + [Read(s, n)]
    decreases ns
  {
    hide NodeIn, Read;
    if ns == [] {
      assert ns + [n] == [n];
      assert ReadAll(s, [n]) == [Read(s, n)] + ReadAll(s, []);
    } else {
      NodesAppend(s, ns[1..], n, lo, hi);
      assert (ns + [n])[1..] == ns[1..] + [n];
    }
  }

  lemma {:induction false} AttributesAppend(s: string, attributes: seq<AttributeRef>, a: AttributeRef)
    ensures ReadAttributes(s, attributes + [a]) ==
            ReadAttributes(s, attributes) + [Attribute(Str(s, a.name), Str(s, a.value))]
  {
    hide Str;
    if attributes == [] {
      assert attributes + [a] == [a];
      assert ReadAttributes(s, [a]) == [Attribute(Str(s, a.name), Str(s, a.value))] + ReadAttributes(s, []);
    } else {
      AttributesAppend(s, attributes[1..], a);
      assert (attributes + [a])[1..] == attributes[1..] + [a];
    }
  }

  // ---- scanning ----------------------------------------------------------------------

  lemma RunStep(t: string, class_: CharClass)
    requires t != ""
    ensures Run(t, class_) == if In(t[0], class_) then 1 + Run(t[1..], class_) else 0
  {
  }

  lemma SkipIs(t: string, class_: CharClass, n: nat)
    requires n == Run(t, class_)
    ensures n <= |t| && Skip(t, class_) == t[n..]
  {
  }

  /** Passes the characters of the class. */
  method SkipRun(text: array<char>, pos: nat, class_: CharClass, ghost nul: nat) returns (next: nat)
    requires pos <= nul < text.Length && text[nul] == '\0'
    ensures pos <= next <= nul && next == pos + Run(text[pos..], class_)
    ensures text[next..] == Skip(text[pos..], class_) && !In(text[next], class_)
  {
    hide Run, Skip;
    next := pos;
    while In(text[next], class_)
      invariant pos <= next <= nul
      invariant Run(text[pos..], class_) == next - pos + Run(text[next..], class_)
      decreases nul - next
    {
      RunStep(text[next..], class_);
      assert text[next..][1..] == text[next + 1..];
      next := next + 1;
    }
    RunStep(text[next..], class_);
    SkipIs(text[pos..], class_, next - pos);
    assert text[next..] == text[pos..][next - pos..];
  }

  lemma BeforeTerminator(t: string, mark: string, nul: nat)
    requires mark <= t && Plain(mark) && nul < |t| && t[nul] == '\0'
    ensures |mark| <= nul
  {
    forall i | 0 <= i < |mark| ensures mark[i] == t[i] != '\0' {
    }
  }

  /** Looks for the mark that ends a construct. */
  method FindMark(text: array<char>, pos: nat, mark: string, ghost nul: nat) returns (found: bool, at: nat)
    requires pos <= nul < text.Length && text[nul] == '\0' && Plain(mark)
    ensures found == Find(text[pos..], mark).Some?
    ensures found ==> Find(text[pos..], mark) == Some(at - pos) && pos <= at && at + |mark| <= nul
  {
    found, at := true, pos;
    ghost var rest := Find(text[pos..], mark);
    while !LooksAt(text, at, mark)
      invariant pos <= at <= nul
      invariant rest == Find(text[at..], mark)
      invariant Find(text[pos..], mark) == if rest.Some? then Some(rest.value + at - pos) else None
      decreases nul - at
    {
      if text[at] == '\0' {
        found := false;
        return;
      }
      assert text[at..][1..] == text[at + 1..];
      at := at + 1;
      rest := Find(text[at..], mark);
    }
    BeforeTerminator(text[at..], mark, nul - at);
  }

  /** A comment or CDATA text: everything up to the mark, as it stands. */
  method ParseVerbatim(text: array<char>, pos: nat, mark: string, ghost nul: nat)
    returns (ok: bool, next: nat, value: Option<Slice>)
    requires pos <= nul < text.Length && text[nul] == '\0' && Plain(mark) && mark != ""
    modifies text
    ensures match Upto(old(text[pos..]), mark)
      case Error => !ok
      case Ok(v, rest) => (
        ok && Left(old(text[..]), text[..], pos, next, nul) && rest == text[next..]
        && value.Some? && SliceIn(text[..], value, pos, next) && Str(text[..], value) == v)
  {
    next, value := pos, None;
    var end;
    ok, end := FindMark(text, pos, mark, nul);
    if ok {
      ghost var was := text[..];
      value := Some(Slice(pos, end - pos));
      text[end] := '\0';
      next := end + |mark|;
      assert text[next..] == was[next..] == was[pos..][next - pos..];
      assert text[pos..end] == was[pos..][..end - pos];
    }
  }

  lemma DropDrop(s: string, a: nat, b: nat)
    requires a + b <= |s|
    ensures s[a..][b..] == s[a + b..]
  {
  }

  lemma TakeOfDrop(s: string, a: nat, b: nat)
    requires a + b <= |s|
    ensures s[a..][..b] == s[a..a + b]
  {
  }

  lemma PartOfDrop(s: string, a: nat, b: nat, c: nat)
    requires a + b <= a + c <= |s|
    ensures s[a..][b..c] == s[a + b..a + c]
  {
  }

  /** A terminator behind a slice, with reading going on further behind. */
  lemma Terminated(was: string, now: string, pos: nat, end: nat, next: nat, nul: nat)
    requires pos <= end < next <= nul < |was| && now == was[end := '\0']
    ensures Left(was, now, pos, next, nul)
    ensures var o := Some(Slice(pos, end - pos)); SliceIn(now, o, pos, next) && Str(now, o) == was[pos..end]
  {
  }

  // ---- attributes --------------------------------------------------------------------

  /** What the head of an attribute is, given where its name ends and where the '=' must stand. */
  lemma HeadAt(t: string, n: nat, e: nat)
    requires In(At(t, 0), AttributeName) && n == Run(t, AttributeName) <= e <= |t| && t[e..] == Skip(t[n..], Space)
    ensures At(t, e) != '=' ==> AttributeHead(t).Error?
    ensures At(t, e) == '=' ==>
              var (r, t2) := (AttributeHead(t), Skip(t[e + 1..], Space));
              r.Ok? == (At(t2, 0) in {'\'', '"'}) && (r.Ok? ==> r.value == t[..n] && r.rest == t2)
  {
    hide Run, Skip, In;
    if e < |t| {
      DropDrop(t, e, 1);
    }
  }

  /** The name of an attribute, which gets its terminator once the '=' was read. */
  method AttributeHeadAt(text: array<char>, pos: nat, ghost nul: nat)
    returns (ok: bool, next: nat, name: Option<Slice>)
    requires pos <= nul < text.Length && text[nul] == '\0' && In(text[pos], AttributeName)
    modifies text
    ensures match AttributeHead(old(text[pos..]))
      case Error => !ok
      case Ok(v, rest) => (
        ok && Left(old(text[..]), text[..], pos, next, nul) && next < nul && rest == text[next..]
        && SliceIn(text[..], name, pos, next) && Str(text[..], name) == v)
  {
    hide AttributeHead, Run, Skip, In, Left, SliceIn, Str;
    ghost var was, t := text[..], text[pos..];
    ok, next, name := false, pos, None;
    var nameEnd := SkipRun(text, pos, AttributeName, nul);
    assert text[nameEnd..] == t[nameEnd - pos..];
    var equals := SkipRun(text, nameEnd, Space, nul);
    assert text[equals..] == t[equals - pos..];
    HeadAt(t, nameEnd - pos, equals - pos);
    assert t[equals - pos] == text[equals];
    if text[equals] == '=' {
      ghost var behind := text[equals + 1..];
      assert behind == t[equals + 1 - pos..];
      text[nameEnd] := '\0';
      assert text[equals + 1..] == behind;
      next := SkipRun(text, equals + 1, Space, nul);
      ok := text[next] == '\'' || text[next] == '"';
      assert At(text[next..], 0) == text[next];
      name := Some(Slice(pos, nameEnd - pos));
      Terminated(was, text[..], pos, nameEnd, next, nul);
      assert was[pos..nameEnd] == t[..nameEnd - pos];
    }
  }

  /** What the value of an attribute is, given its expansion. */
  lemma ValueAt(t: string)
    requires At(t, 0) in {'\'', '"'}
    ensures var (r, x) := (AttributeValue(t), Expand(t[1..], t[0]));
            && r.Ok? == (x.Expanded? && At(x.rest, 0) == t[0])
            && (r.Ok? ==> r.value == x.out && r.rest == Skip(x.rest[1..], Space))
  {
    hide Expand, Skip;
  }

  /** A value that was expanded in place gets its terminator. */
  lemma ValueTerminated(was: string, mid: string, now: string, pos: nat, end: nat, close: nat, next: nat, nul: nat)
    requires pos < end <= close < next <= nul < |was| == |mid| && now == mid[end := '\0']
    requires mid[..pos + 1] == was[..pos + 1] && mid[close..] == was[close..]
    ensures Left(was, now, pos, next, nul)
    ensures var o := Some(Slice(pos + 1, end - pos - 1)); SliceIn(now, o, pos, next) && Str(now, o) == mid[pos + 1..end]
  {
    assert now[..pos] == mid[..pos + 1][..pos] == was[..pos];
    assert now[next..] == mid[close..][next - close..] == was[next..];
  }

  method AttributeValueAt(text: array<char>, pos: nat, ghost nul: nat)
    returns (ok: bool, next: nat, value: Option<Slice>)
    requires pos < nul < text.Length && text[nul] == '\0' && (text[pos] == '\'' || text[pos] == '"')
    modifies text
    ensures match AttributeValue(old(text[pos..]))
      case Error => !ok
      case Ok(v, rest) => (
        ok && Left(old(text[..]), text[..], pos, next, nul) && pos < next && rest == text[next..]
        && SliceIn(text[..], value, pos, next) && Str(text[..], value) == v)
  {
    hide AttributeValue, Expand, Run, Skip, Left, SliceIn, Str;
    ghost var was, t := text[..], text[pos..];
    assert t[1..] == text[pos + 1..];
    ValueAt(t);
    var quote := text[pos];
    var close, end;
    next, value := pos, None;
    ok, close, end := SkipAndExpand(text, pos + 1, quote, nul);
    ghost var mid := text[..];
    ok := ok && text[close] == quote;
    if ok {
      ghost var behind := text[close + 1..];
      assert text[close..][1..] == behind;
      text[end] := '\0';
      assert text[close + 1..] == behind;
      next := SkipRun(text, close + 1, Space, nul);
      value := Some(Slice(pos + 1, end - pos - 1));
      ValueTerminated(was, mid, text[..], pos, end, close, next, nul);
    }
  }

  /** One attribute and the white space behind it. */
  method ParseAttributeAt(text: array<char>, pos: nat, ghost nul: nat)
    returns (ok: bool, next: nat, a: AttributeRef)
    requires pos <= nul < text.Length && text[nul] == '\0' && In(text[pos], AttributeName)
    modifies text
    ensures match ParseAttribute(old(text[pos..]))
      case Error => !ok
      case Ok(v, rest) => (
        ok && Left(old(text[..]), text[..], pos, next, nul) && pos < next && rest == text[next..]
        && SliceIn(text[..], a.name, pos, next) && SliceIn(text[..], a.value, pos, next)
        && v == Attribute(Str(text[..], a.name), Str(text[..], a.value)))
  {
    hide AttributeHead, AttributeValue, SliceIn, Str, In;
    var name, value;
    ok, next, name := AttributeHeadAt(text, pos, nul);
    a := AttributeRef(name, None);
    if ok {
      ghost var was, middle := text[..], next;
      assert text[nul] == text[next..][nul - next];
      ok, next, value := AttributeValueAt(text, next, nul);
      if ok {
        a := AttributeRef(name, value);
        SliceFrame(was, text[..], name, pos, middle, pos, next);
        SliceFrame(text[..], text[..], value, middle, next, pos, next);
      }
    }
  }

  /** A list continued by what a later parse returns. */
  function Then<T>(front: seq<T>, r: Parsed<seq<T>>): Parsed<seq<T>> {
    match r
    case Error => Error
    case Ok(more, rest) => Ok(front + more, rest)
  }

  lemma AttributesStep(t: string, front: seq<Attribute>)
    requires In(At(t, 0), AttributeName)
    ensures Then(front, ParseAttributes(t)) == match ParseAttribute(t)
      case Error => Error
      case Ok(a, rest) => Then(front + [a], ParseAttributes(rest))
  {
    hide ParseAttribute;
    match ParseAttribute(t)
    case Error =>
    case Ok(a, rest) =>
      match ParseAttributes(rest)
      case Error =>
      case Ok(more, _) => assert front + ([a] + more) == front + [a] + more;
  }

  lemma ThenNothing<T>(r: Parsed<seq<T>>)
    ensures Then([], r) == r
  {
    match r
    case Error =>
    case Ok(more, _) => assert [] + more == more;
  }

  lemma AttributesEnd(t: string, front: seq<Attribute>)
    requires !In(At(t, 0), AttributeName)
    ensures Then(front, ParseAttributes(t)) == Ok(front, t)
  {
    assert front + [] == front;
  }

  /** Two stretches one after the other, and what the second leaves alone in the first. */
  lemma LeftTwice(was: string, now: string, then_: string, pos: nat, middle: nat, next: nat, nul: nat)
    requires Left(was, now, pos, middle, nul) && Left(now, then_, middle, next, nul)
    ensures Left(was, then_, pos, next, nul) && Same(now, then_, pos, middle) && Same(was, then_, 0, pos)
    ensures now[nul] == then_[nul] == was[nul]
  {
    assert then_[..pos] == then_[..middle][..pos] == now[..middle][..pos];
    assert now[next..] == now[middle..][next - middle..] == was[middle..][next - middle..] == was[next..];
    forall i | 0 <= i < middle ensures now[i] == then_[i] {
      assert now[..middle][i] == then_[..middle][i];
    }
    forall i | 0 <= i < pos ensures was[i] == then_[i] {
      assert was[..pos][i] == then_[..pos][i];
    }
    assert now[nul] == now[next..][nul - next] && then_[nul] == then_[next..][nul - next];
  }

  /** All attributes of a node. */
  method ParseAttributesAt(text: array<char>, pos: nat, ghost nul: nat)
    returns (ok: bool, next: nat, attributes: seq<AttributeRef>)
    requires pos <= nul < text.Length && text[nul] == '\0'
    modifies text
    ensures match ParseAttributes(old(text[pos..]))
      case Error => !ok
      case Ok(v, rest) => (
        ok && Left(old(text[..]), text[..], pos, next, nul) && rest == text[next..]
        && AttributesIn(text[..], attributes, pos, next) && ReadAttributes(text[..], attributes) == v)
    ensures ok && !In(old(text[pos]), AttributeName) ==> next == pos && attributes == []
  {
    hide ParseAttribute, ParseAttributes, SliceIn, Str, In;
    ghost var was := text[..];
    ok, next, attributes := true, pos, [];
    ghost var goal := ParseAttributes(text[pos..]);
    assert goal == Then(ReadAttributes(text[..], []), goal) by { ThenNothing(goal); }
    while In(text[next], AttributeName)
      invariant ok && Left(was, text[..], pos, next, nul) && text[nul] == '\0'
      invariant AttributesIn(text[..], attributes, pos, next)
      invariant goal == Then(ReadAttributes(text[..], attributes), ParseAttributes(text[next..]))
      invariant !In(was[pos], AttributeName) ==> next == pos && attributes == []
      decreases nul - next
    {
      ghost var now, middle := text[..], next;
      assert now[next..] == text[next..];
      AttributesStep(text[next..], ReadAttributes(now, attributes));
      var a;
      ok, next, a := ParseAttributeAt(text, next, nul);
      if !ok {
        return;
      }
      LeftTwice(was, now, text[..], pos, middle, next, nul);
      AttributesFrame(now, text[..], attributes, pos, middle, pos, next);
      SliceFrame(text[..], text[..], a.name, middle, next, pos, next);
      SliceFrame(text[..], text[..], a.value, middle, next, pos, next);
      AttributesAppend(text[..], attributes, a);
      attributes := attributes + [a];
    }
    AttributesEnd(text[next..], ReadAttributes(text[..], attributes));
  }

  // ---- nodes without children --------------------------------------------------------

  /** What a node method leaves: a node in its stretch of the buffer that reads as v. */
  ghost predicate Stands(s: string, node: Option<NodeRef>, v: Option<Node>, lo: nat, hi: nat) {
    node.Some? == v.Some? && (node.Some? ==> NodeIn(s, node.value, lo, hi) && Read(s, node.value) == v.value)
  }

  function Leaf(kind: Kind, value: Option<Slice>): NodeRef {
    NodeRef(kind, None, value, [], [])
  }

  lemma LeafStands(s: string, kind: Kind, name: Option<Slice>, value: Option<Slice>, lo: nat, hi: nat)
    requires SliceIn(s, name, lo, hi) && SliceIn(s, value, lo, hi)
    requires kind != ElementKind && kind != DeclarationKind
    ensures var n := NodeRef(kind, name, value, [], []);
            NodeIn(s, n, lo, hi) && Read(s, n) == match kind
              case DataKind => Data(Str(s, value))
              case CdataKind => Cdata(Str(s, value))
              case CommentKind => Comment(Str(s, value))
              case DoctypeKind => Doctype(Str(s, value))
              case _ => Pi(Str(s, name), Str(s, value))
  {
    hide SliceIn, Str;
  }

  lemma DeclarationStands(s: string, attributes: seq<AttributeRef>, v: seq<Attribute>, lo: nat, hi: nat)
    requires AttributesIn(s, attributes, lo, hi) && ReadAttributes(s, attributes) == v
    ensures Stands(s, Some(NodeRef(DeclarationKind, None, None, attributes, [])), Some(Declaration(v)), lo, hi)
  {
    hide ReadAttributes;
    assert NodesIn(s, [], lo, hi);
  }

  /** The end of a declaration. */
  method EndsHere(text: array<char>, pos: nat, ghost nul: nat) returns (ok: bool)
    requires pos <= nul < text.Length && text[nul] == '\0'
    ensures ok == ("?>" <= text[pos..])
    ensures ok ==> pos + 2 <= nul && text[pos..][2..] == text[pos + 2..]
  {
    ok := LooksAt(text, pos, "?>");
    if ok {
      BeforeTerminator(text[pos..], "?>", nul - pos);
    }
  }

  lemma LeftWiden(was: string, now: string, pos: nat, next: nat, nul: nat, pos': nat, next': nat)
    requires Left(was, now, pos, next, nul) && pos' <= pos && next <= next' <= nul
    ensures Left(was, now, pos', next', nul) && now[nul] == was[nul]
    ensures |now| == |was| && now[next..] == was[next..]
  {
    assert now[..pos'] == now[..pos][..pos'] == was[..pos'];
    assert now[next'..] == now[next..][next' - next..] == was[next'..];
    assert now[nul] == now[next..][nul - next] && was[nul] == was[next..][nul - next];
  }

  method ParseDeclarationAt(text: array<char>, pos: nat, ghost nul: nat)
    returns (ok: bool, next: nat, node: Option<NodeRef>)
    requires pos <= nul < text.Length && text[nul] == '\0'
    modifies text
    ensures match ParseDeclaration(old(text[pos..]))
      case Error => !ok
      case Ok(v, rest) => (
        ok && Left(old(text[..]), text[..], pos, next, nul) && rest == text[next..]
        && Stands(text[..], node, v, pos, next))
  {
    hide ParseAttributes, AttributesIn, ReadAttributes, Run, Skip, LooksAt, Stands, In, SliceIn, Str, NodeIn, Read;
    ghost var was := text[..];
    node := None;
    var start := SkipRun(text, pos, Space, nul);
    var attributes;
    ok, next, attributes := ParseAttributesAt(text, start, nul);
    if ok {
      LeftWiden(was, text[..], start, next, nul, pos, next);
      ok := EndsHere(text, next, nul);
      if ok {
        LeftWiden(was, text[..], start, next, nul, pos, next + 2);
        AttributesFrame(text[..], text[..], attributes, start, next, pos, next + 2);
        DeclarationStands(text[..], attributes, ReadAttributes(text[..], attributes), pos, next + 2);
        next := next + 2;
        node := Some(NodeRef(DeclarationKind, None, None, attributes, []));
      }
    }
  }

  lemma UptoAt(t: string, s: nat, mark: string)
    requires s <= |t|
    ensures var (r, u) := (Find(t[s..], mark), Upto(t[s..], mark));
            && u.Ok? == r.Some?
            && (u.Ok? ==> u.value == t[s..s + r.value] && u.rest == t[s + r.value + |mark|..])
  {
    hide Find;
    var r := Find(t[s..], mark);
    if r.Some? {
      TakeOfDrop(t, s, r.value);
      DropDrop(t, s, r.value + |mark|);
    }
  }

  /** A value that follows its target at once loses its first character. */
  function PiValue(value: string, apart: bool): string {
    if apart || value == "" then value else value[0 := '\0']
  }

  lemma PiForm(t: string)
    ensures var (n, e) := (Run(t, NodeName), ParsePi(t));
            var u := Upto(Skip(t[n..], Space), "?>");
            && e.Ok? == (n > 0 && u.Ok?)
            && (e.Ok? ==> e.rest == u.rest && e.value == Some(Pi(t[..n], PiValue(u.value, In(At(t, n), Space)))))
  {
    hide Run, Upto, Skip, In;
  }

  lemma RunStarts(t: string, class_: CharClass)
    ensures Run(t, class_) > 0 <==> In(At(t, 0), class_)
  {
    hide In;
  }

  lemma PiApart(t: string, n: nat)
    requires n <= |t|
    ensures In(At(t, n), Space) == (Run(t[n..], Space) > 0)
  {
    RunStarts(t[n..], Space);
  }

  /** What a processing instruction is, given where its target ends, where its value begins and where
      that ends, if it does. */
  lemma PiAt(t: string, n: nat, s: nat, apart: bool, found: bool, e: nat)
    requires 0 < n == Run(t, NodeName) <= s <= |t| && t[s..] == Skip(t[n..], Space) && s == n + Run(t[n..], Space)
    requires apart == (s > n) && found == Find(t[s..], "?>").Some?
    requires found ==> s <= e && e + 2 <= |t| && Find(t[s..], "?>") == Some(e - s)
    ensures var p := ParsePi(t);
            && p.Ok? == found
            && (found ==> p.rest == t[e + 2..] && p.value == Some(Pi(t[..n], PiValue(t[s..e], apart))))
  {
    hide ParsePi, PiValue, Run, Find, In, Upto, Skip, At;
    PiForm(t);
    UptoAt(t, s, "?>");
    PiApart(t, n);
    assert apart == In(At(t, n), Space);
  }

  /** A node with the target and value of the instruction stands for what is parsed. */
  lemma PiStands(t: string, n: nat, s: nat, apart: bool, e: nat, now: string, node: Option<NodeRef>, lo: nat, hi: nat)
    requires 0 < n == Run(t, NodeName) <= s <= e && e + 2 <= |t|
    requires t[s..] == Skip(t[n..], Space) && s == n + Run(t[n..], Space)
    requires apart == (s > n) && Find(t[s..], "?>") == Some(e - s)
    requires Stands(now, node, Some(Pi(t[..n], PiValue(t[s..e], apart))), lo, hi)
    ensures var p := ParsePi(t); p.Ok? && p.rest == t[e + 2..] && Stands(now, node, p.value, lo, hi)
  {
    hide ParsePi, PiValue, Run, Find, Skip, Stands;
    PiAt(t, n, s, apart, true, e);
  }

  lemma PiText(was: string, now: string, pos: nat, nameEnd: nat, start: nat, end: nat)
    requires pos <= nameEnd <= start <= end < |was| && now == was[nameEnd := '\0'][end := '\0']
    ensures Str(now, Some(Slice(pos, nameEnd - pos))) == was[pos..nameEnd]
    ensures var value := was[start..end];
            Str(now, Some(Slice(start, end - start))) == PiValue(value, start > nameEnd)
  {
    var value := was[start..end];
    assert now[pos..nameEnd] == was[pos..nameEnd];
    if start == nameEnd && value != "" {
      assert now[start..end] == value[0 := '\0'];
    } else {
      assert now[start..end] == value;
    }
  }

  lemma PiTerminated(was: string, now: string, pos: nat, nameEnd: nat, start: nat, end: nat, nul: nat,
                     target: string, value: string, apart: bool)
    requires pos <= nameEnd <= start <= end && end + 2 <= nul < |was| && now == was[nameEnd := '\0'][end := '\0']
    requires target == was[pos..nameEnd] && value == was[start..end] && apart == (start > nameEnd)
    ensures Left(was, now, pos, end + 2, nul)
    ensures var n := NodeRef(PiKind, Some(Slice(pos, nameEnd - pos)), Some(Slice(start, end - start)), [], []);
            Stands(now, Some(n), Some(Pi(target, PiValue(value, apart))), pos, end + 2)
  {
    PiText(was, now, pos, nameEnd, start, end);
    LeafStands(now, PiKind, Some(Slice(pos, nameEnd - pos)), Some(Slice(start, end - start)), pos, end + 2);
    assert now[..pos] == was[..pos] && now[end + 2..] == was[end + 2..];
  }

  /** The terminators of target and value are written, the first one perhaps over the value. */
  method FinishPi(text: array<char>, pos: nat, nameEnd: nat, start: nat, end: nat, ghost nul: nat,
                  ghost t: string, ghost n: nat, ghost s: nat, ghost e: nat, ghost apart: bool)
    returns (node: Option<NodeRef>)
    requires nameEnd == pos + n && start == pos + s && end == pos + e && end + 2 <= nul < text.Length
    requires t == text[pos..] && 0 < n == Run(t, NodeName) <= s <= e
    requires t[s..] == Skip(t[n..], Space) && s == n + Run(t[n..], Space)
    requires apart == (s > n) && Find(t[s..], "?>") == Some(e - s)
    modifies text
    ensures Left(old(text[..]), text[..], pos, end + 2, nul)
    ensures var p := ParsePi(t); p.Ok? && p.rest == text[end + 2..] && Stands(text[..], node, p.value, pos, end + 2)
  {
    hide PiValue, Stands, Left, ParsePi, Run, Skip, Find;
    ghost var was := text[..];
    assert t == was[pos..];
    PartOfDrop(was, pos, s, e);
    TakeOfDrop(was, pos, n);
    DropDrop(was, pos, e + 2);
    text[nameEnd] := '\0';
    text[end] := '\0';
    assert text[end + 2..] == was[end + 2..];
    node := Some(NodeRef(PiKind, Some(Slice(pos, nameEnd - pos)), Some(Slice(start, end - start)), [], []));
    PiTerminated(was, text[..], pos, nameEnd, start, end, nul, t[..n], t[s..e], apart);
    PiStands(t, n, s, apart, e, text[..], node, pos, end + 2);
  }

  method ParsePiAt(text: array<char>, pos: nat, ghost nul: nat)
    returns (ok: bool, next: nat, node: Option<NodeRef>)
    requires pos <= nul < text.Length && text[nul] == '\0'
    modifies text
    ensures match ParsePi(old(text[pos..]))
      case Error => !ok
      case Ok(v, rest) => (
        ok && Left(old(text[..]), text[..], pos, next, nul) && rest == text[next..]
        && Stands(text[..], node, v, pos, next))
  {
    hide ParsePi, PiValue, Find, Run, Skip, Stands, Left, In, At, LooksAt;
    ghost var t := text[pos..];
    ok, next, node := false, pos, None;
    var nameEnd := SkipRun(text, pos, NodeName, nul);
    assert text[nameEnd..] == t[nameEnd - pos..];
    var start := SkipRun(text, nameEnd, Space, nul);
    assert text[start..] == t[start - pos..];
    if nameEnd == pos {
      PiForm(t);
      return;
    }
    var end;
    ok, end := FindMark(text, start, "?>", nul);
    ghost var apart := start > nameEnd;
    assert ok ==> Find(t[start - pos..], "?>") == Some(end - pos - (start - pos));
    if !ok {
      PiAt(t, nameEnd - pos, start - pos, apart, false, 0);
    } else {
      next := end + 2;
      node := FinishPi(text, pos, nameEnd, start, end, nul, t, nameEnd - pos, start - pos, end - pos, apart);
    }
  }

  function Further(n: nat, r: Option<nat>): Option<nat> {
    match r
    case None => None
    case Some(m) => Some(n + m)
  }

  lemma DoctypeStep(t: string, depth: nat)
    requires t != ""
    ensures DoctypeLength(t, depth) ==
            if depth == 0 && t[0] == '>' then Some(0)
            else if t[0] == '\0' then None
            else Further(1, DoctypeLength(t[1..], if t[0] == '[' then depth + 1
                                                  else if t[0] == ']' && depth > 0 then depth - 1 else depth))
  {
  }

  method FindDoctypeEnd(text: array<char>, pos: nat, ghost nul: nat) returns (found: bool, at: nat)
    requires pos <= nul < text.Length && text[nul] == '\0'
    ensures found == DoctypeLength(text[pos..], 0).Some?
    ensures found ==> pos <= at < nul && DoctypeLength(text[pos..], 0) == Some(at - pos)
  {
    hide DoctypeLength;
    found, at := true, pos;
    var depth: nat := 0;
    while depth > 0 || text[at] != '>'
      invariant pos <= at <= nul
      invariant DoctypeLength(text[pos..], 0) == Further(at - pos, DoctypeLength(text[at..], depth))
      decreases nul - at
    {
      DoctypeStep(text[at..], depth);
      assert text[at..][1..] == text[at + 1..];
      if text[at] == '\0' {
        found := false;
        return;
      }
      if text[at] == '[' {
        depth := depth + 1;
      } else if text[at] == ']' && depth > 0 {
        depth := depth - 1;
      }
      at := at + 1;
    }
    DoctypeStep(text[at..], depth);
  }

  method ParseDoctypeAt(text: array<char>, pos: nat, ghost nul: nat)
    returns (ok: bool, next: nat, node: Option<NodeRef>)
    requires pos <= nul < text.Length && text[nul] == '\0'
    modifies text
    ensures match ParseDoctype(old(text[pos..]))
      case Error => !ok
      case Ok(v, rest) => (
        ok && Left(old(text[..]), text[..], pos, next, nul) && rest == text[next..]
        && Stands(text[..], node, v, pos, next))
  {
    hide DoctypeLength;
    ghost var was := text[..];
    next, node := pos, None;
    var end;
    ok, end := FindDoctypeEnd(text, pos, nul);
    if ok {
      var value := Some(Slice(pos, end - pos));
      node := Some(Leaf(DoctypeKind, value));
      text[end] := '\0';
      next := end + 1;
      assert text[pos..end] == was[pos..][..end - pos];
      assert text[next..] == was[pos..][end - pos + 1..];
      LeafStands(text[..], DoctypeKind, None, value, pos, next);
    }
  }

  method ParseCommentAt(text: array<char>, pos: nat, ghost nul: nat)
    returns (ok: bool, next: nat, node: Option<NodeRef>)
    requires pos <= nul < text.Length && text[nul] == '\0'
    modifies text
    ensures match ParseComment(old(text[pos..]))
      case Error => !ok
      case Ok(v, rest) => (
        ok && Left(old(text[..]), text[..], pos, next, nul) && rest == text[next..]
        && Stands(text[..], node, v, pos, next))
  {
    hide Upto, NodeIn, Read;
    node := None;
    var value;
    ok, next, value := ParseVerbatim(text, pos, "-->", nul);
    if ok {
      LeafStands(text[..], CommentKind, None, value, pos, next);
      node := Some(Leaf(CommentKind, value));
    }
  }

  method ParseCdataAt(text: array<char>, pos: nat, ghost nul: nat)
    returns (ok: bool, next: nat, node: Option<NodeRef>)
    requires pos <= nul < text.Length && text[nul] == '\0'
    modifies text
    ensures match ParseCdata(old(text[pos..]))
      case Error => !ok
      case Ok(v, rest) => (
        ok && Left(old(text[..]), text[..], pos, next, nul) && rest == text[next..]
        && Stands(text[..], node, v, pos, next))
  {
    hide Upto, NodeIn, Read;
    node := None;
    var value;
    ok, next, value := ParseVerbatim(text, pos, "]]>", nul);
    if ok {
      LeafStands(text[..], CdataKind, None, value, pos, next);
      node := Some(Leaf(CdataKind, value));
    }
  }

  // ---- element contents --------------------------------------------------------------

  /** A data node's text; ch is the character that ends it, which the terminator may overwrite. */
  method ParseDataAt(text: array<char>, pos: nat, ghost nul: nat)
    returns (ok: bool, next: nat, value: Option<Slice>, ch: char)
    requires pos <= nul < text.Length && text[nul] == '\0'
    modifies text
    ensures match Expand(old(text[pos..]), '<')
      case Failed => !ok
      case Expanded(out, rest) => (
        ok && pos <= next <= nul && ch == old(text[..])[next] && rest == old(text[..])[next..]
        && text[..pos] == old(text[..pos]) && text[next + 1..] == old(text[..])[next + 1..]
        && value.Some? && SliceIn(text[..], value, pos, next + 1) && Str(text[..], value) == out)
  {
    hide Expand;
    ghost var was := text[..];
    value, ch := None, '\0';
    var end;
    ok, next, end := SkipAndExpand(text, pos, '<', nul);
    if ok {
      assert text[next..][1..] == text[next + 1..] && was[next..][1..] == was[next + 1..];
      value := Some(Slice(pos, end - pos));
      assert text[next] == text[next..][0] == was[next..][0];
      ch := text[next];
      text[end] := '\0';
    }
  }

  method Compare(text: array<char>, a: nat, sizeA: nat, b: nat, sizeB: nat) returns (same: bool)
    requires a + sizeA <= text.Length && b + sizeB <= text.Length
    ensures same == (text[a..a + sizeA] == text[b..b + sizeB])
  {
    if sizeA != sizeB {
      return false;
    }
    var i := 0;
    while i < sizeA
      invariant i <= sizeA
      invariant text[a..a + i] == text[b..b + i]
    {
      if text[a + i] != text[b + i] {
        assert text[a..a + sizeA][i] != text[b..b + sizeB][i];
        return false;
      }
      i := i + 1;
    }
    return true;
  }

  /** What a closing tag is, given where its name ends and what stands behind. */
  lemma CloseForm(t: string, name: string, n: nat, e: nat)
    requires n == Run(t, NodeName) <= e <= |t| && t[e..] == Skip(t[n..], Space)
    ensures var r := CloseTag(t, name);
            if t[..n] == name && At(t, e) == '>' then r.Ok? && r.value == [] && r.rest == t[e + 1..] else r.Error?
  {
    hide Run, Skip;
    if e < |t| {
      DropDrop(t, e, 1);
    }
  }

  method CloseTagAt(text: array<char>, pos: nat, name: Slice, ghost nul: nat) returns (ok: bool, next: nat)
    requires pos <= nul < text.Length && text[nul] == '\0' && name.at + name.size <= text.Length
    ensures match CloseTag(text[pos..], text[name.at..name.at + name.size])
      case Error => !ok
      case Ok(v, rest) => ok && v == [] && pos <= next <= nul && rest == text[next..]
  {
    hide Run, Skip, In, CloseTag;
    ghost var t := text[pos..];
    var end := SkipRun(text, pos, NodeName, nul);
    assert t[..end - pos] == text[pos..end] && t[end - pos..] == text[end..];
    ok := Compare(text, name.at, name.size, pos, end - pos);
    next := SkipRun(text, end, Space, nul);
    assert t[next - pos..] == text[next..] && t[next - pos] == text[next];
    CloseForm(t, text[name.at..name.at + name.size], end - pos, next - pos);
    assert t[next + 1 - pos..] == text[next + 1..];
    ok := ok && text[next] == '>';
    if ok {
      next := next + 1;
    }
  }

  /** The children found so far and the value they gave the element. */
  ghost predicate Gathered(was: string, now: string, pos: nat, at: nat, nul: nat,
                           children: seq<NodeRef>, value: Option<Slice>) {
    Left(was, now, pos, at, nul) && NodesIn(now, children, pos, at) && SliceIn(now, value, pos, at)
    && Str(now, value) == ValueOf("", ReadAll(now, children))
  }

  lemma {:induction false} ValueOfAppend(value: string, children: seq<Node>, child: Node)
    ensures ValueOf(value, children + [child]) ==
            if child.Data? && At(ValueOf(value, children), 0) == '\0' then child.value else ValueOf(value, children)
    decreases children
  {
    if children == [] {
      assert children + [child] == [child];
      assert ValueOf(value, [child]) ==
             ValueOf(if child.Data? && At(value, 0) == '\0' then child.value else value, []);
    } else {
      var c := children[0];
      ValueOfAppend(if c.Data? && At(value, 0) == '\0' then c.value else value, children[1..], child);
      assert (children + [child])[1..] == children[1..] + [child];
    }
  }

  lemma SameSelf(s: string, lo: nat, hi: nat)
    ensures Same(s, s, lo, hi)
  {
  }

  /** A node that was parsed behind what has been gathered joins the children. */
  lemma Gather(was: string, now: string, now': string, pos: nat, at: nat, at': nat, nul: nat,
               children: seq<NodeRef>, value: Option<Slice>, child: NodeRef, value': Option<Slice>)
    requires Gathered(was, now, pos, at, nul, children, value)
    requires Left(was, now', pos, at', nul) && at <= at' && Same(now, now', pos, at)
    requires NodeIn(now', child, at, at') && SliceIn(now', value', pos, at')
    requires Str(now', value') == if Read(now', child).Data? && At(Str(now, value), 0) == '\0'
                                  then Read(now', child).value else Str(now, value)
    ensures Gathered(was, now', pos, at', nul, children + [child], value')
    ensures ReadAll(now', children + [child]) == ReadAll(now, children) + [Read(now', child)]
  {
    hide Read, NodeIn, Str, SliceIn, Same, At, ValueOf;
    NodesFrame(now, now', children, pos, at, pos, at');
    assert NodeIn(now', child, pos, at') by {
      SameSelf(now', at, at');
      NodeFrame(now', now', child, at, at', pos, at');
    }
    NodesAppend(now', children, child, pos, at');
    ValueOfAppend("", ReadAll(now, children), Read(now', child));
  }

  lemma DataLeft(was: string, now: string, now': string, pos: nat, start: nat, next: nat, nul: nat)
    requires Left(was, now, pos, start, nul) && start <= next < nul && |now'| == |now|
    requires now'[..start] == now[..start] && now'[next + 1..] == now[next + 1..]
    ensures Left(was, now', pos, next + 1, nul) && Same(now, now', pos, start)
  {
    LeftTwice(was, now, now', pos, start, next + 1, nul);
  }

  lemma GatheredValue(was: string, now: string, pos: nat, at: nat, nul: nat, children: seq<NodeRef>,
                      value: Option<Slice>)
    requires Gathered(was, now, pos, at, nul, children, value)
    ensures Left(was, now, pos, at, nul) && SliceIn(now, value, pos, at) && pos <= at <= nul < |now|
    ensures value.Some? ==> value.value.at < |now|
  {
    hide NodesIn, ReadAll, ValueOf;
  }

  lemma NoSlice(s: string, lo: nat, hi: nat)
    ensures SliceIn(s, None, lo, hi)
  {
  }

  /** The value of the element behind a further data node; whether it has one can be seen at the first
      character. */
  lemma DataValue(now: string, now': string, pos: nat, start: nat, end: nat,
                  value: Option<Slice>, data: Option<Slice>, value': Option<Slice>)
    requires SliceIn(now, value, pos, start) && Same(now, now', pos, start) && pos <= start <= end <= |now'|
    requires SliceIn(now', data, start, end) && (value.Some? ==> value.value.at < |now'|)
    requires value' == if value.None? || now'[value.value.at] == '\0' then data else value
    ensures SliceIn(now', value', pos, end)
    ensures Str(now', value') == if At(Str(now, value), 0) == '\0' then Str(now', data) else Str(now, value)
  {
    SliceFrame(now, now', value, pos, start, pos, end);
  }

  /** A data node behind what has been gathered; it gives the element its value while there is none. */
  lemma DataGathers(was: string, now: string, now': string, pos: nat, start: nat, next: nat, nul: nat,
                    children: seq<NodeRef>, value: Option<Slice>, data: Option<Slice>, value': Option<Slice>)
    requires Gathered(was, now, pos, start, nul, children, value) && start <= next < nul && |now'| == |now|
    requires now'[..start] == now[..start] && now'[next + 1..] == now[next + 1..]
    requires data.Some? && SliceIn(now', data, start, next + 1)
    requires value' == if value.None? || now'[value.value.at] == '\0' then data else value
    ensures var child := Leaf(DataKind, data);
            Gathered(was, now', pos, next + 1, nul, children + [child], value')
            && ReadAll(now', children + [child]) == ReadAll(now, children) + [Data(Str(now', data))]
  {
    hide Gathered, NodesIn, ReadAll, ValueOf, SliceIn, Str, Left, Same, NodeIn, Read, At;
    var child := Leaf(DataKind, data);
    GatheredValue(was, now, pos, start, nul, children, value);
    NoSlice(now', start, next + 1);
    LeafStands(now', DataKind, None, data, start, next + 1);
    DataLeft(was, now, now', pos, start, next, nul);
    DataValue(now, now', pos, start, next + 1, value, data, value');
    Gather(was, now, now', pos, start, next + 1, nul, children, value, child, value');
  }

  /** Data behind what has been gathered: from `start`, where the white space in front of it is. */
  method GatherData(text: array<char>, start: nat, ghost was: string, ghost pos: nat, ghost nul: nat,
                    children: seq<NodeRef>, value: Option<Slice>)
    returns (ok: bool, next: nat, ch: char, children': seq<NodeRef>, value': Option<Slice>)
    requires Gathered(was, text[..], pos, start, nul, children, value) && was[nul] == '\0'
    modifies text
    ensures match Expand(was[start..], '<')
      case Failed => !ok
      case Expanded(out, rest) => (
        ok && start <= next <= nul && ch == was[next] && ch in {'<', '\0'} && rest == was[next..]
        && (ch != '\0' ==>
             Gathered(was, text[..], pos, next + 1, nul, children', value')
             && ReadAll(text[..], children') == ReadAll(old(text[..]), children) + [Data(out)]))
  {
    hide Expand, NodesIn, ReadAll, ValueOf;
    ghost var now := text[..];
    children', value' := children, value;
    ExpandRest(was[start..], '<');
    LeftWiden(was, now, pos, start, nul, pos, start);
    assert text[start..] == now[start..];
    ghost var e := Expand(was[start..], '<');
    assert e == Expand(text[start..], '<');
    var data;
    ok, next, data, ch := ParseDataAt(text, start, nul);
    if ok && ch != '\0' {
      SliceFrame(now, now, value, pos, start, pos, start);
      if value.None? || text[value.value.at] == '\0' {
        value' := data;
      }
      DataGathers(was, now, text[..], pos, start, next, nul, children, value, data, value');
      children' := children + [Leaf(DataKind, data)];
    }
  }

  lemma GatheredLeft(was: string, now: string, pos: nat, at: nat, nul: nat,
                     children: seq<NodeRef>, value: Option<Slice>)
    requires Gathered(was, now, pos, at, nul, children, value)
    ensures Left(was, now, pos, at, nul) && now[nul] == was[nul] && now[at..] == was[at..]
  {
    LeftWiden(was, now, pos, at, nul, pos, at);
  }

  lemma PartOfTake(s: string, n: nat, a: nat, b: nat)
    requires a <= b <= n <= |s|
    ensures s[..n][a..b] == s[a..b]
  {
  }

  /** What stands behind the '<' at `at`, and what stands before the contents, is as it was. */
  lemma TagBehind(was: string, now: string, pos: nat, at: nat, nul: nat, children: seq<NodeRef>, value: Option<Slice>,
                  a: nat, b: nat)
    requires Gathered(was, now, pos, at + 1, nul, children, value) && a <= b <= pos
    ensures Left(was, now, pos, at + 1, nul) && now[nul] == was[nul]
    ensures now[at + 1..] == was[at..][1..] && now[at + 2..] == was[at..][2..] && now[a..b] == was[a..b]
  {
    hide Gathered;
    GatheredLeft(was, now, pos, at + 1, nul, children, value);
    DropDrop(was, at, 1);
    DropDrop(was, at, 2);
    DropDrop(was, at + 1, 1);
    DropDrop(now, at + 1, 1);
    PartOfTake(was, pos, a, b);
    PartOfTake(now, pos, a, b);
  }

  lemma GatheredWiden(was: string, now: string, pos: nat, at: nat, at': nat, nul: nat,
                      children: seq<NodeRef>, value: Option<Slice>)
    requires Gathered(was, now, pos, at, nul, children, value) && at <= at' <= nul
    ensures Gathered(was, now, pos, at', nul, children, value)
  {
    LeftWiden(was, now, pos, at, nul, pos, at');
    SameSelf(now, pos, at);
    NodesFrame(now, now, children, pos, at, pos, at');
    SliceFrame(now, now, value, pos, at, pos, at');
  }

  /** The closing tag behind what has been gathered, from its '<' at `at` on. */
  method CloseContents(text: array<char>, at: nat, name: Slice, ghost was: string, ghost pos: nat, ghost nul: nat,
                       ghost children: seq<NodeRef>, ghost value: Option<Slice>, ghost tag: string)
    returns (ok: bool, next: nat)
    requires Gathered(was, text[..], pos, at + 1, nul, children, value) && at + 2 <= nul && was[nul] == '\0'
    requires name.at + name.size <= pos && tag == was[name.at..name.at + name.size]
    ensures var r := CloseTag(was[at..][2..], tag);
            && ok == r.Ok?
            && (ok ==> Gathered(was, text[..], pos, next, nul, children, value) && next <= nul
                       && r.rest == text[next..])
  {
    hide Gathered, CloseTag;
    ghost var now := text[..];
    TagBehind(was, now, pos, at, nul, children, value, name.at, name.at + name.size);
    assert text[at + 2..] == now[at + 2..];
    assert text[name.at..name.at + name.size] == now[name.at..name.at + name.size];
    ok, next := CloseTagAt(text, at + 2, name, nul);
    if ok {
      GatheredWiden(was, now, pos, at + 1, next, nul, children, value);
    }
  }

  lemma ContentsTag(t: string, name: string)
    requires At(Skip(t, Space), 0) in {'<', '\0'}
    ensures var s := Skip(t, Space);
            ParseContents(t, name) == if At(s, 0) == '<' then ParseTag(s, name) else Error
  {
    hide ParseTag, Skip;
  }

  function Optional<T>(o: Option<T>): seq<T> {
    if o.Some? then [o.value] else []
  }

  lemma ThenBefore(front: seq<Node>, child: Option<Node>, r: Parsed<seq<Node>>)
    ensures Then(front, Before(child, r)) == Then(front + Optional(child), r)
  {
    match r
    case Error =>
    case Ok(nodes, _) =>
      var more := Optional(child);
      assert front + (more + nodes) == front + more + nodes;
  }

  lemma ContentsData(t: string, name: string, front: seq<Node>)
    requires At(Skip(t, Space), 0) !in {'<', '\0'}
    ensures var e := Expand(t, '<');
            Then(front, ParseContents(t, name)) ==
              if e.Failed? || At(e.rest, 0) != '<' then Error
              else Then(front + [Data(e.out)], ParseTag(e.rest, name))
    ensures var e := Expand(t, '<');
            e.Failed? || At(e.rest, 0) != '<' ==> ParseContents(t, name) == Error
  {
    hide ParseTag, Skip, Expand;
    match Expand(t, '<')
    case Failed =>
    case Expanded(value, rest) =>
      if At(rest, 0) == '<' {
        ThenBefore(front, Some(Data(value)), ParseTag(rest, name));
      }
  }

  /** White space or a data node in front of the next tag; the position is that of its '<', which the
      terminator of the data may have replaced. */
  method NextTag(text: array<char>, start: nat, ghost was: string, ghost pos: nat, ghost nul: nat,
                 children: seq<NodeRef>, value: Option<Slice>, ghost tag: string)
    returns (ok: bool, at: nat, children': seq<NodeRef>, value': Option<Slice>)
    requires Gathered(was, text[..], pos, start, nul, children, value) && was[nul] == '\0'
    modifies text
    ensures ok ==>
      start <= at < nul && was[at] == '<' && Gathered(was, text[..], pos, at + 1, nul, children', value')
      && Then(ReadAll(old(text[..]), children), ParseContents(was[start..], tag)) ==
         Then(ReadAll(text[..], children'), ParseTag(was[at..], tag))
    ensures !ok ==> ParseContents(was[start..], tag) == Error
  {
    hide Gathered, Expand, ParseTag, ParseContents, ReadAll, Skip, Run, In, Then;
    ghost var front := ReadAll(text[..], children);
    GatheredLeft(was, text[..], pos, start, nul, children, value);
    assert text[start..] == was[start..] && text[nul] == text[..][nul];
    ok, children', value' := true, children, value;
    at := SkipRun(text, start, Space, nul);
    var ch := text[at];
    assert text[at..] == text[start..][at - start..] == was[start..][at - start..] == was[at..];
    assert ch == text[at..][0];
    if ch != '<' && ch != '\0' {
      ContentsData(was[start..], tag, front);
      ok, at, ch, children', value' := GatherData(text, start, was, pos, nul, children, value);
    } else {
      ContentsTag(was[start..], tag);
      if ch == '<' {
        GatheredWiden(was, text[..], pos, start, at + 1, nul, children, value);
      }
    }
    ok := ok && ch != '\0';
  }

  lemma GatherNothing(was: string, pos: nat, nul: nat)
    requires pos <= nul < |was|
    ensures Gathered(was, was, pos, pos, nul, [], None) && ReadAll(was, []) == []
  {
  }

  lemma TagCloses(t: string, name: string, front: seq<Node>)
    requires At(t, 0) == '<' && At(t, 1) == '/'
    ensures var r := CloseTag(t[2..], name);
            Then(front, ParseTag(t, name)) == if r.Ok? then Ok(front, r.rest) else Error
  {
    hide Run, Skip;
    assert front + [] == front;
  }

  lemma TagOpens(t: string, name: string, front: seq<Node>)
    requires At(t, 0) == '<' && At(t, 1) != '/'
    ensures var r := ParseNode(t[1..]);
            Then(front, ParseTag(t, name)) ==
              if r.Error? then Error
              else Then(front + Optional(r.value), ParseContents(r.rest, name))
  {
    hide ParseNode, ParseContents;
    match ParseNode(t[1..])
    case Error =>
    case Ok(child, rest) => ThenBefore(front, child, ParseContents(rest, name));
  }

  /** The contents of an element up to and including its closing tag, whose name must be the one that
      stands in the buffer at `name`. */
  method ParseContentsAt(text: array<char>, pos: nat, name: Slice, ghost nul: nat)
    returns (ok: bool, next: nat, children: seq<NodeRef>, value: Option<Slice>)
    requires pos <= nul < text.Length && text[nul] == '\0' && name.at + name.size <= pos
    modifies text
    ensures match ParseContents(old(text[pos..]), old(text[name.at..name.at + name.size]))
      case Error => !ok
      case Ok(v, rest) => (
        ok && Gathered(old(text[..]), text[..], pos, next, nul, children, value)
        && rest == text[next..] && ReadAll(text[..], children) == v)
    decreases nul - pos, 2
  {
    hide Gathered, ParseNode, ParseTag, ParseContents, CloseTag, ReadAll;
    ghost var was := text[..];
    ghost var tag := text[name.at..name.at + name.size];
    ghost var goal := ParseContents(was[pos..], tag);
    ok, next, children, value := true, pos, [], None;
    GatherNothing(was, pos, nul);
    ThenNothing(goal);
    while true
      invariant ok && Gathered(was, text[..], pos, next, nul, children, value) && next <= nul
      invariant goal == Then(ReadAll(text[..], children), ParseContents(was[next..], tag))
      decreases nul - next
    {
      ghost var start := next;
      ok, next, children, value := NextTag(text, next, was, pos, nul, children, value, tag);
      if !ok {
        return;
      }
      ghost var now, front := text[..], ReadAll(text[..], children);
      GatheredLeft(was, now, pos, next + 1, nul, children, value);
      DropDrop(was, next, 1);
      assert text[next + 1..] == now[next + 1..];
      if text[next + 1] == '/' {
        TagCloses(was[next..], tag, front);
        ok, next := CloseContents(text, next, name, was, pos, nul, children, value, tag);
        return;
      }
      TagOpens(was[next..], tag, front);
      ok, next, children := ChildAt(text, next + 1, was, pos, nul, children, value);
      if !ok {
        return;
      }
    }
  }

  lemma StandsParts(s: string, node: Option<NodeRef>, v: Option<Node>, lo: nat, hi: nat)
    requires Stands(s, node, v, lo, hi)
    ensures node.Some? <==> v.Some?
    ensures node.Some? ==> NodeIn(s, node.value, lo, hi) && Read(s, node.value) == v.value
  {
  }

  lemma GatherNode(was: string, now: string, now': string, pos: nat, at: nat, at': nat, nul: nat,
                   children: seq<NodeRef>, value: Option<Slice>, child: Option<NodeRef>)
    requires Gathered(was, now, pos, at, nul, children, value) && Left(now, now', at, at', nul)
    requires child.Some? ==> NodeIn(now', child.value, at, at') && !Read(now', child.value).Data?
    ensures var more := Optional(child);
            Gathered(was, now', pos, at', nul, children + more, value) &&
            ReadAll(now', children + more) ==
              ReadAll(now, children) + if child.Some? then [Read(now', child.value)] else []
  {
    hide Read, NodeIn, Str, SliceIn, ValueOf, NodesIn, ReadAll;
    LeftTwice(was, now, now', pos, at, at', nul);
    SliceFrame(now, now', value, pos, at, pos, at');
    if child.Some? {
      Gather(was, now, now', pos, at, at', nul, children, value, child.value, value);
    } else {
      NodesFrame(now, now', children, pos, at, pos, at');
      assert children + [] == children;
      assert ReadAll(now, children) + [] == ReadAll(now, children);
    }
  }

  /** A child, from behind its '<' on. */
  method ChildAt(text: array<char>, at: nat, ghost was: string, ghost pos: nat, ghost nul: nat,
                 children: seq<NodeRef>, ghost value: Option<Slice>)
    returns (ok: bool, next: nat, children': seq<NodeRef>)
    requires Gathered(was, text[..], pos, at, nul, children, value) && was[nul] == '\0'
    modifies text
    ensures match ParseNode(was[at..])
      case Error => !ok
      case Ok(v, rest) => (
        ok && at < next <= nul && rest == was[next..] && text[..pos] == old(text[..pos])
        && Gathered(was, text[..], pos, next, nul, children', value)
        && ReadAll(text[..], children') == ReadAll(old(text[..]), children) + Optional(v))
    decreases nul - at, 2
  {
    hide Gathered, ParseNode, ReadAll, Stands;
    ghost var now := text[..];
    GatheredLeft(was, now, pos, at, nul, children, value);
    assert text[at..] == was[at..];
    children' := children;
    var child;
    ok, next, child := ParseNodeAt(text, at, nul);
    if ok {
      StandsParts(text[..], child, ParseNode(was[at..]).value, at, next);
      GatherNode(was, now, text[..], pos, at, next, nul, children, value, child);
      assert text[next..] == now[at..][next - at..] == was[at..][next - at..] == was[next..];
      assert text[..pos] == text[..at][..pos];
      children' := children + Optional(child);
    }
  }

  lemma Deeper(was: string, now: string, pos: nat, pos': nat, next: nat, nul: nat,
               node: Option<NodeRef>, v: Option<Node>)
    requires Left(was, now, pos', next, nul) && Stands(now, node, v, pos', next) && pos <= pos'
    ensures Left(was, now, pos, next, nul) && Stands(now, node, v, pos, next)
  {
    LeftWiden(was, now, pos', next, nul, pos, next);
    SameSelf(now, pos', next);
    if node.Some? {
      NodeFrame(now, now, node.value, pos', next, pos, next);
    }
  }

  /** A declaration or processing instruction after its "<?". */
  method ParseQuestionAt(text: array<char>, pos: nat, ghost nul: nat)
    returns (ok: bool, next: nat, node: Option<NodeRef>)
    requires pos <= nul < text.Length && text[nul] == '\0'
    modifies text
    ensures match ParseQuestion(old(text[pos..]))
      case Error => !ok
      case Ok(v, rest) => (
        ok && Left(old(text[..]), text[..], pos, next, nul) && rest == text[next..]
        && Stands(text[..], node, v, pos, next) && (v.Some? ==> !v.value.Data?))
  {
    hide ParsePi, ParseDeclaration, Stands;
    assert text[pos..][0] == text[pos];
    if (text[pos] == 'x' || text[pos] == 'X') && (text[pos + 1] == 'm' || text[pos + 1] == 'M')
       && (text[pos + 2] == 'l' || text[pos + 2] == 'L') && In(text[pos + 3], Space) {
      assert text[pos..][4..] == text[pos + 4..];
      ok, next, node := ParseDeclarationAt(text, pos + 4, nul);
      if ok {
        Deeper(old(text[..]), text[..], pos, pos + 4, next, nul, node, ParseDeclaration(old(text[pos + 4..])).value);
      }
    } else {
      ok, next, node := ParsePiAt(text, pos, nul);
    }
  }

  /** Passes an unrecognised construct. */
  method SkipUnknown(text: array<char>, pos: nat, ghost nul: nat) returns (ok: bool, next: nat)
    requires pos <= nul < text.Length && text[nul] == '\0'
    ensures match Upto(text[pos..], ">")
      case Error => !ok
      case Ok(_, rest) => ok && pos <= next <= nul && rest == text[next..]
  {
    ok, next := FindMark(text, pos, ">", nul);
    if ok {
      assert text[pos..][next + 1 - pos..] == text[next + 1..];
      next := next + 1;
    }
  }

  lemma StandsNothing(s: string, lo: nat, hi: nat)
    ensures Stands(s, None, None, lo, hi)
  {
  }

  method ParseOtherAt(text: array<char>, pos: nat, ghost nul: nat)
    returns (ok: bool, next: nat, node: Option<NodeRef>)
    requires pos <= nul < text.Length && text[nul] == '\0' && text[pos] == '!'
    modifies text
    ensures match ParseOther(old(text[pos..]))
      case Error => !ok
      case Ok(v, rest) => (
        ok && Left(old(text[..]), text[..], pos, next, nul) && pos < next && rest == text[next..]
        && Stands(text[..], node, v, pos, next) && (v.Some? ==> !v.value.Data?))
  {
    hide LooksAt, Find, Stands, ParseDoctype;
    ghost var was := text[..];
    ghost var t := text[pos..];
    node := None;
    if LooksAt(text, pos, "!DOCTYPE") && In(text[pos + 8], Space) {
      BeforeTerminator(t, "!DOCTYPE", nul - pos);
      assert t[9..] == text[pos + 9..];
      ok, next, node := ParseDoctypeAt(text, pos + 9, nul);
      if ok {
        Deeper(was, text[..], pos, pos + 9, next, nul, node, ParseDoctype(t[9..]).value);
      }
    } else {
      ok, next := SkipUnknown(text, pos + 1, nul);
      assert t[1..] == text[pos + 1..];
      StandsNothing(text[..], pos, next);
    }
  }

  /** A construct that begins with "<!", from the '!' on. */
  method ParseMarkedAt(text: array<char>, pos: nat, ghost nul: nat)
    returns (ok: bool, next: nat, node: Option<NodeRef>)
    requires pos <= nul < text.Length && text[nul] == '\0' && text[pos] == '!'
    modifies text
    ensures match ParseMarked(old(text[pos..]))
      case Error => !ok
      case Ok(v, rest) => (
        ok && Left(old(text[..]), text[..], pos, next, nul) && pos < next && rest == text[next..]
        && Stands(text[..], node, v, pos, next) && (v.Some? ==> !v.value.Data?))
  {
    hide LooksAt, Stands, ParseComment, ParseCdata, ParseOther;
    ghost var was := text[..];
    ghost var t := text[pos..];
    node := None;
    if LooksAt(text, pos, "!--") {
      BeforeTerminator(t, "!--", nul - pos);
      assert t[3..] == text[pos + 3..];
      ok, next, node := ParseCommentAt(text, pos + 3, nul);
      if ok {
        Deeper(was, text[..], pos, pos + 3, next, nul, node, ParseComment(t[3..]).value);
      }
    } else if LooksAt(text, pos, "![CDATA[") {
      BeforeTerminator(t, "![CDATA[", nul - pos);
      assert t[8..] == text[pos + 8..];
      ok, next, node := ParseCdataAt(text, pos + 8, nul);
      if ok {
        Deeper(was, text[..], pos, pos + 8, next, nul, node, ParseCdata(t[8..]).value);
      }
    } else {
      ok, next, node := ParseOtherAt(text, pos, nul);
    }
  }

  /** A node after its '<'. */
  method ParseNodeAt(text: array<char>, pos: nat, ghost nul: nat)
    returns (ok: bool, next: nat, node: Option<NodeRef>)
    requires pos <= nul < text.Length && text[nul] == '\0'
    modifies text
    ensures match ParseNode(old(text[pos..]))
      case Error => !ok
      case Ok(v, rest) => (
        ok && Left(old(text[..]), text[..], pos, next, nul) && pos < next && rest == text[next..]
        && Stands(text[..], node, v, pos, next) && (v.Some? ==> !v.value.Data?))
    decreases nul - pos, 1
  {
    hide LooksAt, Stands, ParseElement, ParseMarked, ParseQuestion;
    assert text[pos] == text[pos..][0];
    if text[pos] == '?' {
      assert text[pos..][1..] == text[pos + 1..];
      ok, next, node := ParseQuestionAt(text, pos + 1, nul);
      if ok {
        Deeper(old(text[..]), text[..], pos, pos + 1, next, nul, node, ParseQuestion(old(text[pos + 1..])).value);
      }
    } else if text[pos] == '!' {
      ok, next, node := ParseMarkedAt(text, pos, nul);
    } else {
      ok, next, node := ParseElementAt(text, pos, nul);
    }
  }

  /** The terminator behind the name leaves the name itself and what stands outside as they are. */
  lemma NamePart(was: string, now: string, s: string, pos: nat, nameEnd: nat, start: nat, next: nat)
    requires pos <= nameEnd <= start <= next && nameEnd < next <= |now| == |was| && s == now[nameEnd := '\0']
    requires now[..start] == was[..start]
    ensures s[..pos] == was[..pos] && s[next..] == now[next..] && s[pos..nameEnd] == was[pos..nameEnd]
  {
    PartOfTake(was, start, pos, nameEnd);
    PartOfTake(now, start, pos, nameEnd);
    assert s[pos..nameEnd] == now[pos..nameEnd];
    assert now[..pos] == now[..start][..pos] && was[..pos] == was[..start][..pos];
    assert s[..pos] == now[..pos];
  }

  lemma ElementStands(was: string, now: string, now': string, pos: nat, nameEnd: nat, start: nat, close: nat,
                      next: nat, nul: nat, attributes: seq<AttributeRef>, children: seq<NodeRef>,
                      value: Option<Slice>)
    requires pos < nameEnd <= start && (attributes != [] ==> nameEnd < start)
    requires Left(was, now, start, close, nul) && AttributesIn(now, attributes, start, close)
    requires Gathered(now, now', close + 1, next, nul, children, value)
    ensures var s := now'[nameEnd := '\0'];
            var n := NodeRef(ElementKind, Some(Slice(pos, nameEnd - pos)), value, attributes, children);
            Left(was, s, pos, next, nul) && s[next..] == now'[next..] &&
            Stands(s, Some(n), Some(Element(was[pos..nameEnd], ValueOf("", ReadAll(now', children)),
                                            ReadAttributes(now, attributes), ReadAll(now', children))), pos, next)
  {
    hide ReadAttributes, ReadAll, NodesIn, ValueOf;
    var s := now'[nameEnd := '\0'];
    var inner := close + 1;
    LeftWiden(was, now, start, close, nul, start, inner);
    LeftTwice(was, now, now', start, inner, next, nul);
    NamePart(was, now', s, pos, nameEnd, start, next);
    SliceFrame(now', s, value, inner, next, pos, next);
    NodesFrame(now', s, children, inner, next, pos, next);
    if attributes != [] {
      AttributesFrame(now, s, attributes, start, close, pos, next);
    } else {
      assert ReadAttributes(s, attributes) == ReadAttributes(now, attributes);
    }
  }

  /** The name gets its terminator. */
  method FinishElement(text: array<char>, pos: nat, nameEnd: nat, ghost nul: nat, ghost was: string, ghost now: string,
                       ghost start: nat, ghost close: nat, ghost next: nat, attributes: seq<AttributeRef>,
                       children: seq<NodeRef>, value: Option<Slice>, ghost v: Option<Node>)
    returns (node: Option<NodeRef>)
    requires pos < nameEnd <= start && (attributes != [] ==> nameEnd < start) && nameEnd < text.Length
    requires Left(was, now, start, close, nul) && AttributesIn(now, attributes, start, close)
    requires Gathered(now, text[..], close + 1, next, nul, children, value)
    requires v == Some(Element(was[pos..nameEnd], ValueOf("", ReadAll(text[..], children)),
                               ReadAttributes(now, attributes), ReadAll(text[..], children)))
    modifies text
    ensures Left(was, text[..], pos, next, nul) && text[next..] == old(text[next..])
    ensures Stands(text[..], node, v, pos, next)
  {
    hide ReadAttributes, ReadAll, ValueOf, AttributesIn, Gathered, Stands;
    ghost var mid := text[..];
    ElementStands(was, now, mid, pos, nameEnd, start, close, next, nul, attributes, children, value);
    text[nameEnd] := '\0';
    assert text[..] == mid[nameEnd := '\0'];
    assert text[next..] == text[..][next..] && mid[next..] == old(text[next..]);
    node := Some(NodeRef(ElementKind, Some(Slice(pos, nameEnd - pos)), value, attributes, children));
  }

  /** What an element is, given its name, attributes and contents. */
  lemma ElementForm(t: string, n: nat, tag: string)
    requires n == Run(t, NodeName) <= |t| && tag == t[..n]
    ensures var p := ParseElement(t);
            && (n == 0 ==> p.Error?)
            && (n > 0 ==>
                  var a := ParseAttributes(Skip(t[n..], Space));
                  && (a.Error? ==> p.Error?)
                  && (a.Ok? ==>
                        var e := ElementEnd(a.rest, tag);
                        && p.Ok? == e.Ok?
                        && (p.Ok? ==> p.rest == e.rest
                                      && p.value == Some(Element(tag, ValueOf("", e.value), a.value, e.value)))))
  {
    hide Run, Skip, ParseAttributes, ElementEnd, ValueOf;
  }

  /** No attribute begins directly behind the name. */
  lemma AfterName(c: char)
    ensures In(c, AttributeName) ==> In(c, NodeName)
  {
  }

  /** An element after its '<'. Its name gets the terminator last of all. */
  method ParseElementAt(text: array<char>, pos: nat, ghost nul: nat)
    returns (ok: bool, next: nat, node: Option<NodeRef>)
    requires pos <= nul < text.Length && text[nul] == '\0'
    modifies text
    ensures match ParseElement(old(text[pos..]))
      case Error => !ok
      case Ok(v, rest) => (
        ok && Left(old(text[..]), text[..], pos, next, nul) && pos < next && rest == text[next..]
        && Stands(text[..], node, v, pos, next) && v.Some? && v.value.Element?)
    decreases nul - pos, 0
  {
    hide ParseElement, ParseAttributes, ElementEnd, ReadAttributes, ReadAll, Run, Skip, ValueOf, NodesIn, AttributesIn,
         NodeIn, Read, Str, SliceIn, In, Gathered, Stands;
    ghost var was, t := text[..], text[pos..];
    ok, next, node := false, pos, None;
    var nameEnd := SkipRun(text, pos, NodeName, nul);
    ghost var tag := t[..nameEnd - pos];
    ElementForm(t, nameEnd - pos, tag);
    if nameEnd == pos {
      return;
    }
    TakeOfDrop(was, pos, nameEnd - pos);
    assert t == was[pos..] && t[nameEnd - pos..] == text[nameEnd..];
    var name := Slice(pos, nameEnd - pos);
    var start := SkipRun(text, nameEnd, Space, nul);
    ghost var a := ParseAttributes(text[start..]);
    var attributes, close;
    AfterName(text[nameEnd]);
    ok, close, attributes := ParseAttributesAt(text, start, nul);
    if ok {
      ghost var now := text[..];
      LeftWiden(was, now, start, close, nul, start, close);
      PartOfTake(was, start, pos, nameEnd);
      PartOfTake(now, start, pos, nameEnd);
      assert text[pos..nameEnd] == now[pos..nameEnd] == tag;
      ghost var e := ElementEnd(text[close..], tag);
      assert e == ElementEnd(a.rest, tag);
      var children, value;
      ok, next, children, value := ElementEndAt(text, close, name, nul);
      if ok {
        node := FinishElement(text, pos, nameEnd, nul, was, now, start, close, next, attributes, children, value,
                              ParseElement(t).value);
      }
    }
  }

  method ElementEndAt(text: array<char>, pos: nat, name: Slice, ghost nul: nat)
    returns (ok: bool, next: nat, children: seq<NodeRef>, value: Option<Slice>)
    requires pos <= nul < text.Length && text[nul] == '\0' && name.at + name.size <= pos
    modifies text
    ensures match ElementEnd(old(text[pos..]), old(text[name.at..name.at + name.size]))
      case Error => !ok
      case Ok(v, rest) => (
        ok && Gathered(old(text[..]), text[..], pos + 1, next, nul, children, value)
        && rest == text[next..] && ReadAll(text[..], children) == v)
    decreases nul - pos, 3
  {
    hide ParseContents, NodesIn, ReadAll, ValueOf;
    ok, next, children, value := false, pos, [], None;
    assert text[pos..][0] == text[pos];
    if text[pos] == '>' {
      assert text[pos..][1..] == text[pos + 1..];
      ok, next, children, value := ParseContentsAt(text, pos + 1, name, nul);
    } else if text[pos] == '/' && text[pos + 1] == '>' {
      assert text[pos..][2..] == text[pos + 2..];
      ok, next := true, pos + 2;
      GatherNothing(text[..], pos + 1, nul);
      GatheredWiden(text[..], text[..], pos + 1, pos + 1, next, nul, children, value);
    }
  }

  // ---- documents ---------------------------------------------------------------------

  lemma NodesOpen(t: string, front: seq<Node>)
    requires At(Skip(t, Space), 0) == '<'
    ensures var r := ParseNode(Skip(t, Space)[1..]);
            Then(front, ParseNodes(t)) ==
              if r.Error? then Error
              else Then(front + Optional(r.value), ParseNodes(r.rest))
  {
    hide ParseNode, Skip;
    match ParseNode(Skip(t, Space)[1..])
    case Error =>
    case Ok(child, rest) => ThenBefore(front, child, ParseNodes(rest));
  }

  lemma NodesClose(t: string, front: seq<Node>)
    requires At(Skip(t, Space), 0) != '<'
    ensures var s := Skip(t, Space);
            Then(front, ParseNodes(t)) == if At(s, 0) == '\0' then Ok(front, s) else Error
  {
    hide Skip;
    assert front + [] == front;
  }

  lemma GatheredAll(was: string, now: string, pos: nat, nul: nat, children: seq<NodeRef>)
    requires Gathered(was, now, pos, nul, nul, children, None)
    ensures NodesIn(now, children, 0, nul) && now[nul..] == was[nul..]
  {
    SameSelf(now, pos, nul);
    NodesFrame(now, now, children, pos, nul, 0, nul);
  }

  /** The nodes of a document up to the terminator. */
  method ParseNodesAt(text: array<char>, pos: nat, ghost nul: nat) returns (ok: bool, children: seq<NodeRef>)
    requires pos <= nul < text.Length && text[nul] == '\0'
    modifies text
    ensures match ParseNodes(old(text[pos..]))
      case Error => !ok
      case Ok(v, _) =>
        ok && NodesIn(text[..], children, 0, nul) && ReadAll(text[..], children) == v
        && text[nul..] == old(text[nul..])
  {
    hide Gathered, ParseNodes, ParseNode, NodesIn, ReadAll, Skip, In;
    ghost var was := text[..];
    var next := pos;
    children, ok := [], true;
    GatherNothing(was, pos, nul);
    ghost var goal := ParseNodes(was[pos..]);
    assert was[pos..] == text[pos..];
    ThenNothing(goal);
    while true
      invariant ok && next <= nul && Gathered(was, text[..], pos, next, nul, children, None)
      invariant goal == Then(ReadAll(text[..], children), ParseNodes(was[next..]))
      decreases nul - next
    {
      ghost var now, front, start := text[..], ReadAll(text[..], children), next;
      GatheredLeft(was, now, pos, next, nul, children, None);
      assert text[next..] == was[next..] && text[nul] == was[nul];
      next := SkipRun(text, next, Space, nul);
      assert text[next..] == was[start..][next - start..] == was[next..];
      if text[next] != '<' {
        NodesClose(was[start..], front);
        ok := text[next] == '\0';
        if ok {
          GatheredWiden(was, now, pos, start, nul, nul, children, None);
          GatheredAll(was, now, pos, nul, children);
        }
        return;
      }
      NodesOpen(was[start..], front);
      assert text[next + 1..] == text[next..][1..];
      GatheredWiden(was, now, pos, start, next + 1, nul, children, None);
      ok, next, children := ChildAt(text, next + 1, was, pos, nul, children, None);
      if !ok {
        return;
      }
    }
  }

  /** The whole document, in its buffer. */
  method ParseDocumentAt(text: array<char>, ghost nul: nat) returns (ok: bool, children: seq<NodeRef>)
    requires nul < text.Length && text[nul] == '\0'
    modifies text
    ensures match ParseDocument(old(text[..]))
      case Error => !ok
      case Ok(v, _) =>
        ok && NodesIn(text[..], children, 0, nul) && ReadAll(text[..], children) == v
        && text[nul..] == old(text[nul..])
  {
    hide ParseNodes, NodesIn, ReadAll, LooksAt;
    var pos := 0;
    assert text[0..] == text[..];
    if LooksAt(text, 0, BOM) {
      BeforeTerminator(text[..], BOM, nul);
      pos := 3;
    }
    assert text[pos..] == text[..][pos..];
    ok, children := ParseNodesAt(text, pos, nul);
  }
}
