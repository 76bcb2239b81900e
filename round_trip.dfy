/**
 * The round trip of the converter: what the forward pass writes for an element is read
 * back by the reverse pass as that element, attributes, nested children and arrays of
 * repeated elements included, up to one change the forward pass makes on purpose: the
 * children of each element come back grouped by JSON key, the groups in the order their
 * keys first occur, as SerializeGroupedNodes writes them.
 */
module RoundTrip {
  import opened Results
  import opened ConvertErrors
  import opened XmlDom
  import opened ConverterNames
  import opened Grouping
  import opened JsonTokens
  import opened JsonReading
  import opened Namespaces
  import opened SerializeSpec
  import opened DeserializeSpec
  import opened DeserializeSteps
  import opened DeserializeProperties

  /** The tokens toks stand in ts from pos on. */
  predicate TokensAt(ts: seq<Token>, pos: nat, toks: seq<Token>)
    decreases |toks|
  {
    pos + |toks| <= |ts| && (toks == [] || (ts[pos] == toks[0] && TokensAt(ts, pos + 1, toks[1..])))
  }

  /** Tokens standing one after the other stand each in its place. */
  lemma {:induction false} TokensAtSplit(ts: seq<Token>, pos: nat, a: seq<Token>, b: seq<Token>)
    requires TokensAt(ts, pos, a + b)
    ensures TokensAt(ts, pos, a) && TokensAt(ts, pos + |a|, b)
    decreases |a|
  {
    if a == [] {
      assert a + b == b;
    } else {
      assert (a + b)[0] == a[0] && (a + b)[1..] == a[1..] + b;
      TokensAtSplit(ts, pos + 1, a[1..], b);
    }
  }

  /** The i-th token stands at pos + i. */
  lemma {:induction false} TokensAtIndex(ts: seq<Token>, pos: nat, toks: seq<Token>, i: nat)
    requires TokensAt(ts, pos, toks) && i < |toks|
    ensures ts[pos + i] == toks[i]
    decreases |toks|
  {
    if i > 0 {
      TokensAtIndex(ts, pos + 1, toks[1..], i - 1);
    }
  }

  /** The tokens of a list, one list after the other, in order. */
  lemma {:induction false} TokensAtWhole(ts: seq<Token>, toks: seq<Token>)
    ensures TokensAt(ts + toks, |ts|, toks)
    decreases |toks|
  {
    if toks != [] {
      assert (ts + toks)[|ts|] == toks[0];
      assert ts + toks == (ts + [toks[0]]) + toks[1..];
      TokensAtWhole(ts + [toks[0]], toks[1..]);
    }
  }

  /**
   * The tree the reverse pass rebuilds: every element's children regrouped by JSON key,
   * the groups in the order their keys first occur among the children, each group in
   * document order; every other node as it is.
   */
  function Regrouped(n: XmlNode): (r: XmlNode)
    ensures !n.Element? ==> r == n
    ensures n.Element? ==> r.Element? && r.name == n.name && r.namespaceUri == n.namespaceUri && r.attributes == n.attributes
    decreases n, 2
  {
    match n
    case Element(_, _, _, children) =>
      (match GroupNodes(children)
       case Success(g) =>
         GroupsWithin(children);
         n.(children := RegroupedGroups(n, g, g.order))
       case Failure(_) => n)
    case _ => n
  }

  /** The groups of keys, regrouped, one after the other. */
  function RegroupedGroups(parent: XmlNode, g: Groups, keys: seq<string>): (r: seq<XmlNode>)
    requires parent.HasChildren() && GroupsFrom(parent, g, keys)
    decreases parent, 1, |keys|
  {
    if keys == [] then []
    else
      assert keys[0] in keys;
      RegroupedList(parent, g.members[keys[0]]) + RegroupedGroups(parent, g, keys[1..])
  }

  /** Each of the nodes, regrouped, in order. */
  function RegroupedList(parent: XmlNode, nodes: seq<XmlNode>): (r: seq<XmlNode>)
    requires parent.HasChildren() && forall c | c in nodes :: c in parent.children
    ensures |r| == |nodes|
    decreases parent, 0, |nodes|
  {
    if nodes == [] then []
    else
      assert nodes[0] in nodes;
      [Regrouped(nodes[0])] + RegroupedList(parent, nodes[1..])
  }

  /** The name and value of an attribute, as the attribute loop collects them. */
  function AttributePair(a: XmlNode): (string, string) {
    match a
    case Attribute(name, _, value) => (name, value)
    case _ => ("", "")
  }

  /** The pair of each attribute, in order. */
  function AttributePairs(attributes: seq<XmlNode>): (pairs: seq<(string, string)>)
    ensures |pairs| == |attributes|
  {
    if attributes == [] then [] else [AttributePair(attributes[0])] + AttributePairs(attributes[1..])
  }

  /**
   * An attribute the round trip keeps: not a namespace declaration, not json:* metadata,
   * and in the namespace that CreateAttribute gives its name in these scopes.
   */
  predicate PlainAttribute(a: XmlNode, scopes: Scopes) {
    && a.Attribute? && IsNamespaceAttribute(a.name).None? && a.namespaceUri != JsonNamespaceUri
    && a == CreateAttribute(a.name, a.value, scopes)
  }

  /**
   * The trees the round trip is stated for: elements with plain names in the namespaces
   * their prefixes are bound to, attributes that are plain and distinctly named, at most
   * one constructor child, and, below them, such elements and the leaves written as a key
   * and a string.
   */
  predicate Convertible(n: XmlNode, scopes: Scopes)
    decreases n
  {
    match n
    case Element(name, ns, attributes, children) =>
      && IsPlainName(name) && ns == ElementNamespace(name, scopes)
      && (forall a | a in attributes :: PlainAttribute(a, scopes))
      && DistinctKeys(AttributePairs(attributes))
      && ConstructorChildCount(children) <= 1
      && forall c | c in children :: Convertible(c, scopes)
    case _ => ReadableLeaf(n)
  }

  /** A pushed scope is empty, so a tree convertible in some scopes is convertible once a scope is pushed. */
  lemma {:induction false} ConvertiblePush(n: XmlNode, s: Scopes)
    requires Convertible(n, s)
    ensures Convertible(n, Push(s))
    decreases n
  {
    if n.Element? {
      PushThenPop(s, GetPrefix(n.name));
      forall a | a in n.attributes
        ensures PlainAttribute(a, Push(s))
      {
        PushThenPop(s, GetPrefix(a.name));
      }
      forall c | c in n.children
        ensures Convertible(c, Push(s))
      {
        ConvertiblePush(c, s);
      }
    }
  }

  /** Plain attributes declare no namespace. */
  lemma {:induction false} DeclareNothing(attributes: seq<XmlNode>, scopes: Scopes, s: Scopes)
    requires forall a | a in attributes :: PlainAttribute(a, scopes)
    ensures DeclareAll(s, AttributePairs(attributes)) == s
    decreases |attributes|
  {
    if attributes != [] {
      assert attributes[0] in attributes;
      assert AttributePairs(attributes)[1..] == AttributePairs(attributes[1..]);
      DeclareNothing(attributes[1..], scopes, s);
    }
  }

  /** The i-th pair is the i-th attribute's. */
  lemma {:induction false} AttributePairsAt(attributes: seq<XmlNode>, i: nat)
    requires i < |attributes|
    ensures AttributePairs(attributes)[i] == AttributePair(attributes[i])
    decreases |attributes|
  {
    if i > 0 {
      AttributePairsAt(attributes[1..], i - 1);
    }
  }

  /** The i-th attribute CreateAttributes makes is the one made from the i-th pair. */
  lemma {:induction false} CreateAttributesAt(pairs: seq<(string, string)>, scopes: Scopes, i: nat)
    requires i < |pairs|
    ensures CreateAttributes(pairs, scopes)[i] == CreateAttribute(pairs[i].0, pairs[i].1, scopes)
    decreases |pairs|
  {
    if i < |pairs| - 1 {
      CreateAttributesAt(pairs[..|pairs| - 1], scopes, i);
    }
  }

  /** Creating the attributes from the collected pairs gives back plain attributes. */
  lemma CreateAttributesBack(attributes: seq<XmlNode>, scopes: Scopes)
    requires forall a | a in attributes :: PlainAttribute(a, scopes)
    ensures CreateAttributes(AttributePairs(attributes), scopes) == attributes
  {
    var made := CreateAttributes(AttributePairs(attributes), scopes);
    forall i | 0 <= i < |attributes|
      ensures made[i] == attributes[i]
    {
      assert attributes[i] in attributes;
      AttributePairsAt(attributes, i);
      CreateAttributesAt(AttributePairs(attributes), scopes, i);
    }
  }

  /** A name IsNamespaceAttribute does not recognise has no "xmlns" prefix. */
  lemma NotDeclarationPrefix(name: string)
    requires IsNamespaceAttribute(name).None?
    ensures NamePrefix(name) != "xmlns"
  {
    if ':' in name {
      assert name[..|NamePrefix(name)| + 1] == NamePrefix(name) + [':'];
    }
  }

  /** A plain attribute is written as "@" and its name, then its value. */
  lemma PlainAttributeTokens(a: XmlNode, scopes: Scopes, writePropertyName: bool)
    requires PlainAttribute(a, scopes)
    ensures NodeTokens(a, writePropertyName).Success?
    ensures NodeTokens(a, true).value == [PropertyName("@" + a.name), String(a.value)]
  {
    NotDeclarationPrefix(a.name);
    assert !IsJsonMetadata(a);
  }

  /** The tokens of plain attributes stand where the attribute loop reads them as these pairs. */
  lemma {:induction false} AttributeTokens(parent: XmlNode, attributes: seq<XmlNode>, scopes: Scopes, ts: seq<Token>, p: nat)
    requires parent.HasChildren() && Within(parent, attributes)
    requires forall a | a in attributes :: PlainAttribute(a, scopes)
    requires SeqTokens(parent, attributes, true).Success?
    requires TokensAt(ts, p, SeqTokens(parent, attributes, true).value)
    ensures |SeqTokens(parent, attributes, true).value| == 2 * |attributes|
    ensures AttributesAt(ts, p, AttributePairs(attributes))
    decreases |attributes|
  {
    if attributes != [] {
      var a := attributes[0];
      assert a in attributes;
      PlainAttributeTokens(a, scopes, true);
      var head := [PropertyName("@" + a.name), String(a.value)];
      var rest := SeqTokens(parent, attributes[1..], true).value;
      assert SeqTokens(parent, attributes, true).value == head + rest;
      TokensAtSplit(ts, p, head, rest);
      TokensAtIndex(ts, p, head, 0);
      TokensAtIndex(ts, p, head, 1);
      AttributeTokens(parent, attributes[1..], scopes, ts, p + 2);
      assert AttributePairs(attributes)[1..] == AttributePairs(attributes[1..]);
    }
  }

  /** The JSON key of a convertible node: never empty, never an attribute's "@". */
  lemma KeyOfConvertible(c: XmlNode, scopes: Scopes)
    requires Convertible(c, scopes)
    ensures GetPropertyName(c).Success?
    ensures |GetPropertyName(c).value| > 0 && GetPropertyName(c).value[0] != '@'
  {
    if !c.Element? && !c.ProcessingInstruction? {
      assert TextName[0] == '#' && CDataName[0] == '#';
      assert WhitespaceName[0] == '#' && SignificantWhitespaceName[0] == '#';
    }
  }

  /** A convertible node is written as its key, then the value it is written as inside an array. */
  lemma NamedTokens(c: XmlNode, scopes: Scopes)
    requires Convertible(c, scopes)
    ensures NodeTokens(c, true).Success? <==> NodeTokens(c, false).Success?
    ensures NodeTokens(c, true).Success? ==>
      NodeTokens(c, true).value == [PropertyName(GetPropertyName(c).value)] + NodeTokens(c, false).value
  {
    if !c.Element? {
      assert !IsJsonMetadata(c);
    }
  }

  /** The three ways a convertible element is written: a string, null, or an object. */
  lemma ElementBodyTokens(c: XmlNode, scopes: Scopes)
    requires c.Element? && Convertible(c, scopes) && NodeTokens(c, false).Success?
    ensures c.attributes == [] && |c.children| == 1 && c.children[0].Text? ==>
      NodeTokens(c, false).value == [String(c.children[0].value)]
    ensures c.attributes == [] && c.children == [] ==> NodeTokens(c, false).value == [Null]
    ensures c.attributes != [] || (c.children != [] && !(|c.children| == 1 && c.children[0].Text?)) ==>
      ObjectTokens(c).Success? && NodeTokens(c, false).value == ObjectTokens(c).value
  {
    if c.attributes != [] {
      ValueAttributesFilters(c.attributes);
      assert c.attributes[0] in c.attributes;
      assert c.attributes[0] in ValueAttributes(c.attributes);
    }
    assert [] + [Null] == [Null];
  }

  /** Each group the grouping loop makes holds the nodes of its key. */
  lemma GroupedKeys(nodes: seq<XmlNode>)
    requires GroupNodes(nodes).Success?
    ensures var g := GroupNodes(nodes).value;
      forall k | k in g.order :: k in g.members && forall c | c in g.members[k] ::
        GetPropertyName(c).Success? && GetPropertyName(c).value == k
  {
    var g := GroupNodes(nodes).value;
    GroupNodesGroups(nodes);
    forall k | k in g.order
      ensures k in g.members && forall c | c in g.members[k] :: GetPropertyName(c).Success? && GetPropertyName(c).value == k
    {
      MembersHaveKey(nodes, k);
    }
  }

  /** A grouping of some children has at least one group. */
  lemma GroupsOfSome(nodes: seq<XmlNode>)
    requires GroupNodes(nodes).Success?
    ensures nodes != [] ==> GroupNodes(nodes).value.order != []
  {
    GroupNodesGroups(nodes);
    if nodes != [] {
      assert nodes[0] in nodes;
    }
  }

  /** An element with no children, or one child regrouping leaves as it is, is its own regrouping. */
  lemma RegroupedFew(n: XmlNode)
    requires n.Element? && |n.children| <= 1
    requires |n.children| == 1 ==> HasPropertyName(n.children[0]) && !n.children[0].Element?
    ensures Regrouped(n) == n
  {
    var children := n.children;
    if children != [] {
      var c := children[0];
      assert children == [] + [c];
      GroupNodesStep([], c);
      var key := GetPropertyName(c).value;
      var g := GroupNodes(children).value;
      assert g.order == [key] && g.members[key] == [c];
      assert g.order[1..] == [];
      assert RegroupedGroups(n, g, g.order) == RegroupedList(n, [c]) + [];
      assert [c][1..] == [];
      assert RegroupedGroups(n, g, g.order) == [c];
    }
  }

  /** The json:Array marker is a json:* attribute, which a convertible tree does not have. */
  lemma NoArrayMarker(c: XmlNode, scopes: Scopes)
    requires Convertible(c, scopes)
    ensures ArrayMarker(c).None?
  {
    if c.Element? {
      assert forall a | a in c.attributes :: a.namespaceUri != JsonNamespaceUri;
    }
  }

  /** Children appended in two steps are the children appended at once. */
  lemma AppendTwice(node: XmlNode, a: seq<XmlNode>, b: seq<XmlNode>)
    requires node.HasChildren()
    ensures AppendChildren(AppendChildren(node, a), b) == AppendChildren(node, a + b)
  {
    assert (node.children + a) + b == node.children + (a + b);
  }

  /** A token a written value starts with: a string, null, or the start of an object. */
  predicate OpensValue(t: Token) {
    t.String? || t == Null || t == StartObject
  }

  /** A token a written value ends with: a string, null, or the end of an object. */
  predicate ClosesValue(t: Token) {
    t.String? || t == Null || t == EndObject
  }

  /**
   * The round trip of a value: the tokens the forward pass writes for a convertible node
   * inside an array (no property name), standing from pos to last, are read back under the
   * node's key as the node regrouped, with the reader on the value's last token and the
   * scopes as they were.
   */
  lemma {:induction false} ValueReads(c: XmlNode, ts: seq<Token>, pos: nat, last: nat, node: XmlNode, scopes: Scopes)
    requires Convertible(c, scopes) && node.HasChildren()
    requires NodeTokens(c, false).Success? && TokensAt(ts, pos, NodeTokens(c, false).value)
    requires last + 1 == pos + |NodeTokens(c, false).value|
    ensures pos <= last < |ts| && OpensValue(ts[pos]) && ClosesValue(ts[last])
    ensures GetPropertyName(c).Success?
    ensures var r := ValueSpec(ts, pos, GetPropertyName(c).value, node, scopes);
      r.Success? && r.value == Progress(last, AppendChild(node, Regrouped(c)), scopes)
    decreases c, 6
  {
    KeyOfConvertible(c, scopes);
    if c.Element? {
      ElementReads(c, ts, pos, last, node, scopes);
    } else {
      assert !IsJsonMetadata(c);
      var b := NodeTokens(c, false).value;
      assert b == [String(c.value)];
      TokensAtIndex(ts, pos, b, 0);
      LeafValueReads(c, GetPropertyName(c).value, ts, pos, node, scopes);
    }
  }


  /** ValueReads for an element: written as a string, as null, or as an object. */
  lemma {:induction false} ElementReads(c: XmlNode, ts: seq<Token>, pos: nat, last: nat, node: XmlNode, scopes: Scopes)
    requires c.Element? && Convertible(c, scopes) && node.HasChildren()
    requires NodeTokens(c, false).Success? && TokensAt(ts, pos, NodeTokens(c, false).value)
    requires last + 1 == pos + |NodeTokens(c, false).value|
    ensures pos <= last < |ts| && OpensValue(ts[pos]) && ClosesValue(ts[last])
    ensures var r := ValueSpec(ts, pos, c.name, node, scopes);
      r.Success? && r.value == Progress(last, AppendChild(node, Regrouped(c)), scopes)
    decreases c, 5
  {
    ElementBodyTokens(c, scopes);
    if c.attributes == [] && |c.children| == 1 && c.children[0].Text? {
      TextElementReads(c, ts, pos, last, node, scopes);
    } else if c.attributes == [] && c.children == [] {
      EmptyElementReads(c, ts, pos, last, node, scopes);
    } else {
      ObjectReads(c, ts, pos, last, node, scopes);
    }
  }

  /** An element without attributes holding one text node is written as a string and read back as itself. */
  lemma TextElementReads(c: XmlNode, ts: seq<Token>, pos: nat, last: nat, node: XmlNode, scopes: Scopes)
    requires c.Element? && Convertible(c, scopes) && node.HasChildren()
    requires c.attributes == [] && |c.children| == 1 && c.children[0].Text?
    requires NodeTokens(c, false).Success? && NodeTokens(c, false).value == [String(c.children[0].value)]
    requires TokensAt(ts, pos, NodeTokens(c, false).value)
    requires last + 1 == pos + |NodeTokens(c, false).value|
    ensures pos <= last < |ts| && OpensValue(ts[pos]) && ClosesValue(ts[last])
    ensures var r := ValueSpec(ts, pos, c.name, node, scopes);
      r.Success? && r.value == Progress(last, AppendChild(node, Regrouped(c)), scopes)
  {
    var text := c.children[0].value;
    TokensAtIndex(ts, pos, [String(text)], 0);
    ScalarIsTextElement(ts, pos, c.name, node, scopes);
    assert c == Element(c.name, ElementNamespace(c.name, scopes), [], [Text(text)]);
    RegroupedFew(c);
  }

  /** An element without attributes or children is written as null and read back as itself. */
  lemma EmptyElementReads(c: XmlNode, ts: seq<Token>, pos: nat, last: nat, node: XmlNode, scopes: Scopes)
    requires c.Element? && Convertible(c, scopes) && node.HasChildren()
    requires c.attributes == [] && c.children == []
    requires NodeTokens(c, false).Success? && NodeTokens(c, false).value == [Null]
    requires TokensAt(ts, pos, NodeTokens(c, false).value)
    requires last + 1 == pos + |NodeTokens(c, false).value|
    ensures pos <= last < |ts| && OpensValue(ts[pos]) && ClosesValue(ts[last])
    ensures var r := ValueSpec(ts, pos, c.name, node, scopes);
      r.Success? && r.value == Progress(last, AppendChild(node, Regrouped(c)), scopes)
  {
    assert last == pos && pos < |ts| && ts[pos] == Null by {
      TokensAtIndex(ts, pos, [Null], 0);
    }
    assert Regrouped(c) == Element(c.name, ElementNamespace(c.name, scopes), [], []) by {
      RegroupedFew(c);
    }
    NullIsEmptyElement(ts, pos, c.name, node, scopes);
  }

  /**
   * ValueReads for an element written as an object: its attributes, read by the attribute
   * loop, and then its groups, read inside a scope of its own.
   */
  lemma {:induction false} ObjectReads(c: XmlNode, ts: seq<Token>, pos: nat, last: nat, node: XmlNode, scopes: Scopes)
    requires c.Element? && Convertible(c, scopes) && node.HasChildren()
    requires ObjectTokens(c).Success? && TokensAt(ts, pos, ObjectTokens(c).value)
    requires last + 1 == pos + |ObjectTokens(c).value|
    ensures pos < last < |ts| && ts[pos] == StartObject && ts[last] == EndObject
    ensures var r := ValueSpec(ts, pos, c.name, node, scopes);
      r.Success? && r.value == Progress(last, AppendChild(node, Regrouped(c)), scopes)
    decreases c, 4
  {
    var g, stop := ObjectOpens(c, ts, pos, last, scopes);
    GroupsRead(c, g, g.order, ts, stop, last, CreatedElement(c.name, AttributePairs(c.attributes), scopes), Push(scopes));
    ObjectCloses(c, ts, pos, stop, last, node, scopes, g);
  }

  /** What reading an object's groups needs: they stand from stop, after its attributes, up to its end at last. */
  lemma ObjectOpens(c: XmlNode, ts: seq<Token>, pos: nat, last: nat, scopes: Scopes) returns (g: Groups, stop: nat)
    requires c.Element? && Convertible(c, scopes)
    requires ObjectTokens(c).Success? && TokensAt(ts, pos, ObjectTokens(c).value)
    requires last + 1 == pos + |ObjectTokens(c).value|
    ensures GroupNodes(c.children).Success? && g == GroupNodes(c.children).value
    ensures c.HasChildren() && GroupsFrom(c, g, g.order)
    ensures CreatedElement(c.name, AttributePairs(c.attributes), scopes).Element?
    ensures KeyedGroups(c, g, g.order, Push(scopes))
    ensures GroupsTokens(c, g, g.order).Success? && TokensAt(ts, stop, GroupsTokens(c, g, g.order).value)
    ensures last == stop + |GroupsTokens(c, g, g.order).value| && last < |ts| && ts[last] == EndObject
    ensures stop == pos + 1 + 2 * |c.attributes| && ts[pos] == StartObject
    ensures AttributesAt(ts, pos + 1, AttributePairs(c.attributes))
  {
    ObjectLayout(c);
    g := GroupNodes(c.children).value;
    stop := ObjectPartsAt(c, g, ts, pos, last, scopes);
    KeyedGroupsOf(c, scopes);
  }

  /** The attribute properties of an object stand from pos + 1, as the attribute loop reads them, and its groups from stop. */
  lemma ObjectPartsAt(c: XmlNode, g: Groups, ts: seq<Token>, pos: nat, last: nat, scopes: Scopes) returns (stop: nat)
    requires c.Element? && Convertible(c, scopes) && GroupsFrom(c, g, g.order)
    requires SeqTokens(c, c.attributes, true).Success? && GroupsTokens(c, g, g.order).Success?
    requires var o := [StartObject] + SeqTokens(c, c.attributes, true).value + GroupsTokens(c, g, g.order).value + [EndObject];
      TokensAt(ts, pos, o) && last + 1 == pos + |o|
    ensures TokensAt(ts, stop, GroupsTokens(c, g, g.order).value)
    ensures last == stop + |GroupsTokens(c, g, g.order).value| && last < |ts| && ts[last] == EndObject
    ensures stop == pos + 1 + 2 * |c.attributes| && ts[pos] == StartObject
    ensures AttributesAt(ts, pos + 1, AttributePairs(c.attributes))
  {
    var props := SeqTokens(c, c.attributes, true).value;
    var body := GroupsTokens(c, g, g.order).value;
    stop := pos + 1 + |props|;
    ObjectTokensAt(ts, pos, stop, last, props, body);
    AttributeTokens(c, c.attributes, scopes, ts, pos + 1);
  }

  /** Once its groups are read into the element created with its attributes, the object is read as the element regrouped. */
  lemma ObjectCloses(c: XmlNode, ts: seq<Token>, pos: nat, stop: nat, last: nat, node: XmlNode, scopes: Scopes, g: Groups)
    requires c.Element? && Convertible(c, scopes) && node.HasChildren()
    requires GroupNodes(c.children).Success? && g == GroupNodes(c.children).value
    requires GroupsFrom(c, g, g.order)
    requires stop == pos + 1 + 2 * |c.attributes| && stop <= last < |ts| && ts[pos] == StartObject && ts[last] == EndObject
    requires AttributesAt(ts, pos + 1, AttributePairs(c.attributes))
    requires g.order != [] ==> ts[stop].PropertyName? && |ts[stop].name| > 0 && ts[stop].name[0] != '@'
    requires g.order == [] ==> stop == last
    requires var created := CreatedElement(c.name, AttributePairs(c.attributes), scopes);
      var r := NodeSpec(ts, stop, created, Push(scopes));
      r.Success? && r.value == Progress(last, AppendChildren(created, RegroupedGroups(c, g, g.order)), Push(scopes))
    ensures var r := ValueSpec(ts, pos, c.name, node, scopes);
      r.Success? && r.value == Progress(last, AppendChild(node, Regrouped(c)), scopes)
  {
    var pairs := AttributePairs(c.attributes);
    var created := CreatedElement(c.name, pairs, scopes);
    var regrouped := RegroupedGroups(c, g, g.order);
    assert DistinctKeys(pairs) && DeclareAll(scopes, pairs) == scopes by {
      DeclareNothing(c.attributes, scopes, scopes);
    }
    assert AppendChildren(created, regrouped) == Regrouped(c) by {
      CreatedIsBare(c, scopes);
    }
    GroupsOfSome(c.children);
    if g.order == [] {
      EmptyObjectRead(ts, pos, stop, c.name, node, scopes, pairs);
      assert created == Regrouped(c) by {
        assert regrouped == [];
        assert created.children + [] == created.children;
      }
    } else {
      ContentObjectRead(ts, pos, stop, c.name, node, scopes, pairs, Regrouped(c), last);
    }
  }

  /** Each of nodes is a child of parent, convertible in scopes, and filed under key. */
  predicate KeyedNodes(parent: XmlNode, nodes: seq<XmlNode>, key: string, scopes: Scopes)
    requires parent.HasChildren()
    decreases |nodes|
  {
    nodes == [] ||
      (&& nodes[0] in parent.children && Convertible(nodes[0], scopes)
       && GetPropertyName(nodes[0]).Success? && GetPropertyName(nodes[0]).value == key
       && KeyedNodes(parent, nodes[1..], key, scopes))
  }

  /** The nodes of every group of keys are keyed nodes, each group under its own key. */
  predicate KeyedGroups(parent: XmlNode, g: Groups, keys: seq<string>, scopes: Scopes)
    requires parent.HasChildren()
    decreases |keys|
  {
    keys == [] ||
      (&& keys[0] in g.members && KeyedNodes(parent, g.members[keys[0]], keys[0], scopes)
       && KeyedGroups(parent, g, keys[1..], scopes))
  }

  /** Keyed nodes are children of their parent. */
  lemma {:induction false} KeyedNodesWithin(parent: XmlNode, nodes: seq<XmlNode>, key: string, scopes: Scopes)
    requires parent.HasChildren() && KeyedNodes(parent, nodes, key, scopes)
    ensures forall x | x in nodes :: x in parent.children
    ensures Within(parent, nodes)
    decreases |nodes|
  {
    if nodes != [] {
      KeyedNodesWithin(parent, nodes[1..], key, scopes);
      assert forall x | x in nodes :: x == nodes[0] || x in nodes[1..];
    }
  }

  /** Children that are each convertible and filed under key are keyed nodes. */
  lemma {:induction false} KeyedNodesFrom(parent: XmlNode, nodes: seq<XmlNode>, key: string, scopes: Scopes)
    requires parent.HasChildren()
    requires forall x | x in nodes ::
      x in parent.children && Convertible(x, scopes) && GetPropertyName(x).Success? && GetPropertyName(x).value == key
    ensures KeyedNodes(parent, nodes, key, scopes)
    decreases |nodes|
  {
    if nodes != [] {
      assert nodes[0] in nodes;
      assert forall x | x in nodes[1..] :: x in nodes;
      KeyedNodesFrom(parent, nodes[1..], key, scopes);
    }
  }

  /** Groups whose nodes are each convertible children filed under the group's key are keyed groups. */
  lemma {:induction false} KeyedGroupsFrom(parent: XmlNode, g: Groups, keys: seq<string>, scopes: Scopes)
    requires parent.HasChildren()
    requires forall k | k in keys :: k in g.members && forall x | x in g.members[k] ::
      x in parent.children && Convertible(x, scopes) && GetPropertyName(x).Success? && GetPropertyName(x).value == k
    ensures KeyedGroups(parent, g, keys, scopes)
    decreases |keys|
  {
    if keys != [] {
      assert keys[0] in keys;
      KeyedNodesFrom(parent, g.members[keys[0]], keys[0], scopes);
      assert forall k | k in keys[1..] :: k in keys;
      KeyedGroupsFrom(parent, g, keys[1..], scopes);
    }
  }

  /** The groups of a convertible element hold keyed nodes, convertible in the element's own scope. */
  lemma KeyedGroupsOf(c: XmlNode, scopes: Scopes)
    requires c.Element? && Convertible(c, scopes) && GroupNodes(c.children).Success?
    ensures var g := GroupNodes(c.children).value; KeyedGroups(c, g, g.order, Push(scopes))
  {
    var g := GroupNodes(c.children).value;
    GroupsConvertible(c, scopes);
    GroupsWithin(c.children);
    KeyedGroupsFrom(c, g, g.order, Push(scopes));
  }

  /**
   * The groups of keys, as the forward pass writes them from pos up to the end of the
   * enclosing object at end, are read back one after the other, each appending its nodes
   * regrouped.
   */
  lemma {:induction false} GroupsRead(parent: XmlNode, g: Groups, keys: seq<string>, ts: seq<Token>, pos: nat, end: nat,
      node: XmlNode, scopes: Scopes)
    requires parent.HasChildren() && GroupsFrom(parent, g, keys) && node.Element?
    requires KeyedGroups(parent, g, keys, scopes)
    requires GroupsTokens(parent, g, keys).Success? && TokensAt(ts, pos, GroupsTokens(parent, g, keys).value)
    requires end == pos + |GroupsTokens(parent, g, keys).value| && end < |ts| && ts[end] == EndObject
    ensures keys != [] ==> ts[pos].PropertyName? && |ts[pos].name| > 0 && ts[pos].name[0] != '@'
    ensures keys == [] ==> pos == end
    ensures var r := NodeSpec(ts, pos, node, scopes);
      r.Success? && r.value == Progress(end, AppendChildren(node, RegroupedGroups(parent, g, keys)), scopes)
    decreases parent, 3, |keys|
  {
    if keys == [] {
      GroupsNoneRead(parent, g, keys, ts, pos, end, node, scopes);
    } else {
      var next := GroupsHead(parent, g, keys, ts, pos, end, node, scopes);
      var last := GroupRead(parent, keys[0], g.members[keys[0]], ts, pos, next, node, scopes);
      GroupsRead(parent, g, keys[1..], ts, next, end, AppendChildren(node, RegroupedList(parent, g.members[keys[0]])), scopes);
      GroupsJoin(parent, g, keys, ts, pos, last, next, end, node, scopes);
    }
  }

  /** No group left: the end of the object returns, nothing appended. */
  lemma GroupsNoneRead(parent: XmlNode, g: Groups, keys: seq<string>, ts: seq<Token>, pos: nat, end: nat, node: XmlNode, scopes: Scopes)
    requires parent.HasChildren() && GroupsFrom(parent, g, keys) && node.Element? && keys == []
    requires GroupsTokens(parent, g, keys).Success? && end == pos + |GroupsTokens(parent, g, keys).value|
    requires end < |ts| && ts[end] == EndObject
    ensures pos == end
    ensures var r := NodeSpec(ts, pos, node, scopes);
      r.Success? && r.value == Progress(end, AppendChildren(node, RegroupedGroups(parent, g, keys)), scopes)
  {
    assert GroupsTokens(parent, g, keys).value == [];
    NodeEndStep(ts, end, node, scopes);
    assert node.children + [] == node.children;
  }

  /** The first group and the others, each where the tokens put it, with what reading them needs. */
  lemma GroupsHead(parent: XmlNode, g: Groups, keys: seq<string>, ts: seq<Token>, pos: nat, end: nat, node: XmlNode, scopes: Scopes)
    returns (next: nat)
    requires parent.HasChildren() && GroupsFrom(parent, g, keys) && node.Element? && keys != []
    requires KeyedGroups(parent, g, keys, scopes)
    requires GroupsTokens(parent, g, keys).Success? && TokensAt(ts, pos, GroupsTokens(parent, g, keys).value)
    requires end == pos + |GroupsTokens(parent, g, keys).value|
    ensures keys[0] in g.members && |g.members[keys[0]]| > 0
    ensures KeyedNodes(parent, g.members[keys[0]], keys[0], scopes)
    ensures forall x | x in g.members[keys[0]] :: x in parent.children
    ensures |keys[0]| > 0 && keys[0][0] != '@'
    ensures GroupTokens(parent, keys[0], g.members[keys[0]]).Success?
    ensures TokensAt(ts, pos, GroupTokens(parent, keys[0], g.members[keys[0]]).value)
    ensures next == pos + |GroupTokens(parent, keys[0], g.members[keys[0]]).value|
    ensures GroupsFrom(parent, g, keys[1..]) && KeyedGroups(parent, g, keys[1..], scopes)
    ensures AppendChildren(node, RegroupedList(parent, g.members[keys[0]])).Element?
    ensures GroupsTokens(parent, g, keys[1..]).Success? && TokensAt(ts, next, GroupsTokens(parent, g, keys[1..]).value)
    ensures end == next + |GroupsTokens(parent, g, keys[1..]).value|
  {
    FirstGroupKeyed(parent, g, keys, scopes);
    next := GroupsTokensSplit(parent, g, keys, ts, pos, end);
  }

  /** The first group of GroupsHead: its nodes, all keyed as convertible nodes, under an element's key. */
  lemma FirstGroupKeyed(parent: XmlNode, g: Groups, keys: seq<string>, scopes: Scopes)
    requires parent.HasChildren() && GroupsFrom(parent, g, keys) && keys != []
    requires KeyedGroups(parent, g, keys, scopes)
    ensures keys[0] in g.members && |g.members[keys[0]]| > 0
    ensures KeyedNodes(parent, g.members[keys[0]], keys[0], scopes)
    ensures forall x | x in g.members[keys[0]] :: x in parent.children
    ensures |keys[0]| > 0 && keys[0][0] != '@'
    ensures GroupsFrom(parent, g, keys[1..]) && KeyedGroups(parent, g, keys[1..], scopes)
  {
    var key := keys[0];
    assert key in keys;
    var group := g.members[key];
    KeyedNodesWithin(parent, group, key, scopes);
    assert |key| > 0 && key[0] != '@' by {
      assert group[0] in group;
      KeyOfConvertible(group[0], scopes);
    }
  }

  /** The tokens of GroupsHead: the first group's, then the other groups'. */
  lemma GroupsTokensSplit(parent: XmlNode, g: Groups, keys: seq<string>, ts: seq<Token>, pos: nat, end: nat) returns (next: nat)
    requires parent.HasChildren() && GroupsFrom(parent, g, keys) && keys != []
    requires GroupsTokens(parent, g, keys).Success? && TokensAt(ts, pos, GroupsTokens(parent, g, keys).value)
    requires end == pos + |GroupsTokens(parent, g, keys).value|
    ensures GroupsFrom(parent, g, keys[1..])
    ensures GroupTokens(parent, keys[0], g.members[keys[0]]).Success?
    ensures TokensAt(ts, pos, GroupTokens(parent, keys[0], g.members[keys[0]]).value)
    ensures next == pos + |GroupTokens(parent, keys[0], g.members[keys[0]]).value|
    ensures GroupsTokens(parent, g, keys[1..]).Success? && TokensAt(ts, next, GroupsTokens(parent, g, keys[1..]).value)
    ensures end == next + |GroupsTokens(parent, g, keys[1..]).value|
  {
    assert keys[0] in keys;
    var first := GroupTokens(parent, keys[0], g.members[keys[0]]).value;
    var rest := GroupsTokens(parent, g, keys[1..]).value;
    TokensAtSplit(ts, pos, first, rest);
    next := pos + |first|;
  }

  /** The first group read as a property, up to last, then the others read by the loop from next, make the groups read. */
  lemma GroupsJoin(parent: XmlNode, g: Groups, keys: seq<string>, ts: seq<Token>, pos: nat, last: nat, next: nat, end: nat,
      node: XmlNode, scopes: Scopes)
    requires parent.HasChildren() && GroupsFrom(parent, g, keys) && node.Element? && keys != []
    requires keys[0] in g.members && forall x | x in g.members[keys[0]] :: x in parent.children
    requires GroupsFrom(parent, g, keys[1..])
    requires pos < last && next == last + 1 && next <= end < |ts|
    requires ts[pos] == PropertyName(keys[0]) && !ts[last].PropertyName?
    requires var r := PropertySpec(ts, pos, keys[0], node, scopes);
      r.Success? && r.value == Progress(last, AppendChildren(node, RegroupedList(parent, g.members[keys[0]])), scopes)
    requires var mid := AppendChildren(node, RegroupedList(parent, g.members[keys[0]]));
      var r := NodeSpec(ts, next, mid, scopes);
      r.Success? && r.value == Progress(end, AppendChildren(mid, RegroupedGroups(parent, g, keys[1..])), scopes)
    ensures var r := NodeSpec(ts, pos, node, scopes);
      r.Success? && r.value == Progress(end, AppendChildren(node, RegroupedGroups(parent, g, keys)), scopes)
  {
    var list := RegroupedList(parent, g.members[keys[0]]);
    var done := Progress(last, AppendChildren(node, list), scopes);
    NodePropertyStep(ts, pos, keys[0], node, scopes, done);
    NodeContinueUnfolds(ts, pos, done);
    assert RegroupedGroups(parent, g, keys) == list + RegroupedGroups(parent, g, keys[1..]);
    AppendTwice(node, list, RegroupedGroups(parent, g, keys[1..]));
  }

  /**
   * One group, as the forward pass writes it from pos up to next (its key, then its one
   * node's value or an array of its nodes' values), is read back as a property appending
   * its nodes regrouped, the reader left on its last token.
   */
  lemma {:induction false} GroupRead(parent: XmlNode, key: string, group: seq<XmlNode>, ts: seq<Token>, pos: nat, next: nat,
      node: XmlNode, scopes: Scopes) returns (last: nat)
    requires parent.HasChildren() && |group| > 0 && node.Element?
    requires KeyedNodes(parent, group, key, scopes)
    requires forall x | x in group :: x in parent.children
    requires GroupTokens(parent, key, group).Success? && TokensAt(ts, pos, GroupTokens(parent, key, group).value)
    requires next == pos + |GroupTokens(parent, key, group).value|
    ensures next == last + 1 && pos < last < |ts|
    ensures ts[pos] == PropertyName(key) && !ts[last].PropertyName?
    ensures var r := PropertySpec(ts, pos, key, node, scopes);
      r.Success? && r.value == Progress(last, AppendChildren(node, RegroupedList(parent, group)), scopes)
    decreases parent, 2, 2
  {
    if |group| == 1 {
      last := SingleGroupRead(parent, key, group, ts, pos, next, node, scopes);
    } else {
      last := ArrayGroupRead(parent, key, group, ts, pos, next, node, scopes);
    }
  }

  /** GroupRead for a group of one node: the node's value under the key. */
  lemma {:induction false} SingleGroupRead(parent: XmlNode, key: string, group: seq<XmlNode>, ts: seq<Token>, pos: nat, next: nat,
      node: XmlNode, scopes: Scopes) returns (last: nat)
    requires parent.HasChildren() && |group| == 1 && node.Element?
    requires KeyedNodes(parent, group, key, scopes)
    requires forall x | x in group :: x in parent.children
    requires GroupTokens(parent, key, group).Success? && TokensAt(ts, pos, GroupTokens(parent, key, group).value)
    requires next == pos + |GroupTokens(parent, key, group).value|
    ensures next == last + 1 && pos < last < |ts|
    ensures ts[pos] == PropertyName(key) && !ts[last].PropertyName?
    ensures var r := PropertySpec(ts, pos, key, node, scopes);
      r.Success? && r.value == Progress(last, AppendChildren(node, RegroupedList(parent, group)), scopes)
    decreases parent, 2, 0
  {
    last := SingleGroupOpens(parent, key, group, ts, pos, next, scopes);
    ValueReads(group[0], ts, pos + 1, last, node, scopes);
    SingleGroupCloses(parent, key, group, ts, pos, last, node, scopes);
  }

  /** GroupRead for a group of several nodes: an array of their values under the key. */
  lemma {:induction false} ArrayGroupRead(parent: XmlNode, key: string, group: seq<XmlNode>, ts: seq<Token>, pos: nat, next: nat,
      node: XmlNode, scopes: Scopes) returns (last: nat)
    requires parent.HasChildren() && |group| > 1 && node.Element?
    requires KeyedNodes(parent, group, key, scopes)
    requires forall x | x in group :: x in parent.children
    requires GroupTokens(parent, key, group).Success? && TokensAt(ts, pos, GroupTokens(parent, key, group).value)
    requires next == pos + |GroupTokens(parent, key, group).value|
    ensures next == last + 1 && pos < last < |ts|
    ensures ts[pos] == PropertyName(key) && !ts[last].PropertyName?
    ensures var r := PropertySpec(ts, pos, key, node, scopes);
      r.Success? && r.value == Progress(last, AppendChildren(node, RegroupedList(parent, group)), scopes)
    decreases parent, 2, 1
  {
    var open;
    open, last := ArrayGroupOpens(parent, key, group, ts, pos, next, scopes);
    ArrayItemsRead(parent, key, group, ts, pos, open, last, node, scopes);
  }

  /** The items of the array under the key, opened at open and ending at last, read as the group. */
  lemma {:induction false} ArrayItemsRead(parent: XmlNode, key: string, group: seq<XmlNode>, ts: seq<Token>, pos: nat, open: nat, last: nat,
      node: XmlNode, scopes: Scopes)
    requires parent.HasChildren() && |group| > 1 && node.Element?
    requires KeyedNodes(parent, group, key, scopes)
    requires forall x | x in group :: x in parent.children
    requires Within(parent, group) && SeqTokens(parent, group, false).Success?
    requires open == pos + 1 && TokensAt(ts, open + 1, SeqTokens(parent, group, false).value)
    requires last == open + 1 + |SeqTokens(parent, group, false).value| && last < |ts| && ts[last] == EndArray
    requires ts[open] == StartArray
    ensures var r := PropertySpec(ts, pos, key, node, scopes);
      r.Success? && r.value == Progress(last, AppendChildren(node, RegroupedList(parent, group)), scopes)
    decreases parent, 2, 0
  {
    ItemsRead(parent, key, group, ts, open, last, node, scopes);
    ArrayGroupCloses(parent, key, group, ts, pos, open, last, node, scopes);
  }

  /** A group of one node is written as the node under its key, since a convertible node has no json:Array. */
  lemma SingleGroupOpens(parent: XmlNode, key: string, group: seq<XmlNode>, ts: seq<Token>, pos: nat, next: nat, scopes: Scopes)
    returns (last: nat)
    requires parent.HasChildren() && |group| == 1
    requires KeyedNodes(parent, group, key, scopes)
    requires forall x | x in group :: x in parent.children
    requires GroupTokens(parent, key, group).Success? && TokensAt(ts, pos, GroupTokens(parent, key, group).value)
    requires next == pos + |GroupTokens(parent, key, group).value|
    ensures group[0] in parent.children && Convertible(group[0], scopes)
    ensures GetPropertyName(group[0]).Success? && GetPropertyName(group[0]).value == key
    ensures NodeTokens(group[0], false).Success? && TokensAt(ts, pos + 1, NodeTokens(group[0], false).value)
    ensures last + 1 == pos + 1 + |NodeTokens(group[0], false).value| && next == last + 1
    ensures pos < |ts| && ts[pos] == PropertyName(key)
  {
    var x := group[0];
    NoArrayMarker(x, scopes);
    NamedTokens(x, scopes);
    TokensAtSplit(ts, pos, [PropertyName(key)], NodeTokens(x, false).value);
    TokensAtIndex(ts, pos, [PropertyName(key)], 0);
    last := pos + |NodeTokens(x, false).value|;
  }

  /** The one node's value, read under the key up to last, is the group read. */
  lemma SingleGroupCloses(parent: XmlNode, key: string, group: seq<XmlNode>, ts: seq<Token>, pos: nat, last: nat,
      node: XmlNode, scopes: Scopes)
    requires parent.HasChildren() && |group| == 1 && node.Element?
    requires forall x | x in group :: x in parent.children
    requires pos + 1 <= last < |ts| && OpensValue(ts[pos + 1]) && ClosesValue(ts[last])
    requires var r := ValueSpec(ts, pos + 1, key, node, scopes);
      r.Success? && r.value == Progress(last, AppendChild(node, Regrouped(group[0])), scopes)
    ensures !ts[last].PropertyName?
    ensures var r := PropertySpec(ts, pos, key, node, scopes);
      r.Success? && r.value == Progress(last, AppendChildren(node, RegroupedList(parent, group)), scopes)
  {
    PropertyValueStep(ts, pos, key, node, scopes);
    assert group[0] in group && group[1..] == [];
    assert RegroupedList(parent, group) == [Regrouped(group[0])];
  }

  /** A group of several nodes is written as its key and an array of their values, the array closing at last. */
  lemma ArrayGroupOpens(parent: XmlNode, key: string, group: seq<XmlNode>, ts: seq<Token>, pos: nat, next: nat, scopes: Scopes)
    returns (open: nat, last: nat)
    requires parent.HasChildren() && |group| > 1
    requires KeyedNodes(parent, group, key, scopes)
    requires forall x | x in group :: x in parent.children
    requires GroupTokens(parent, key, group).Success? && TokensAt(ts, pos, GroupTokens(parent, key, group).value)
    requires next == pos + |GroupTokens(parent, key, group).value|
    ensures Within(parent, group) && SeqTokens(parent, group, false).Success?
    ensures open == pos + 1 && TokensAt(ts, open + 1, SeqTokens(parent, group, false).value)
    ensures last == open + 1 + |SeqTokens(parent, group, false).value| && next == last + 1
    ensures last < |ts| && ts[last] == EndArray
    ensures ts[pos] == PropertyName(key) && ts[open] == StartArray
  {
    ArrayGroupTokens(parent, key, group, scopes);
    open, last := ArrayTokensAt(ts, pos, next, key, SeqTokens(parent, group, false).value);
  }

  /** The tokens of a group of several nodes: its key, the start of an array, their values, the end of the array. */
  lemma ArrayGroupTokens(parent: XmlNode, key: string, group: seq<XmlNode>, scopes: Scopes)
    requires parent.HasChildren() && |group| > 1
    requires KeyedNodes(parent, group, key, scopes)
    requires forall x | x in group :: x in parent.children
    requires GroupTokens(parent, key, group).Success?
    ensures Within(parent, group) && SeqTokens(parent, group, false).Success?
    ensures GroupTokens(parent, key, group).value == [PropertyName(key), StartArray] + SeqTokens(parent, group, false).value + [EndArray]
  {
    KeyedNodesWithin(parent, group, key, scopes);
  }

  /** The parts of an array group's tokens, each in its place: the array opened at open, the items after it, the array's end at last. */
  lemma ArrayTokensAt(ts: seq<Token>, pos: nat, next: nat, key: string, items: seq<Token>) returns (open: nat, last: nat)
    requires TokensAt(ts, pos, [PropertyName(key), StartArray] + items + [EndArray])
    requires next == pos + |[PropertyName(key), StartArray] + items + [EndArray]|
    ensures open == pos + 1 && TokensAt(ts, open + 1, items)
    ensures last == open + 1 + |items| && next == last + 1
    ensures last < |ts| && ts[last] == EndArray
    ensures ts[pos] == PropertyName(key) && ts[open] == StartArray
  {
    open := pos + 1;
    var head := [PropertyName(key), StartArray];
    TokensAtSplit(ts, pos, head + items, [EndArray]);
    TokensAtSplit(ts, pos, head, items);
    TokensAtIndex(ts, pos, head, 0);
    TokensAtIndex(ts, pos, head, 1);
    last := pos + |head + items|;
    TokensAtIndex(ts, last, [EndArray], 0);
  }

  /** The array's items read under the key, up to the array's end at last, are the group read. */
  lemma ArrayGroupCloses(parent: XmlNode, key: string, group: seq<XmlNode>, ts: seq<Token>, pos: nat, open: nat, last: nat,
      node: XmlNode, scopes: Scopes)
    requires parent.HasChildren() && |group| > 1 && node.Element?
    requires forall x | x in group :: x in parent.children
    requires open == pos + 1 && open < |ts| && ts[open] == StartArray
    requires var r := ItemsSpec(ts, open, EndArray, key, node, scopes);
      r.Success? && r.value == Progress(last, AppendChildren(node, RegroupedList(parent, group)), scopes)
    ensures var r := PropertySpec(ts, pos, key, node, scopes);
      r.Success? && r.value == Progress(last, AppendChildren(node, RegroupedList(parent, group)), scopes)
  {
    PropertyArrayStep(ts, pos, key, node, scopes);
  }

  /** The items of an array group, after pos and up to the array's end at end, are read back one by one, each appending its node regrouped. */
  lemma {:induction false} ItemsRead(parent: XmlNode, key: string, nodes: seq<XmlNode>, ts: seq<Token>, pos: nat, end: nat,
      node: XmlNode, scopes: Scopes)
    requires parent.HasChildren() && node.HasChildren()
    requires KeyedNodes(parent, nodes, key, scopes)
    requires forall x | x in nodes :: x in parent.children
    requires Within(parent, nodes) && SeqTokens(parent, nodes, false).Success?
    requires TokensAt(ts, pos + 1, SeqTokens(parent, nodes, false).value)
    requires end == pos + 1 + |SeqTokens(parent, nodes, false).value| && end < |ts| && ts[end] == EndArray
    ensures var r := ItemsSpec(ts, pos, EndArray, key, node, scopes);
      r.Success? && r.value == Progress(end, AppendChildren(node, RegroupedList(parent, nodes)), scopes)
    decreases parent, 1, |nodes|
  {
    if nodes == [] {
      ItemsNoneRead(parent, key, nodes, ts, pos, end, node, scopes);
    } else {
      var last := ItemsHead(parent, key, nodes, ts, pos, end, scopes);
      ValueReads(nodes[0], ts, pos + 1, last, node, scopes);
      ItemsRead(parent, key, nodes[1..], ts, last, end, AppendChild(node, Regrouped(nodes[0])), scopes);
      ItemsJoin(parent, key, nodes, ts, pos, last, end, node, scopes);
    }
  }

  /** No item left: the end of the array stops the loop, nothing appended. */
  lemma ItemsNoneRead(parent: XmlNode, key: string, nodes: seq<XmlNode>, ts: seq<Token>, pos: nat, end: nat, node: XmlNode, scopes: Scopes)
    requires parent.HasChildren() && node.HasChildren() && nodes == []
    requires Within(parent, nodes) && SeqTokens(parent, nodes, false).Success?
    requires end == pos + 1 + |SeqTokens(parent, nodes, false).value| && end < |ts| && ts[end] == EndArray
    ensures var r := ItemsSpec(ts, pos, EndArray, key, node, scopes);
      r.Success? && r.value == Progress(end, AppendChildren(node, RegroupedList(parent, nodes)), scopes)
  {
    assert SeqTokens(parent, nodes, false).value == [];
    ItemsEndStep(ts, pos, EndArray, key, node, scopes);
    assert node.children + [] == node.children;
  }

  /** The first item and the others, each where the tokens put it, with what reading them needs; the first ends at last. */
  lemma ItemsHead(parent: XmlNode, key: string, nodes: seq<XmlNode>, ts: seq<Token>, pos: nat, end: nat, scopes: Scopes)
    returns (last: nat)
    requires parent.HasChildren() && nodes != []
    requires KeyedNodes(parent, nodes, key, scopes)
    requires forall x | x in nodes :: x in parent.children
    requires Within(parent, nodes) && SeqTokens(parent, nodes, false).Success?
    requires TokensAt(ts, pos + 1, SeqTokens(parent, nodes, false).value)
    requires end == pos + 1 + |SeqTokens(parent, nodes, false).value|
    ensures nodes[0] in parent.children && Convertible(nodes[0], scopes)
    ensures GetPropertyName(nodes[0]).Success? && GetPropertyName(nodes[0]).value == key
    ensures NodeTokens(nodes[0], false).Success? && TokensAt(ts, pos + 1, NodeTokens(nodes[0], false).value)
    ensures last + 1 == pos + 1 + |NodeTokens(nodes[0], false).value|
    ensures KeyedNodes(parent, nodes[1..], key, scopes)
    ensures forall x | x in nodes[1..] :: x in parent.children
    ensures Within(parent, nodes[1..]) && SeqTokens(parent, nodes[1..], false).Success?
    ensures TokensAt(ts, last + 1, SeqTokens(parent, nodes[1..], false).value)
    ensures end == last + 1 + |SeqTokens(parent, nodes[1..], false).value|
  {
    KeyedNodesWithin(parent, nodes[1..], key, scopes);
    SeqTokensSplit(parent, nodes, false);
    last := ItemsPartsAt(ts, pos, end, NodeTokens(nodes[0], false).value, SeqTokens(parent, nodes[1..], false).value);
  }

  /** The first item's tokens stand from pos + 1 up to last, the others' from last + 1 up to end. */
  lemma ItemsPartsAt(ts: seq<Token>, pos: nat, end: nat, first: seq<Token>, rest: seq<Token>) returns (last: nat)
    requires TokensAt(ts, pos + 1, first + rest) && end == pos + 1 + |first + rest|
    ensures TokensAt(ts, pos + 1, first) && last + 1 == pos + 1 + |first|
    ensures TokensAt(ts, last + 1, rest) && end == last + 1 + |rest|
  {
    TokensAtSplit(ts, pos + 1, first, rest);
    last := pos + |first|;
  }

  /** The first item read as a value up to last, then the others read by the loop, make the items read. */
  lemma ItemsJoin(parent: XmlNode, key: string, nodes: seq<XmlNode>, ts: seq<Token>, pos: nat, last: nat, end: nat,
      node: XmlNode, scopes: Scopes)
    requires parent.HasChildren() && node.HasChildren() && nodes != []
    requires forall x | x in nodes :: x in parent.children
    requires pos + 1 <= last < end < |ts| && OpensValue(ts[pos + 1])
    requires var r := ValueSpec(ts, pos + 1, key, node, scopes);
      r.Success? && r.value == Progress(last, AppendChild(node, Regrouped(nodes[0])), scopes)
    requires var next := AppendChild(node, Regrouped(nodes[0]));
      var r := ItemsSpec(ts, last, EndArray, key, next, scopes);
      r.Success? && r.value == Progress(end, AppendChildren(next, RegroupedList(parent, nodes[1..])), scopes)
    ensures var r := ItemsSpec(ts, pos, EndArray, key, node, scopes);
      r.Success? && r.value == Progress(end, AppendChildren(node, RegroupedList(parent, nodes)), scopes)
  {
    var x := nodes[0];
    ItemsStep(ts, pos, EndArray, key, node, scopes);
    assert nodes[0] in nodes;
    assert RegroupedList(parent, nodes) == [Regrouped(x)] + RegroupedList(parent, nodes[1..]);
    assert AppendChild(node, Regrouped(x)) == AppendChildren(node, [Regrouped(x)]);
    AppendTwice(node, [Regrouped(x)], RegroupedList(parent, nodes[1..]));
  }

  /**
   * The round trip of the converter: for a convertible element, what WriteJson writes is
   * read back by ReadJson (no root element name) as a document holding that element with
   * every element's children grouped by key.
   */
  lemma WriteJsonRoundTrip(n: XmlNode)
    requires n.Element? && Convertible(n, InitialScopes()) && WriteJsonTokens(n).Success?
    ensures ReadJsonSpec(WriteJsonTokens(n).value, 0, "").Success?
    ensures ReadJsonSpec(WriteJsonTokens(n).value, 0, "").value == Document([Regrouped(n)])
  {
    var ts := WriteJsonTokens(n).value;
    var last, end := WriteJsonLayout(n);
    ValueReads(n, ts, 2, last, Document([]), InitialScopes());
    WriteJsonCloses(n, ts, last, end);
  }

  /** A tree in which, under every element, children of one key stand next to each other. */
  predicate ContiguousTree(n: XmlNode)
    decreases n
  {
    n.Element? ==> ContiguousKeys(n.children) && forall c | c in n.children :: ContiguousTree(c)
  }

  /**
   * The round trip without its proviso: for a convertible element whose same-key
   * siblings are contiguous, ReadJson (no root element name) reads back what WriteJson
   * writes as a document holding exactly that element.
   */
  lemma WriteJsonReadsBack(n: XmlNode)
    requires n.Element? && Convertible(n, InitialScopes()) && WriteJsonTokens(n).Success?
    requires ContiguousTree(n)
    ensures ReadJsonSpec(WriteJsonTokens(n).value, 0, "").Success?
    ensures ReadJsonSpec(WriteJsonTokens(n).value, 0, "").value == Document([n])
  {
    WriteJsonRoundTrip(n);
    RegroupedContiguous(n);
  }

  /** Regrouping moves nothing in a tree whose same-key siblings are contiguous. */
  lemma {:induction false} RegroupedContiguous(n: XmlNode)
    requires ContiguousTree(n)
    ensures Regrouped(n) == n
    decreases n
  {
    if n.Element? && GroupNodes(n.children).Success? {
      forall c | c in n.children
        ensures Regrouped(c) == c
      {
        RegroupedContiguous(c);
      }
      var g := GroupNodes(n.children).value;
      GroupsWithin(n.children);
      GroupsKeepContiguousOrder(n.children);
      RegroupedGroupsFlatten(n, g, g.order);
      assert n.(children := n.children) == n;
    }
  }

  /**
   * Siblings of one key that are not contiguous are moved together: the children a, b, a
   * of an element come back as a, a, b, since the first a opens the first group.
   */
  lemma SplitSiblingsMove(r: string, a: string, b: string)
    requires a != b
    ensures var x := Element(a, "", [], []);
      var y := Element(b, "", [], []);
      Regrouped(Element(r, "", [], [x, y, x])) == Element(r, "", [], [x, x, y])
  {
    var x := Element(a, "", [], []);
    var y := Element(b, "", [], []);
    SplitSiblingsGroups(x, y);
    var g := GroupNodes([x, y, x]).value;
    SplitSiblingsRegrouped(Element(r, "", [], [x, y, x]), x, y, g);
  }

  /** Regrouping the groups of a, holding a twice, and b, each a childless element. */
  lemma SplitSiblingsRegrouped(parent: XmlNode, x: XmlNode, y: XmlNode, g: Groups)
    requires x.Element? && y.Element? && x.attributes == [] && x.children == [] && y.attributes == [] && y.children == []
    requires parent.Element? && parent.children == [x, y, x]
    requires g.order == [x.name, y.name] && x.name in g.members && y.name in g.members
    requires g.members[x.name] == [x, x] && g.members[y.name] == [y]
    ensures GroupsFrom(parent, g, g.order)
    ensures RegroupedGroups(parent, g, g.order) == [x, x, y]
  {
    RegroupedFew(x);
    RegroupedFew(y);
    assert g.order[1..] == [y.name] && [y.name][1..] == [];
    assert RegroupedList(parent, [y]) == [y];
    assert RegroupedList(parent, [x, x]) == [x] + RegroupedList(parent, [x]);
    assert RegroupedGroups(parent, g, [y.name]) == [y] + RegroupedGroups(parent, g, []);
  }

  /** The grouping of the children a, b, a: the group of a, holding both, then the group of b. */
  lemma SplitSiblingsGroups(x: XmlNode, y: XmlNode)
    requires x.Element? && y.Element? && x.name != y.name
    ensures GroupNodes([x, y, x]).Success?
    ensures var g := GroupNodes([x, y, x]).value;
      g.order == [x.name, y.name] && x.name in g.members && y.name in g.members
      && g.members[x.name] == [x, x] && g.members[y.name] == [y]
  {
    TwoSiblingsGroups(x, y);
    GroupNodesStep([x, y], x);
    assert [x, y] + [x] == [x, y, x];
  }

  /** The grouping of the children a, b: one group each, in that order. */
  lemma TwoSiblingsGroups(x: XmlNode, y: XmlNode)
    requires x.Element? && y.Element? && x.name != y.name
    ensures GroupNodes([x, y]).Success?
    ensures var g := GroupNodes([x, y]).value;
      g.order == [x.name, y.name] && x.name in g.members && y.name in g.members
      && g.members[x.name] == [x] && g.members[y.name] == [y]
  {
    var first := [x];
    assert first == [] + [x];
    GroupNodesStep([], x);
    var both := [x, y];
    assert both == first + [y];
    GroupNodesStep(first, y);
  }

  /** When every child is its own regrouping, regrouping the groups of keys is enumerating them. */
  lemma {:induction false} RegroupedGroupsFlatten(parent: XmlNode, g: Groups, keys: seq<string>)
    requires parent.HasChildren() && GroupsFrom(parent, g, keys)
    requires forall c | c in parent.children :: Regrouped(c) == c
    ensures RegroupedGroups(parent, g, keys) == Flatten(g, keys)
    decreases |keys|
  {
    if keys != [] {
      assert keys[0] in keys;
      RegroupedListSame(parent, g.members[keys[0]]);
      RegroupedGroupsFlatten(parent, g, keys[1..]);
      FlattenFront(g, keys);
    }
  }

  /** When every child is its own regrouping, regrouping some of them leaves them as they are. */
  lemma {:induction false} RegroupedListSame(parent: XmlNode, nodes: seq<XmlNode>)
    requires parent.HasChildren() && forall c | c in nodes :: c in parent.children
    requires forall c | c in parent.children :: Regrouped(c) == c
    ensures RegroupedList(parent, nodes) == nodes
    decreases |nodes|
  {
    if nodes != [] {
      assert nodes[0] in nodes;
      RegroupedListSame(parent, nodes[1..]);
      assert nodes == [nodes[0]] + nodes[1..];
    }
  }

  /** WriteJson's tokens: the start of an object, the element's name, its value from 2 to last, the end of the object at end. */
  lemma WriteJsonLayout(n: XmlNode) returns (last: nat, end: nat)
    requires n.Element? && Convertible(n, InitialScopes()) && WriteJsonTokens(n).Success?
    ensures NodeTokens(n, false).Success? && GetPropertyName(n).Success? && GetPropertyName(n).value == n.name
    ensures TokensAt(WriteJsonTokens(n).value, 2, NodeTokens(n, false).value)
    ensures last + 1 == 2 + |NodeTokens(n, false).value| && end == last + 1 && |WriteJsonTokens(n).value| == end + 1
    ensures WriteJsonTokens(n).value[0] == StartObject && WriteJsonTokens(n).value[1] == PropertyName(n.name)
    ensures WriteJsonTokens(n).value[end] == EndObject
  {
    var ts := WriteJsonTokens(n).value;
    NamedTokens(n, InitialScopes());
    var b := NodeTokens(n, false).value;
    var head := [StartObject, PropertyName(n.name)];
    var tail := b + [EndObject];
    assert ts == head + tail;
    assert TokensAt(ts, 2, b) && ts[2 + |b|] == EndObject by {
      TokensAtWhole(head, tail);
      TokensAtSplit(ts, 2, b, [EndObject]);
    }
    last := 1 + |b|;
    end := 2 + |b|;
  }

  /** The element's value read, up to last, as the only property of the root object makes the document. */
  lemma WriteJsonCloses(n: XmlNode, ts: seq<Token>, last: nat, end: nat)
    requires n.Element? && 2 <= last && end == last + 1 && |ts| == end + 1
    requires ts[0] == StartObject && ts[1] == PropertyName(n.name) && ts[end] == EndObject
    requires OpensValue(ts[2]) && ClosesValue(ts[last])
    requires var r := ValueSpec(ts, 2, n.name, Document([]), InitialScopes());
      r.Success? && r.value == Progress(last, AppendChild(Document([]), Regrouped(n)), InitialScopes())
    ensures ReadJsonSpec(ts, 0, "").Success?
    ensures ReadJsonSpec(ts, 0, "").value == Document([Regrouped(n)])
  {
    var done := Progress(last, Document([Regrouped(n)]), InitialScopes());
    assert [] + [Regrouped(n)] == [Regrouped(n)];
    PropertyValueStep(ts, 1, n.name, Document([]), InitialScopes());
    NodePropertyStep(ts, 1, n.name, Document([]), InitialScopes(), done);
    NodeContinueUnfolds(ts, 1, done);
    NodeEndStep(ts, end, done.node, InitialScopes());
  }

  /** The tokens of an element written as an object: its attribute properties, then its groups. */
  lemma ObjectLayout(c: XmlNode)
    requires c.Element? && ObjectTokens(c).Success?
    ensures SeqTokens(c, c.attributes, true).Success? && GroupNodes(c.children).Success?
    ensures var g := GroupNodes(c.children).value; GroupsFrom(c, g, g.order)
    ensures var g := GroupNodes(c.children).value; GroupsTokens(c, g, g.order).Success?
    ensures var g := GroupNodes(c.children).value;
      ObjectTokens(c).value == [StartObject] + SeqTokens(c, c.attributes, true).value + GroupsTokens(c, g, g.order).value + [EndObject]
  {
    GroupsWithin(c.children);
  }

  /** The four parts of an object's tokens, each in its place: props from pos + 1, body from stop, the end at last. */
  lemma ObjectTokensAt(ts: seq<Token>, pos: nat, stop: nat, last: nat, props: seq<Token>, body: seq<Token>)
    requires TokensAt(ts, pos, [StartObject] + props + body + [EndObject])
    requires stop == pos + 1 + |props| && last + 1 == pos + |[StartObject] + props + body + [EndObject]|
    ensures last == stop + |body| && last < |ts|
    ensures ts[pos] == StartObject && ts[last] == EndObject
    ensures TokensAt(ts, pos + 1, props) && TokensAt(ts, stop, body)
  {
    TokensAtSplit(ts, pos, [StartObject] + props + body, [EndObject]);
    TokensAtSplit(ts, pos, [StartObject] + props, body);
    TokensAtSplit(ts, pos, [StartObject], props);
    TokensAtIndex(ts, pos, [StartObject], 0);
    TokensAtIndex(ts, last, [EndObject], 0);
  }

  /** Every member of every group of a convertible element is convertible in the element's own scope, under its key. */
  lemma GroupsConvertible(c: XmlNode, scopes: Scopes)
    requires c.Element? && Convertible(c, scopes) && GroupNodes(c.children).Success?
    ensures var g := GroupNodes(c.children).value;
      forall k | k in g.order :: k in g.members && forall x | x in g.members[k] ::
        Convertible(x, Push(scopes)) && GetPropertyName(x).Success? && GetPropertyName(x).value == k
  {
    GroupedKeys(c.children);
    GroupsWithin(c.children);
    forall x | x in c.children
      ensures Convertible(x, Push(scopes))
    {
      ConvertiblePush(x, scopes);
    }
  }

  /** The element the reverse pass creates from a convertible element's name and attributes is that element without its children. */
  lemma CreatedIsBare(c: XmlNode, scopes: Scopes)
    requires c.Element? && Convertible(c, scopes)
    ensures CreatedElement(c.name, AttributePairs(c.attributes), scopes) == c.(children := [])
  {
    CreateAttributesBack(c.attributes, scopes);
  }

  /** An object under a plain name that ends after its leading attribute properties is read as one element without children. */
  lemma EmptyObjectRead(ts: seq<Token>, pos: nat, stop: nat, name: string, node: XmlNode, scopes: Scopes, pairs: seq<(string, string)>)
    requires IsPlainName(name) && node.HasChildren()
    requires stop == pos + 1 + 2 * |pairs| && stop < |ts| && ts[pos] == StartObject
    requires AttributesAt(ts, pos + 1, pairs) && DistinctKeys(pairs) && DeclareAll(scopes, pairs) == scopes
    requires ts[stop] == EndObject
    ensures ValueSpec(ts, pos, name, node, scopes).Success?
    ensures ValueSpec(ts, pos, name, node, scopes).value
      == Progress(stop, AppendChild(node, CreatedElement(name, pairs, scopes)), scopes)
  {
    ObjectAttributesRead(ts, pos, stop, name, node, scopes, pairs, false, true);
    BodyEmptyStep(ts, AttributeState(stop, pairs, scopes, false, true), name, node);
  }

  /**
   * An object under a plain name whose leading attribute properties are followed by
   * properties the node loop reads into inner is read as one element, inner.
   */
  lemma ContentObjectRead(ts: seq<Token>, pos: nat, stop: nat, name: string, node: XmlNode, scopes: Scopes,
      pairs: seq<(string, string)>, inner: XmlNode, last: nat)
    requires IsPlainName(name) && node.HasChildren()
    requires stop == pos + 1 + 2 * |pairs| && stop < |ts| && ts[pos] == StartObject
    requires AttributesAt(ts, pos + 1, pairs) && DistinctKeys(pairs) && DeclareAll(scopes, pairs) == scopes
    requires EndsAttributes(ts[stop]) && ts[stop].PropertyName?
    requires NodeSpec(ts, stop, CreatedElement(name, pairs, scopes), Push(scopes)).Success?
    requires NodeSpec(ts, stop, CreatedElement(name, pairs, scopes), Push(scopes)).value
      == Progress(last, inner, Push(scopes))
    ensures ValueSpec(ts, pos, name, node, scopes).Success?
    ensures ValueSpec(ts, pos, name, node, scopes).value == Progress(last, AppendChild(node, inner), scopes)
  {
    ObjectAttributesRead(ts, pos, stop, name, node, scopes, pairs, true, false);
    BodyContentRead(ts, AttributeState(stop, pairs, scopes, true, false), name, node, inner, last);
  }

  /** The body of an element with content: the node loop's element, appended, and the element's scope popped. */
  lemma BodyContentRead(ts: seq<Token>, attrs: AttributeState, name: string, node: XmlNode, inner: XmlNode, last: nat)
    requires attrs.pos < |ts| && ts[attrs.pos].PropertyName? && !attrs.finishedElement && node.HasChildren()
    requires NodeSpec(ts, attrs.pos, CreatedElement(name, attrs.pairs, attrs.scopes), Push(attrs.scopes)).Success?
    requires NodeSpec(ts, attrs.pos, CreatedElement(name, attrs.pairs, attrs.scopes), Push(attrs.scopes)).value
      == Progress(last, inner, Push(attrs.scopes))
    ensures ElementBodySpec(ts, attrs, name, node).Success?
    ensures ElementBodySpec(ts, attrs, name, node).value == Progress(last, AppendChild(node, inner), attrs.scopes)
  {
    BodyContentStep(ts, attrs, name, node);
    PushThenPop(attrs.scopes, "");
  }

  /** An object under a plain name: its leading attribute properties are read, then its body. */
  lemma ObjectAttributesRead(ts: seq<Token>, pos: nat, stop: nat, name: string, node: XmlNode, scopes: Scopes, pairs: seq<(string, string)>,
      finishedAttributes: bool, finishedElement: bool)
    requires IsPlainName(name) && node.HasChildren()
    requires stop == pos + 1 + 2 * |pairs| && stop < |ts| && ts[pos] == StartObject
    requires AttributesAt(ts, pos + 1, pairs) && DistinctKeys(pairs) && DeclareAll(scopes, pairs) == scopes
    requires EndsAttributes(ts[stop])
    requires finishedAttributes == ts[stop].PropertyName?
    requires finishedElement == (ts[stop] == EndObject)
    ensures ValueSpec(ts, pos, name, node, scopes)
        == ElementBodySpec(ts, AttributeState(stop, pairs, scopes, finishedAttributes, finishedElement), name, node)
  {
    var attrs := AttributeState(stop, pairs, scopes, finishedAttributes, finishedElement);
    LeadingAttributesRead(ts, pos, stop, scopes, pairs, finishedAttributes, finishedElement);
    ObjectIsElement(ts, pos, name, node, scopes, attrs);
  }

  /** The attribute loop over leading plain attribute properties ends on the token after them, the scopes unchanged. */
  lemma LeadingAttributesRead(ts: seq<Token>, pos: nat, stop: nat, scopes: Scopes, pairs: seq<(string, string)>,
      finishedAttributes: bool, finishedElement: bool)
    requires stop == pos + 1 + 2 * |pairs| && stop < |ts|
    requires AttributesAt(ts, pos + 1, pairs) && DistinctKeys(pairs) && DeclareAll(scopes, pairs) == scopes
    requires EndsAttributes(ts[stop])
    requires finishedAttributes == ts[stop].PropertyName?
    requires finishedElement == (ts[stop] == EndObject)
    ensures && AttributesSpec(ts, pos, [], scopes).Success?
      && AttributesSpec(ts, pos, [], scopes).value == AttributeState(stop, pairs, scopes, finishedAttributes, finishedElement)
  {
    assert [] + pairs == pairs;
    AttributesCollected(ts, pos, stop, [], pairs, scopes);
  }

  /** An object under a plain name is read as an element: its attributes first, then its body. */
  lemma ObjectIsElement(ts: seq<Token>, pos: nat, name: string, node: XmlNode, scopes: Scopes, attrs: AttributeState)
    requires IsPlainName(name) && node.HasChildren()
    requires pos < |ts| && ts[pos] == StartObject
    requires AttributesSpec(ts, pos, [], scopes).Success? && AttributesSpec(ts, pos, [], scopes).value == attrs
    ensures ValueSpec(ts, pos, name, node, scopes) == ElementBodySpec(ts, attrs, name, node)
  {
    PlainValueIsElement(ts, pos, name, node, scopes);
    ObjectElementStep(ts, pos, name, node, scopes, attrs);
  }


  /** The tokens of a list of nodes: the first node's, then the others'. */
  lemma SeqTokensSplit(parent: XmlNode, nodes: seq<XmlNode>, writePropertyName: bool)
    requires parent.HasChildren() && Within(parent, nodes) && nodes != []
    requires SeqTokens(parent, nodes, writePropertyName).Success?
    ensures NodeTokens(nodes[0], writePropertyName).Success? && SeqTokens(parent, nodes[1..], writePropertyName).Success?
    ensures SeqTokens(parent, nodes, writePropertyName).value
      == NodeTokens(nodes[0], writePropertyName).value + SeqTokens(parent, nodes[1..], writePropertyName).value
  {
    assert nodes[0] in nodes;
  }

  /**
   * A lone comment is written as a comment token inside its parent's object, and the
   * attribute loop refuses that token: <a><!--c--></a> is written as {"a": {/*c*/}},
   * which ReadJson cannot read.
   */
  lemma LoneCommentReadFails(a: string, c: string)
    requires IsPlainName(a)
    ensures var n := Element(a, "", [], [Comment(c)]);
      && WriteJsonTokens(n) == Success([StartObject, PropertyName(a), StartObject, CommentToken(c), EndObject, EndObject])
      && ReadJsonSpec(WriteJsonTokens(n).value, 0, "") == Failure(UnexpectedToken)
  {
    var n := Element(a, "", [], [Comment(c)]);
    var body := [StartObject, CommentToken(c), EndObject];
    assert ObjectTokens(n).Success? && ObjectTokens(n).value == body by {
      var g := LoneCommentGroup(n.children, c);
      assert WriteAsArray(n.children).Success? && WriteAsArray(n.children).value == false;
      assert NodeTokens(n.children[0], true).Success? && NodeTokens(n.children[0], true).value == [CommentToken(c)];
      assert GroupTokens(n, CommentName, n.children).Success? && GroupTokens(n, CommentName, n.children).value == [CommentToken(c)];
      assert GroupsTokens(n, g, g.order[1..]).Success? && GroupsTokens(n, g, g.order[1..]).value == [];
      assert GroupsTokens(n, g, g.order).Success? && GroupsTokens(n, g, g.order).value == [CommentToken(c)];
      assert GroupedTokens(n).Success? && GroupedTokens(n).value == [CommentToken(c)];
      assert SeqTokens(n, n.attributes, true).Success? && SeqTokens(n, n.attributes, true).value == [];
    }
    var ts := [StartObject, PropertyName(a), StartObject, CommentToken(c), EndObject, EndObject];
    assert NodeTokens(n, true).Success? && NodeTokens(n, true).value == [PropertyName(a)] + body;
    assert WriteJsonTokens(n).Success? && WriteJsonTokens(n).value == ts;
    CommentObjectFails(ts, a, Document([]), InitialScopes());
  }

  /** The grouping of a lone comment: one group, under "#comment". */
  lemma LoneCommentGroup(nodes: seq<XmlNode>, c: string) returns (g: Groups)
    requires nodes == [Comment(c)]
    ensures GroupNodes(nodes) == Success(g)
    ensures g.order == [CommentName] && CommentName in g.members && g.members[CommentName] == nodes
  {
    assert nodes == [] + [Comment(c)];
    GroupNodesStep([], Comment(c));
    g := GroupNodes(nodes).value;
  }

  /** The attribute loop of the element a refuses the comment token that opens its object. */
  lemma CommentObjectFails(ts: seq<Token>, a: string, node: XmlNode, scopes: Scopes)
    requires IsPlainName(a) && node.Document? && !HasDocumentElement(node)
    requires |ts| == 6 && ts[0] == StartObject && ts[1] == PropertyName(a) && ts[2] == StartObject && ts[3].CommentToken?
    ensures NodeSpec(ts, 1, node, scopes) == Failure(UnexpectedToken)
  {
    PropertyValueStep(ts, 1, a, node, scopes);
    PlainValueIsElement(ts, 2, a, node, scopes);
    assert AttributesSpec(ts, 2, [], scopes) == Failure(UnexpectedToken);
  }

  /**
   * Two comments are written as an empty array under "#comment", as a comment written
   * without a property name emits nothing, and the empty array adds nothing when read:
   * <a><!--c--><!--d--></a> is written as {"a": {"#comment": []}} and read back as an
   * empty a.
   */
  lemma CommentsDropped(a: string, c: string, d: string)
    requires IsPlainName(a)
    ensures var n := Element(a, "", [], [Comment(c), Comment(d)]);
      && WriteJsonTokens(n) == Success([StartObject, PropertyName(a), StartObject, PropertyName(CommentName), StartArray, EndArray, EndObject, EndObject])
      && ReadJsonSpec(WriteJsonTokens(n).value, 0, "") == Success(Document([Element(a, ElementNamespace(a, InitialScopes()), [], [])]))
  {
    var n := Element(a, "", [], [Comment(c), Comment(d)]);
    var body := [StartObject, PropertyName(CommentName), StartArray, EndArray, EndObject];
    assert ObjectTokens(n).Success? && ObjectTokens(n).value == body by {
      TwoCommentsObject(n, c, d);
    }
    var ts := [StartObject, PropertyName(a), StartObject, PropertyName(CommentName), StartArray, EndArray, EndObject, EndObject];
    assert NodeTokens(n, true).Success? && NodeTokens(n, true).value == [PropertyName(a)] + body;
    assert WriteJsonTokens(n).Success? && WriteJsonTokens(n).value == ts;
    EmptyCommentArrayRead(ts, a);
  }

  /** The object two comments are written as: an empty array under "#comment". */
  lemma TwoCommentsObject(n: XmlNode, c: string, d: string)
    requires n.Element? && n.attributes == [] && n.children == [Comment(c), Comment(d)]
    ensures ObjectTokens(n).Success?
    ensures ObjectTokens(n).value == [StartObject, PropertyName(CommentName), StartArray, EndArray, EndObject]
  {
    var written := [PropertyName(CommentName), StartArray, EndArray];
    var g := TwoCommentsGroup(n.children, c, d);
    CommentsWriteNothing(n, n.children);
    assert WriteAsArray(n.children).Success? && WriteAsArray(n.children).value == true;
    assert GroupTokens(n, CommentName, n.children).Success? && GroupTokens(n, CommentName, n.children).value == written;
    assert GroupsTokens(n, g, g.order[1..]).Success? && GroupsTokens(n, g, g.order[1..]).value == [];
    assert GroupsTokens(n, g, g.order).Success? && GroupsTokens(n, g, g.order).value == written;
    assert GroupedTokens(n).Success? && GroupedTokens(n).value == written;
    assert SeqTokens(n, n.attributes, true).Success? && SeqTokens(n, n.attributes, true).value == [];
  }

  /** The grouping of two comments: one group, under "#comment", holding both. */
  lemma TwoCommentsGroup(nodes: seq<XmlNode>, c: string, d: string) returns (g: Groups)
    requires nodes == [Comment(c), Comment(d)]
    ensures GroupNodes(nodes) == Success(g)
    ensures g.order == [CommentName] && CommentName in g.members && g.members[CommentName] == nodes
  {
    var first := [Comment(c)];
    assert first == [] + [Comment(c)];
    GroupNodesStep([], Comment(c));
    assert nodes == first + [Comment(d)];
    GroupNodesStep(first, Comment(d));
    g := GroupNodes(nodes).value;
  }

  /** Comments written without a property name emit nothing. */
  lemma {:induction false} CommentsWriteNothing(parent: XmlNode, nodes: seq<XmlNode>)
    requires parent.HasChildren() && Within(parent, nodes)
    requires forall i | 0 <= i < |nodes| :: nodes[i].Comment?
    ensures SeqTokens(parent, nodes, false) == Success([])
    decreases |nodes|
  {
    if nodes != [] {
      assert nodes[0] in nodes && nodes[0].Comment?;
      assert NodeTokens(nodes[0], false).Success? && NodeTokens(nodes[0], false).value == [];
      CommentsWriteNothing(parent, nodes[1..]);
      assert SeqTokens(parent, nodes, false).Success?;
      assert SeqTokens(parent, nodes, false).value == [];
    }
  }

  /** {"a": {"#comment": []}} reads as an empty a: the array under "#comment" has no item to read. */
  lemma EmptyCommentArrayRead(ts: seq<Token>, a: string)
    requires IsPlainName(a)
    requires |ts| == 8 && ts[0] == StartObject && ts[1] == PropertyName(a) && ts[2] == StartObject
    requires ts[3] == PropertyName(CommentName) && ts[4] == StartArray && ts[5] == EndArray && ts[6] == EndObject && ts[7] == EndObject
    ensures ReadJsonSpec(ts, 0, "") == Success(Document([Element(a, ElementNamespace(a, InitialScopes()), [], [])]))
  {
    var scopes := InitialScopes();
    var e := CreatedElement(a, [], scopes);
    var done := Progress(6, Document([e]), scopes);
    assert PropertySpec(ts, 1, a, Document([]), scopes).Success? && PropertySpec(ts, 1, a, Document([]), scopes).value == done by {
      EmptyCommentArrayValue(ts, a, scopes);
      PropertyValueStep(ts, 1, a, Document([]), scopes);
    }
    assert NodeSpec(ts, 1, Document([]), scopes) == Success(done.(pos := 7)) by {
      assert !HasDocumentElement(Document([]));
      NodePropertyThenNext(ts, 1, a, Document([]), scopes, done);
      NodeEndStep(ts, 7, done.node, scopes);
    }
    assert e == Element(a, ElementNamespace(a, scopes), [], []) by {
      InlineElement(a, scopes, "");
    }
  }

  /** The value of a in EmptyCommentArrayRead: the element a, made without children. */
  lemma EmptyCommentArrayValue(ts: seq<Token>, a: string, scopes: Scopes)
    requires IsPlainName(a)
    requires |ts| == 8 && ts[2] == StartObject && ts[3] == PropertyName(CommentName)
    requires ts[4] == StartArray && ts[5] == EndArray && ts[6] == EndObject
    ensures ValueSpec(ts, 2, a, Document([]), scopes) == Success(Progress(6, Document([CreatedElement(a, [], scopes)]), scopes))
  {
    var e := CreatedElement(a, [], scopes);
    var inner := Push(scopes);
    assert NodeSpec(ts, 3, e, inner) == Success(Progress(6, e, inner)) by {
      EmptyCommentArrayContent(ts, e, inner);
    }
    var attrs := AttributeState(3, [], scopes, true, false);
    assert AttributesSpec(ts, 2, [], scopes).Success? && AttributesSpec(ts, 2, [], scopes).value == attrs;
    assert ValueSpec(ts, 2, a, Document([]), scopes) == ElementBodySpec(ts, attrs, a, Document([])) by {
      PlainValueIsElement(ts, 2, a, Document([]), scopes);
      ObjectElementStep(ts, 2, a, Document([]), scopes, attrs);
    }
    BodyContentStep(ts, attrs, a, Document([]));
    assert Pop(inner) == scopes;
    assert AppendChild(Document([]), e) == Document([e]) by {
      assert [] + [e] == [e];
    }
  }

  /** The content of a in EmptyCommentArrayRead: the empty array under "#comment", then the end of a. */
  lemma EmptyCommentArrayContent(ts: seq<Token>, e: XmlNode, scopes: Scopes)
    requires e.Element?
    requires |ts| == 8 && ts[3] == PropertyName(CommentName) && ts[4] == StartArray && ts[5] == EndArray && ts[6] == EndObject
    ensures NodeSpec(ts, 3, e, scopes) == Success(Progress(6, e, scopes))
  {
    PropertyArrayStep(ts, 3, CommentName, e, scopes);
    ItemsEndStep(ts, 4, EndArray, CommentName, e, scopes);
    NodePropertyThenNext(ts, 3, CommentName, e, scopes, Progress(5, e, scopes));
    NodeEndStep(ts, 6, e, scopes);
  }
}
