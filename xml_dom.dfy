/**
 * The part of System.Xml's document object model that the converter reads and builds:
 * one closed datatype for every XmlNodeType it can meet, with the node properties
 * (Prefix, NamespaceURI, AppendChild) that its code consults.
 */
module XmlDom {

  /**
   * An XML node. Elements and attributes carry their qualified name (XmlNode.Name,
   * prefix and colon included) and their resolved namespace URI. DocumentType and
   * EntityReference stand for the node kinds the converter has no JSON key for.
   */
  datatype XmlNode =
    | Document(children: seq<XmlNode>)
    | DocumentFragment(children: seq<XmlNode>)
    | Element(name: string, namespaceUri: string, attributes: seq<XmlNode>, children: seq<XmlNode>)
    | Attribute(name: string, namespaceUri: string, value: string)
    | Text(value: string)
    | CData(value: string)
    | Comment(value: string)
    | Whitespace(value: string)
    | SignificantWhitespace(value: string)
    | ProcessingInstruction(target: string, value: string)
    | Declaration(version: string, encoding: string, standalone: string)
    | DocumentType(name: string)
    | EntityReference(name: string)
  {
    /** The kinds that own an ordered list of child nodes. */
    predicate HasChildren() {
      Document? || DocumentFragment? || Element?
    }

    /** XmlNode.NamespaceURI: empty for every kind but elements and attributes. */
    function NamespaceURI(): string {
      if Element? || Attribute? then namespaceUri else ""
    }

    /** XmlNode.Prefix: the part of an element or attribute name before its first colon. */
    function Prefix(): string {
      if Element? || Attribute? then NamePrefix(name) else ""
    }
  }

  /** String.IndexOf(c): the first index of c in s, or -1. */
  function IndexOf(s: string, c: char): (i: int)
    ensures -1 <= i < |s|
    ensures i == -1 <==> c !in s
    ensures i >= 0 ==> s[i] == c && c !in s[..i]
  {
    if |s| == 0 then -1
    else if s[0] == c then 0
    else
      var j := IndexOf(s[1..], c);
      if j == -1 then -1
      else
        assert s[..j + 1] == [s[0]] + s[1..][..j];
        j + 1
  }

  /** The prefix of a qualified name as XmlDocument splits it: everything before the first colon. */
  function NamePrefix(qualifiedName: string): (prefix: string)
    ensures ':' !in prefix
    ensures ':' in qualifiedName ==> |prefix| < |qualifiedName| && qualifiedName[..|prefix| + 1] == prefix + [':']
    ensures ':' !in qualifiedName ==> prefix == ""
  {
    var i := IndexOf(qualifiedName, ':');
    if i == -1 then "" else qualifiedName[..i]
  }

  /** The local part of a qualified name: everything after the first colon, or the whole name. */
  function LocalName(qualifiedName: string): (local: string)
    ensures ':' in qualifiedName ==> qualifiedName == NamePrefix(qualifiedName) + [':'] + local
    ensures ':' !in qualifiedName ==> local == qualifiedName
  {
    var i := IndexOf(qualifiedName, ':');
    if i == -1 then qualifiedName else qualifiedName[i + 1..]
  }

  /** XmlNode.AppendChild, as a value: the parent with child added after its last child. */
  function AppendChild(parent: XmlNode, child: XmlNode): (r: XmlNode)
    requires parent.HasChildren()
    ensures r.HasChildren() && r.children == parent.children + [child]
    ensures r.(children := parent.children) == parent
  {
    parent.(children := parent.children + [child])
  }

  /** A node that may stand among the children of an element: never a document, a fragment, an attribute or a declaration. */
  predicate IsContentNode(n: XmlNode) {
    !(n.Document? || n.DocumentFragment? || n.Attribute? || n.Declaration?)
  }

  /**
   * The shape the DOM gives every tree: an element's attribute list holds only attributes;
   * an element's children are content nodes; a document or fragment holds no document,
   * fragment or attribute, at most one declaration, and no element whose name starts
   * with '?' (no XML name does); the target "xml" is reserved for the declaration.
   */
  predicate WellFormed(n: XmlNode)
    decreases n
  {
    match n
    case Document(ch) => TopLevelChildren(ch) && forall c | c in ch :: WellFormed(c)
    case DocumentFragment(ch) => TopLevelChildren(ch) && forall c | c in ch :: WellFormed(c)
    case Element(_, _, attrs, ch) =>
      && (forall a | a in attrs :: a.Attribute?)
      && (forall c | c in ch :: IsContentNode(c) && WellFormed(c))
    case ProcessingInstruction(target, _) => target != "xml"
    case _ => true
  }

  predicate TopLevelChildren(ch: seq<XmlNode>) {
    && (forall c | c in ch :: !(c.Document? || c.DocumentFragment? || c.Attribute?))
    && (forall c | c in ch && c.Element? :: |c.name| == 0 || c.name[0] != '?')
    && (forall i, j | 0 <= i < j < |ch| :: !(ch[i].Declaration? && ch[j].Declaration?))
  }
}
