/**
 * The first half of SerializeGroupedNodes: the children of a node gathered into a
 * Dictionary from JSON key to the list of children with that key. A .NET Dictionary
 * that is only ever added to enumerates its entries in insertion order, so the
 * dictionary is modelled as the list of keys in insertion order plus a map.
 */
module Grouping {
  import opened Results
  import opened ConvertErrors
  import opened XmlDom
  import opened ConverterNames

  /** Dictionary<string, List<XmlNode>>: order is the enumeration order of the keys. */
  datatype Groups = Groups(order: seq<string>, members: map<string, seq<XmlNode>>)

  /** Every key enumerated once, exactly the keys of the map, each with a non-empty list. */
  predicate ValidGroups(g: Groups) {
    && (forall i, j | 0 <= i < j < |g.order| :: g.order[i] != g.order[j])
    && (forall k | k in g.order :: k in g.members)
    && (forall k | k in g.members :: k in g.order)
    && (forall k | k in g.members :: |g.members[k]| > 0)
  }

  /** One child added: TryGetValue, Add of a new list when the key is new, then List.Add. */
  function AddToGroup(g: Groups, key: string, n: XmlNode): (r: Groups)
    ensures r.members.Keys == g.members.Keys + {key}
    ensures key in g.members ==> r.order == g.order
    ensures key !in g.members ==> r.order == g.order + [key]
  {
    var nodes := if key in g.members then g.members[key] else [];
    var order := if key in g.members then g.order else g.order + [key];
    Groups(order, g.members[key := nodes + [n]])
  }

  /** The nodes whose JSON key is key, in document order. */
  function Members(nodes: seq<XmlNode>, key: string): (r: seq<XmlNode>)
    ensures |r| <= |nodes|
    decreases |nodes|
  {
    if nodes == [] then []
    else
      var last := nodes[|nodes| - 1];
      Members(nodes[..|nodes| - 1], key) + if GetPropertyName(last) == Success(key) then [last] else []
  }

  /** A group holds the nodes with its key and no others. */
  lemma {:induction false} MembersHaveKey(nodes: seq<XmlNode>, key: string)
    ensures forall c | c in Members(nodes, key) :: c in nodes && GetPropertyName(c) == Success(key)
    ensures forall c | c in nodes && GetPropertyName(c) == Success(key) :: c in Members(nodes, key)
    decreases |nodes|
  {
    if nodes != [] {
      var prefix := nodes[..|nodes| - 1];
      assert nodes == prefix + [nodes[|nodes| - 1]];
      MembersHaveKey(prefix, key);
    }
  }

  /** The position of the first node whose JSON key is key, or |nodes| when there is none. */
  function FirstIndex(nodes: seq<XmlNode>, key: string): (i: nat)
    ensures i <= |nodes|
    decreases |nodes|
  {
    if nodes == [] then 0
    else
      var p := FirstIndex(nodes[..|nodes| - 1], key);
      if p < |nodes| - 1 then p
      else if GetPropertyName(nodes[|nodes| - 1]) == Success(key) then |nodes| - 1
      else |nodes|
  }

  /** FirstIndex finds a node with the key, and no node before it has the key. */
  lemma {:induction false} FirstIndexIsFirst(nodes: seq<XmlNode>, key: string)
    ensures FirstIndex(nodes, key) < |nodes| ==> GetPropertyName(nodes[FirstIndex(nodes, key)]) == Success(key)
    ensures forall j | 0 <= j < FirstIndex(nodes, key) :: GetPropertyName(nodes[j]) != Success(key)
    decreases |nodes|
  {
    if nodes != [] {
      var prefix := nodes[..|nodes| - 1];
      FirstIndexIsFirst(prefix, key);
      assert forall j | 0 <= j < |prefix| :: nodes[j] == prefix[j];
    }
  }

  lemma FirstIndexStep(prefix: seq<XmlNode>, last: XmlNode, key: string)
    ensures FirstIndex(prefix + [last], key) ==
      var p := FirstIndex(prefix, key);
      if p < |prefix| then p
      else if GetPropertyName(last) == Success(key) then |prefix|
      else |prefix| + 1
  {
    assert (prefix + [last])[..|prefix|] == prefix;
  }

  lemma {:induction false} FirstIndexAbsent(nodes: seq<XmlNode>, key: string)
    requires forall c | c in nodes :: GetPropertyName(c) != Success(key)
    ensures FirstIndex(nodes, key) == |nodes|
    decreases |nodes|
  {
    if nodes != [] {
      var prefix := nodes[..|nodes| - 1];
      assert nodes == prefix + [nodes[|nodes| - 1]];
      FirstIndexAbsent(prefix, key);
      FirstIndexStep(prefix, nodes[|nodes| - 1], key);
    }
  }

  /**
   * The grouping loop of SerializeGroupedNodes over nodes; a node without a JSON key
   * stops it with GetPropertyName's exception.
   */
  function GroupNodes(nodes: seq<XmlNode>): (r: Result<Groups, ConvertError>)
    ensures r.Failure? ==> r.error == UnexpectedNodeType
    decreases |nodes|
  {
    if nodes == [] then Success(Groups([], map[]))
    else
      var g :- GroupNodes(nodes[..|nodes| - 1]);
      var key :- GetPropertyName(nodes[|nodes| - 1]);
      Success(AddToGroup(g, key, nodes[|nodes| - 1]))
  }

  lemma GroupNodesStep(prefix: seq<XmlNode>, last: XmlNode)
    requires GroupNodes(prefix).Success? && HasPropertyName(last)
    ensures GroupNodes(prefix + [last]) ==
      Success(AddToGroup(GroupNodes(prefix).value, GetPropertyName(last).value, last))
  {
    assert (prefix + [last])[..|prefix|] == prefix;
  }

  /** The loop raises exactly when some child has no JSON key. */
  lemma {:induction false} GroupNodesFails(nodes: seq<XmlNode>)
    ensures GroupNodes(nodes).Success? <==> forall c | c in nodes :: HasPropertyName(c)
    decreases |nodes|
  {
    if nodes != [] {
      var prefix := nodes[..|nodes| - 1];
      assert nodes == prefix + [nodes[|nodes| - 1]];
      GroupNodesFails(prefix);
    }
  }

  /** The dictionary built from nodes: each group holds exactly the children with its key, in document order. */
  predicate GroupsOf(nodes: seq<XmlNode>, g: Groups) {
    && ValidGroups(g)
    && (forall k | k in g.members :: g.members[k] == Members(nodes, k))
    && (forall c | c in nodes :: HasPropertyName(c) && GetPropertyName(c).value in g.members)
  }

  lemma MembersAppend(prefix: seq<XmlNode>, last: XmlNode, key: string)
    ensures Members(prefix + [last], key) ==
      Members(prefix, key) + if GetPropertyName(last) == Success(key) then [last] else []
  {
    assert (prefix + [last])[..|prefix|] == prefix;
  }

  lemma AddToGroupValid(g: Groups, key: string, n: XmlNode)
    requires ValidGroups(g)
    ensures ValidGroups(AddToGroup(g, key, n))
  {
  }

  lemma AddToGroupMembers(prefix: seq<XmlNode>, last: XmlNode, g: Groups, k: string)
    requires GroupsOf(prefix, g)
    requires HasPropertyName(last)
    requires k in AddToGroup(g, GetPropertyName(last).value, last).members
    ensures AddToGroup(g, GetPropertyName(last).value, last).members[k] == Members(prefix + [last], k)
  {
    var key := GetPropertyName(last).value;
    var h := AddToGroup(g, key, last);
    MembersAppend(prefix, last, k);
    if k != key {
      assert GetPropertyName(last) != Success(k);
      assert h.members[k] == g.members[k];
    } else if key in g.members {
      assert GetPropertyName(last) == Success(k);
      assert h.members[k] == Members(prefix, k) + [last];
    } else {
      assert GetPropertyName(last) == Success(k);
      NoMembersOfNewKey(prefix, g, k);
      assert h.members[k] == [last];
    }
  }

  /** A key the dictionary does not hold yet has no child filed under it. */
  lemma NoMembersOfNewKey(prefix: seq<XmlNode>, g: Groups, k: string)
    requires forall c | c in prefix :: HasPropertyName(c) && GetPropertyName(c).value in g.members
    requires k !in g.members
    ensures Members(prefix, k) == []
  {
    MembersHaveKey(prefix, k);
  }

  lemma AddToGroupKeepsGroupsOf(prefix: seq<XmlNode>, last: XmlNode, g: Groups)
    requires GroupsOf(prefix, g)
    requires HasPropertyName(last)
    ensures GroupsOf(prefix + [last], AddToGroup(g, GetPropertyName(last).value, last))
  {
    var h := AddToGroup(g, GetPropertyName(last).value, last);
    AddToGroupValid(g, GetPropertyName(last).value, last);
    forall k | k in h.members
      ensures h.members[k] == Members(prefix + [last], k)
    {
      AddToGroupMembers(prefix, last, g, k);
    }
  }

  lemma {:induction false} GroupNodesGroups(nodes: seq<XmlNode>)
    requires GroupNodes(nodes).Success?
    ensures GroupsOf(nodes, GroupNodes(nodes).value)
    decreases |nodes|
  {
    if nodes != [] {
      var prefix := nodes[..|nodes| - 1];
      var last := nodes[|nodes| - 1];
      assert nodes == prefix + [last];
      GroupNodesGroups(prefix);
      AddToGroupKeepsGroupsOf(prefix, last, GroupNodes(prefix).value);
    }
  }

  /** The groups of keys, one after the other, as the enumeration visits them. */
  function Flatten(g: Groups, keys: seq<string>): seq<XmlNode>
    decreases |keys|
  {
    if keys == [] then []
    else Flatten(g, keys[..|keys| - 1]) + Group(g, keys[|keys| - 1])
  }

  /** Flatten, read from the front: the first key's group, then the others'. */
  lemma {:induction false} FlattenFront(g: Groups, keys: seq<string>)
    requires keys != []
    ensures Flatten(g, keys) == Group(g, keys[0]) + Flatten(g, keys[1..])
    decreases |keys|
  {
    var init := keys[..|keys| - 1];
    if |keys| == 1 {
      assert keys[1..] == [] && init == [];
    } else {
      FlattenFront(g, init);
      assert init[0] == keys[0] && init[1..] == keys[1..][..|keys[1..]| - 1];
      assert keys[1..][|keys[1..]| - 1] == keys[|keys| - 1];
    }
  }

  /** The list filed under key, or none. */
  function Group(g: Groups, key: string): seq<XmlNode> {
    if key in g.members then g.members[key] else []
  }

  lemma {:induction false} FlattenAgrees(g: Groups, h: Groups, keys: seq<string>)
    requires forall k | k in keys :: Group(g, k) == Group(h, k)
    ensures Flatten(g, keys) == Flatten(h, keys)
    decreases |keys|
  {
    if keys != [] {
      FlattenAgrees(g, h, keys[..|keys| - 1]);
    }
  }

  lemma {:induction false} FlattenGrows(g: Groups, h: Groups, keys: seq<string>, key: string, n: XmlNode)
    requires forall i, j | 0 <= i < j < |keys| :: keys[i] != keys[j]
    requires key in keys
    requires Group(h, key) == Group(g, key) + [n]
    requires forall k | k in keys && k != key :: Group(g, k) == Group(h, k)
    ensures multiset(Flatten(h, keys)) == multiset(Flatten(g, keys)) + multiset{n}
    decreases |keys|
  {
    var init := keys[..|keys| - 1];
    DistinctInit(keys, init);
    if keys[|keys| - 1] == key {
      FlattenAgrees(g, h, init);
    } else {
      FlattenGrows(g, h, init, key, n);
    }
    FlattenLast(g, h, keys);
  }

  /** Without its last key, a list of distinct keys is still distinct, holds every other key, and not the last. */
  lemma DistinctInit(keys: seq<string>, init: seq<string>)
    requires keys != [] && init == keys[..|keys| - 1]
    requires forall i, j | 0 <= i < j < |keys| :: keys[i] != keys[j]
    ensures forall i, j | 0 <= i < j < |init| :: init[i] != init[j]
    ensures forall k | k in keys && k != keys[|keys| - 1] :: k in init
    ensures keys[|keys| - 1] !in init
  {
    forall k | k in keys && k != keys[|keys| - 1] ensures k in init {
      var i :| 0 <= i < |keys| && keys[i] == k;
      assert init[i] == k;
    }
  }

  /** Flatten splits off the group of the last key. */
  lemma FlattenLast(g: Groups, h: Groups, keys: seq<string>)
    requires keys != []
    ensures multiset(Flatten(h, keys)) == multiset(Flatten(h, keys[..|keys| - 1])) + multiset(Group(h, keys[|keys| - 1]))
    ensures multiset(Flatten(g, keys)) == multiset(Flatten(g, keys[..|keys| - 1])) + multiset(Group(g, keys[|keys| - 1]))
  {
  }

  lemma {:induction false} GroupNodesValid(nodes: seq<XmlNode>)
    requires GroupNodes(nodes).Success?
    ensures ValidGroups(GroupNodes(nodes).value)
    decreases |nodes|
  {
    if nodes != [] {
      var prefix := nodes[..|nodes| - 1];
      var last := nodes[|nodes| - 1];
      assert nodes == prefix + [last];
      GroupNodesFails(nodes);
      GroupNodesFails(prefix);
      GroupNodesStep(prefix, last);
      GroupNodesValid(prefix);
      AddToGroupValid(GroupNodes(prefix).value, GetPropertyName(last).value, last);
    }
  }

  lemma PartitionStep(g: Groups, key: string, n: XmlNode)
    requires ValidGroups(g)
    ensures multiset(Flatten(AddToGroup(g, key, n), AddToGroup(g, key, n).order))
      == multiset(Flatten(g, g.order)) + multiset{n}
  {
    var h := AddToGroup(g, key, n);
    if key in g.members {
      FlattenGrows(g, h, g.order, key, n);
    } else {
      FlattenAgrees(g, h, g.order);
      assert h.order[..|h.order| - 1] == g.order;
    }
  }

  /** Every child lands in exactly one group: the groups together are a permutation of the children. */
  lemma {:induction false} GroupsPartitionNodes(nodes: seq<XmlNode>)
    requires GroupNodes(nodes).Success?
    ensures multiset(Flatten(GroupNodes(nodes).value, GroupNodes(nodes).value.order)) == multiset(nodes)
    decreases |nodes|
  {
    if nodes != [] {
      var prefix := nodes[..|nodes| - 1];
      var last := nodes[|nodes| - 1];
      assert nodes == prefix + [last];
      GroupNodesFails(nodes);
      GroupNodesFails(prefix);
      GroupNodesStep(prefix, last);
      GroupsPartitionNodes(prefix);
      GroupNodesValid(prefix);
      PartitionStep(GroupNodes(prefix).value, GetPropertyName(last).value, last);
    }
  }

  /** The keys of order occur in nodes, and order lists them by their first occurrence. */
  predicate FirstSeenOrder(nodes: seq<XmlNode>, order: seq<string>) {
    && (forall k | k in order :: FirstIndex(nodes, k) < |nodes|)
    && (forall i, j | 0 <= i < j < |order| :: FirstIndex(nodes, order[i]) < FirstIndex(nodes, order[j]))
  }

  lemma FirstSeenStep(prefix: seq<XmlNode>, last: XmlNode, g: Groups)
    requires HasPropertyName(last)
    requires forall k | k in g.order :: k in g.members
    requires forall k | k in g.members :: k in g.order
    requires forall c | c in prefix :: HasPropertyName(c) && GetPropertyName(c).value in g.members
    requires FirstSeenOrder(prefix, g.order)
    ensures FirstSeenOrder(prefix + [last], AddToGroup(g, GetPropertyName(last).value, last).order)
  {
    var nodes := prefix + [last];
    var key := GetPropertyName(last).value;
    forall k | k in g.order
      ensures FirstIndex(nodes, k) == FirstIndex(prefix, k) < |prefix|
    {
      FirstIndexStep(prefix, last, k);
    }
    if key !in g.members {
      assert FirstIndex(nodes, key) == |prefix| by {
        FirstIndexAbsent(prefix, key);
        FirstIndexStep(prefix, last, key);
      }
      FirstSeenAdded(prefix, nodes, key, g.order);
    } else {
      assert AddToGroup(g, key, last).order == g.order;
    }
  }

  /** A key first seen at the last node goes to the end of the order. */
  lemma FirstSeenAdded(prefix: seq<XmlNode>, nodes: seq<XmlNode>, key: string, order: seq<string>)
    requires |nodes| == |prefix| + 1 && FirstSeenOrder(prefix, order)
    requires forall k | k in order :: FirstIndex(nodes, k) == FirstIndex(prefix, k)
    requires FirstIndex(nodes, key) == |prefix|
    ensures FirstSeenOrder(nodes, order + [key])
  {
    var before := k => FirstIndex(prefix, k);
    var after := k => FirstIndex(nodes, k);
    OrderExtends(order, key, before, after, |prefix|);
  }

  /** Extending an order by a key whose index is past every earlier key's keeps it increasing. */
  lemma OrderExtends(order: seq<string>, key: string, before: string -> nat, after: string -> nat, n: nat)
    requires forall k | k in order :: before(k) < n && after(k) == before(k)
    requires forall i, j | 0 <= i < j < |order| :: before(order[i]) < before(order[j])
    requires after(key) == n
    ensures forall k | k in order + [key] :: after(k) < n + 1
    ensures forall i, j | 0 <= i < j < |order| + 1 :: after((order + [key])[i]) < after((order + [key])[j])
  {
    var order' := order + [key];
    forall i, j | 0 <= i < j < |order'| ensures after(order'[i]) < after(order'[j]) {
      assert order'[i] == order[i] && order[i] in order;
      if j < |order| {
        assert order'[j] == order[j] && order[j] in order;
      }
    }
  }

  /** The dictionary enumerates its keys in the order in which they first occur among the children. */
  lemma {:induction false} GroupOrderIsFirstSeen(nodes: seq<XmlNode>)
    requires GroupNodes(nodes).Success?
    ensures FirstSeenOrder(nodes, GroupNodes(nodes).value.order)
    decreases |nodes|
  {
    if nodes != [] {
      var prefix := nodes[..|nodes| - 1];
      var last := nodes[|nodes| - 1];
      assert nodes == prefix + [last];
      GroupNodesFails(nodes);
      GroupNodesFails(prefix);
      GroupNodesStep(prefix, last);
      GroupOrderIsFirstSeen(prefix);
      GroupNodesGroups(prefix);
      FirstSeenStep(prefix, last, GroupNodes(prefix).value);
    }
  }

  /** What the enumeration loop relies on: every enumerated key has a non-empty list of children. */
  lemma GroupsWithin(nodes: seq<XmlNode>)
    requires GroupNodes(nodes).Success?
    ensures var g := GroupNodes(nodes).value;
      forall k | k in g.order :: k in g.members && |g.members[k]| > 0 && forall c | c in g.members[k] :: c in nodes
  {
    var g := GroupNodes(nodes).value;
    GroupNodesGroups(nodes);
    forall k | k in g.order
      ensures forall c | c in g.members[k] :: c in nodes
    {
      MembersHaveKey(nodes, k);
    }
  }

  /**
   * Children whose equal keys stand next to each other: each child either has the key of
   * the child before it or a key no earlier child has.
   */
  predicate ContiguousKeys(nodes: seq<XmlNode>)
    decreases |nodes|
  {
    nodes == [] ||
      var prefix := nodes[..|nodes| - 1];
      var last := nodes[|nodes| - 1];
      && ContiguousKeys(prefix)
      && (|prefix| == 0 || GetPropertyName(prefix[|prefix| - 1]) == GetPropertyName(last)
          || forall c | c in prefix :: GetPropertyName(c) != GetPropertyName(last))
  }

  /** The enumeration ends with the key of the last of the nodes. */
  predicate EndsWithLastKey(g: Groups, nodes: seq<XmlNode>) {
    nodes != [] ==>
      g.order != [] && HasPropertyName(nodes[|nodes| - 1]) && g.order[|g.order| - 1] == GetPropertyName(nodes[|nodes| - 1]).value
  }

  /**
   * When equal keys stand next to each other, enumerating the groups in key order gives
   * back the children in document order: the grouping moves nothing.
   */
  lemma {:induction false} GroupsKeepContiguousOrder(nodes: seq<XmlNode>)
    requires GroupNodes(nodes).Success? && ContiguousKeys(nodes)
    ensures var g := GroupNodes(nodes).value; Flatten(g, g.order) == nodes
    ensures EndsWithLastKey(GroupNodes(nodes).value, nodes)
    decreases |nodes|
  {
    if nodes != [] {
      var prefix := nodes[..|nodes| - 1];
      var last := nodes[|nodes| - 1];
      assert nodes == prefix + [last];
      GroupNodesFails(nodes);
      GroupNodesFails(prefix);
      GroupsKeepContiguousOrder(prefix);
      GroupNodesStep(prefix, last);
      GroupNodesValid(prefix);
      var h := GroupNodes(prefix).value;
      var key := GetPropertyName(last).value;
      var g := AddToGroup(h, key, last);
      assert GroupNodes(nodes).value == g;
      if key in h.members {
        AppendToLastGroup(prefix, last, h);
      } else {
        AppendNewGroup(prefix, last, h);
      }
    }
  }

  /** A child whose key the dictionary already holds joins the last group, which then ends the enumeration. */
  lemma AppendToLastGroup(prefix: seq<XmlNode>, last: XmlNode, h: Groups)
    requires GroupNodes(prefix).Success? && h == GroupNodes(prefix).value && ValidGroups(h)
    requires ContiguousKeys(prefix + [last]) && HasPropertyName(last) && GetPropertyName(last).value in h.members
    requires Flatten(h, h.order) == prefix
    requires EndsWithLastKey(h, prefix)
    ensures var g := AddToGroup(h, GetPropertyName(last).value, last);
      Flatten(g, g.order) == prefix + [last] && EndsWithLastKey(g, prefix + [last])
  {
    var key := GetPropertyName(last).value;
    LastChildHasKey(prefix, last, key);
    LastGroupGrows(h, key, last);
    assert (prefix + [last])[|prefix|] == last;
  }

  /** A node added to the group of the last key ends the enumeration. */
  lemma LastGroupGrows(h: Groups, key: string, n: XmlNode)
    requires forall i, j | 0 <= i < j < |h.order| :: h.order[i] != h.order[j]
    requires h.order != [] && h.order[|h.order| - 1] == key && key in h.members
    ensures var g := AddToGroup(h, key, n);
      g.order == h.order && Flatten(g, g.order) == Flatten(h, h.order) + [n]
  {
    var g := AddToGroup(h, key, n);
    var init := h.order[..|h.order| - 1];
    assert forall k | k in init :: Group(g, k) == Group(h, k) by {
      DistinctInit(h.order, init);
    }
    FlattenAgrees(g, h, init);
    assert Group(g, key) == Group(h, key) + [n];
  }

  /** A child with a new key opens a group of its own, last in the enumeration. */
  lemma AppendNewGroup(prefix: seq<XmlNode>, last: XmlNode, h: Groups)
    requires ValidGroups(h) && HasPropertyName(last) && GetPropertyName(last).value !in h.members
    requires Flatten(h, h.order) == prefix
    ensures var g := AddToGroup(h, GetPropertyName(last).value, last);
      Flatten(g, g.order) == prefix + [last] && EndsWithLastKey(g, prefix + [last])
  {
    var key := GetPropertyName(last).value;
    var g := AddToGroup(h, key, last);
    assert g.order[..|h.order|] == h.order;
    FlattenAgrees(g, h, h.order);
    assert Group(g, key) == [last];
  }

  /** A child whose key already has a group, after contiguous children, has the key of the child before it. */
  lemma LastChildHasKey(prefix: seq<XmlNode>, last: XmlNode, key: string)
    requires GroupNodes(prefix).Success? && key in GroupNodes(prefix).value.members
    requires ContiguousKeys(prefix + [last]) && GetPropertyName(last) == Success(key)
    ensures prefix != [] && GetPropertyName(prefix[|prefix| - 1]) == Success(key)
  {
    var c := FiledChild(prefix, key);
    assert (prefix + [last])[..|prefix|] == prefix;
  }

  /** A key the grouping holds is the key of some child. */
  lemma FiledChild(nodes: seq<XmlNode>, key: string) returns (c: XmlNode)
    requires GroupNodes(nodes).Success? && key in GroupNodes(nodes).value.members
    ensures c in nodes && GetPropertyName(c) == Success(key)
  {
    var ms := Members(nodes, key);
    assert ms != [] by {
      GroupNodesGroups(nodes);
    }
    c := ms[0];
    assert c in ms;
    MembersHaveKey(nodes, key);
  }
}
