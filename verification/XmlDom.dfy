/** rapidxml's node lists. Some pointers hold garbage: last_node of a node without children, and the
    siblings of a node without a parent. */
module XmlDom {

  class XmlNode {
    var parent: XmlNode?
    var firstNode: XmlNode?
    var lastNode: XmlNode?
    var prevSibling: XmlNode?
    var nextSibling: XmlNode?

    /** A fresh node: only the pointers that are always valid are set. */
    constructor (garbage: XmlNode?)
      ensures parent == null && firstNode == null
    {
      parent, firstNode := null, null;
      lastNode, prevSibling, nextSibling := garbage, garbage, garbage;
    }

    /** Element i of the children of this node. */
    ghost predicate IsChild(kids: seq<XmlNode>, i: nat)
      requires i < |kids|
      reads kids
    {
      && kids[i].prevSibling == (if i == 0 then null else kids[i - 1])
      && kids[i].nextSibling == if i == |kids| - 1 then null else kids[i + 1]
    }

    /** The children of this node, in order, under the rules for garbage. */
    ghost predicate Lists(kids: seq<XmlNode>)
      reads this, kids
    {
      && (if kids == [] then firstNode == null else firstNode == kids[0] && lastNode == kids[|kids| - 1])
      && (forall i, j :: 0 <= i < j < |kids| ==> kids[i] != kids[j])
      && (forall n :: n in kids ==> n.parent == this)
      && forall i :: 0 <= i < |kids| ==> IsChild(kids, i)
    }

    /** `prepend_node` */
    method PrependNode(child: XmlNode, ghost kids: seq<XmlNode>)
      requires Lists(kids) && child.parent == null
      modifies this`firstNode, this`lastNode, child`parent, child`prevSibling, child`nextSibling, kids`prevSibling
      ensures Lists([child] + kids)
    {
      if firstNode != null {
        child.nextSibling := firstNode;
        firstNode.prevSibling := child;
      } else {
        child.nextSibling := null;
        lastNode := child;
      }
      firstNode := child;
      child.parent := this;
      child.prevSibling := null;
      ghost var kids' := [child] + kids;
      forall i | 0 <= i < |kids'| ensures IsChild(kids', i) {
        if i > 0 {
          assert old(IsChild(kids, i - 1));
        }
      }
    }

    /** `append_node` */
    method AppendNode(child: XmlNode, ghost kids: seq<XmlNode>)
      requires Lists(kids) && child.parent == null
      modifies this`firstNode, this`lastNode, child`parent, child`prevSibling, child`nextSibling, kids`nextSibling
      ensures Lists(kids + [child])
    {
      if firstNode != null {
        child.prevSibling := lastNode;
        lastNode.nextSibling := child;
      } else {
        child.prevSibling := null;
        firstNode := child;
      }
      lastNode := child;
      child.parent := this;
      child.nextSibling := null;
      ghost var kids' := kids + [child];
      forall i | 0 <= i < |kids'| ensures IsChild(kids', i) {
        if i < |kids| {
          assert old(IsChild(kids, i));
        }
      }
    }

    /** `insert_node`, in front of child number k, or behind all if there is no such child. */
    method InsertNode(place: XmlNode?, child: XmlNode, ghost kids: seq<XmlNode>, ghost k: nat)
      requires Lists(kids) && child.parent == null
      requires k <= |kids| && place == if k < |kids| then kids[k] else null
      modifies this`firstNode, this`lastNode, child`parent, child`prevSibling, child`nextSibling
      modifies kids`prevSibling, kids`nextSibling
      ensures Lists(kids[..k] + [child] + kids[k..])
    {
      if place == firstNode {
        PrependNode(child, kids);
        assert [child] + kids == kids[..k] + [child] + kids[k..];
      } else if place == null {
        AppendNode(child, kids);
        assert kids + [child] == kids[..k] + [child] + kids[k..];
      } else {
        assert IsChild(kids, k) && IsChild(kids, k - 1);
        child.prevSibling := place.prevSibling;
        child.nextSibling := place;
        place.prevSibling.nextSibling := child;
        place.prevSibling := child;
        child.parent := this;
        ghost var kids' := kids[..k] + [child] + kids[k..];
        forall i | 0 <= i < |kids'| ensures IsChild(kids', i) {
          if i < k {
            assert old(IsChild(kids, i));
          } else if i > k {
            assert old(IsChild(kids, i - 1));
          }
        }
      }
    }

    /** `remove_first_node` */
    method RemoveFirstNode(ghost kids: seq<XmlNode>)
      requires Lists(kids) && kids != []
      modifies this`firstNode, this`lastNode, kids`parent, kids`prevSibling
      ensures Lists(kids[1..]) && kids[0].parent == null
    {
      assert IsChild(kids, 0);
      var child := firstNode;
      firstNode := child.nextSibling;
      if child.nextSibling != null {
        child.nextSibling.prevSibling := null;
      } else {
        lastNode := null;
      }
      child.parent := null;
      ghost var kids' := kids[1..];
      forall i | 0 <= i < |kids'| ensures IsChild(kids', i) {
        assert old(IsChild(kids, i + 1));
      }
    }

    /** `remove_last_node` */
    method RemoveLastNode(ghost kids: seq<XmlNode>)
      requires Lists(kids) && kids != []
      modifies this`firstNode, this`lastNode, kids`parent, kids`nextSibling
      ensures Lists(kids[..|kids| - 1]) && kids[|kids| - 1].parent == null
    {
      assert IsChild(kids, |kids| - 1);
      var child := lastNode;
      if child.prevSibling != null {
        lastNode := child.prevSibling;
        child.prevSibling.nextSibling := null;
      } else {
        firstNode := null;
      }
      child.parent := null;
      ghost var kids' := kids[..|kids| - 1];
      forall i | 0 <= i < |kids'| ensures IsChild(kids', i) {
        assert old(IsChild(kids, i));
      }
    }

    /** `remove_node`, of child number k. */
    method RemoveNode(place: XmlNode, ghost kids: seq<XmlNode>, ghost k: nat)
      requires Lists(kids) && k < |kids| && place == kids[k]
      modifies this`firstNode, this`lastNode, kids`parent, kids`prevSibling, kids`nextSibling
      ensures Lists(kids[..k] + kids[k + 1..]) && place.parent == null
    {
      if place == firstNode {
        RemoveFirstNode(kids);
        assert kids[1..] == kids[..k] + kids[k + 1..];
      } else if place == lastNode {
        RemoveLastNode(kids);
        assert kids[..|kids| - 1] == kids[..k] + kids[k + 1..];
      } else {
        assert IsChild(kids, k) && IsChild(kids, k - 1) && IsChild(kids, k + 1);
        place.prevSibling.nextSibling := place.nextSibling;
        place.nextSibling.prevSibling := place.prevSibling;
        place.parent := null;
        ghost var kids' := kids[..k] + kids[k + 1..];
        forall i | 0 <= i < |kids'| ensures IsChild(kids', i) {
          if i < k {
            assert old(IsChild(kids, i));
          } else {
            assert old(IsChild(kids, i + 1));
          }
        }
      }
    }

    /** `remove_all_nodes` */
    method RemoveAllNodes(ghost kids: seq<XmlNode>)
      requires Lists(kids)
      modifies this`firstNode, kids`parent
      ensures Lists([]) && forall i :: 0 <= i < |kids| ==> kids[i].parent == null
    {
      var node := firstNode;
      ghost var n := 0;
      while node != null
        invariant 0 <= n <= |kids| && node == if n < |kids| then kids[n] else null
        invariant forall i :: 0 <= i < n ==> kids[i].parent == null
        decreases |kids| - n
      {
        assert old(IsChild(kids, n));
        node.parent := null;
        node := node.nextSibling;
        n := n + 1;
      }
      firstNode := null;
    }
  }

  // ----- All nodes ---------------------------------------------------------------------------------------

  /** The child lists of a set of nodes: every list is well formed, and a node that has a parent is in the
      parent's list. */
  ghost predicate Forest(nodes: set<XmlNode>, kids: map<XmlNode, seq<XmlNode>>)
    reads nodes
  {
    && kids.Keys == nodes
    && (forall q, n :: q in nodes && n in kids[q] ==> n in nodes)
    && (forall q :: q in nodes ==> q.Lists(kids[q]))
    && forall n :: n in nodes && n.parent != null ==> n.parent in nodes && n in kids[n.parent]
  }

  /** The list of one node of a forest is rewritten, with nodes that were in it or in none. */
  datatype Rewrite = Rewrite(nodes: set<XmlNode>, kids: map<XmlNode, seq<XmlNode>>, node: XmlNode, list: seq<XmlNode>,
                             touched: set<XmlNode>)

  /** No other node has changed where it matters. */
  twostate predicate OnlyTouched(r: Rewrite)
    reads r.nodes
  {
    && (forall n :: n in r.nodes && n !in r.touched ==>
          n.parent == old(n.parent) && n.prevSibling == old(n.prevSibling) && n.nextSibling == old(n.nextSibling))
    && (forall n :: n in r.nodes && n != r.node ==> n.firstNode == old(n.firstNode) && n.lastNode == old(n.lastNode))
  }

  /** The nodes that may change: those of the list, and nodes without a parent. */
  ghost predicate MayTouch(r: Rewrite)
    reads r.nodes
  {
    && r.node in r.nodes && r.node in r.kids
    && (forall n :: n in r.list ==> n in r.nodes)
    && (forall n :: n in r.touched ==> n in r.nodes && (n.parent == null || n.parent == r.node))
    && (forall n :: n in r.kids[r.node] ==> n in r.touched)
  }

  /** All other lists are kept. */
  twostate lemma OthersKept(r: Rewrite)
    requires old(Forest(r.nodes, r.kids)) && old(MayTouch(r)) && OnlyTouched(r)
    requires r.node in r.nodes && r.node.Lists(r.list)
    requires forall n :: n in r.touched ==> n.parent == null || n in r.list
    ensures r.node in r.kids && Forest(r.nodes, r.kids[r.node := r.list])
  {
    var kids' := r.kids[r.node := r.list];
    forall q | q in r.nodes && q != r.node ensures q.Lists(kids'[q]) {
      var l := r.kids[q];
      assert old(q.Lists(l));
      forall i | 0 <= i < |l| ensures q.IsChild(l, i) {
        assert old(q.IsChild(l, i));
        assert l[i] in l;
      }
    }
    forall n | n in r.nodes && n.parent != null ensures n.parent in r.nodes && n in kids'[n.parent] {
      if n !in r.touched {
        assert old(n.parent) in r.nodes && n in r.kids[old(n.parent)];
      }
    }
  }

  /** A call of one of the operations; Insert and Remove name a child, or none to insert at the back. */
  datatype Edit =
    | Prepend(node: XmlNode, child: XmlNode)
    | Append(node: XmlNode, child: XmlNode)
    | Insert(node: XmlNode, place: XmlNode?, child: XmlNode)
    | RemoveFirst(node: XmlNode)
    | RemoveLast(node: XmlNode)
    | Remove(node: XmlNode, place: XmlNode?)
    | RemoveAll(node: XmlNode)

  /** What the operations assert of their arguments. */
  ghost predicate Allowed(e: Edit, nodes: set<XmlNode>)
    reads nodes
  {
    && e.node in nodes
    && match e
       case Prepend(_, child) => child in nodes && child.parent == null
       case Append(_, child) => child in nodes && child.parent == null
       case Insert(node, place, child) =>
         && (place == null || (place in nodes && place.parent == node))
         && child in nodes && child.parent == null
       case RemoveFirst(node) => node.firstNode != null
       case RemoveLast(node) => node.firstNode != null
       case Remove(node, place) => place in nodes && place.parent == node
       case RemoveAll(_) => true
  }

  function IndexOf(list: seq<XmlNode>, n: XmlNode?): (k: nat)
    ensures k <= |list| && (k < |list| ==> list[k] == n) && (n in list ==> k < |list|)
  {
    if list == [] || list[0] == n then 0 else 1 + IndexOf(list[1..], n)
  }

  /** What the operation makes of the list of its node. */
  function Edited(list: seq<XmlNode>, e: Edit): seq<XmlNode> {
    match e
    case Prepend(_, child) => [child] + list
    case Append(_, child) => list + [child]
    case Insert(_, place, child) => var k := IndexOf(list, place); list[..k] + [child] + list[k..]
    case RemoveFirst(_) => if list == [] then [] else list[1..]
    case RemoveLast(_) => if list == [] then [] else list[..|list| - 1]
    case Remove(_, place) => var k := IndexOf(list, place); if k == |list| then list else list[..k] + list[k + 1..]
    case RemoveAll(_) => []
  }

  /** The list l with n at place k, and otherwise like list. */
  predicate HasMore(list: seq<XmlNode>, l: seq<XmlNode>, k: nat, n: XmlNode) {
    k < |l| && l[k] == n && l[..k] + l[k + 1..] == list
  }

  /** What each operation promises: where the child stands afterwards, or which child is gone; the others
      stay in their order. */
  ghost predicate Does(e: Edit, list: seq<XmlNode>, l: seq<XmlNode>) {
    match e
    case Prepend(_, child) => HasMore(list, l, 0, child)
    case Append(_, child) => l != [] && HasMore(list, l, |l| - 1, child)
    case Insert(_, place, child) =>
      exists k: nat :: HasMore(list, l, k, child) && if place == null then k + 1 == |l| else k + 1 < |l| && l[k + 1] == place
    case RemoveFirst(_) => list != [] && HasMore(l, list, 0, list[0])
    case RemoveLast(_) => list != [] && HasMore(l, list, |list| - 1, list[|list| - 1])
    case Remove(_, place) => place != null && exists k: nat :: HasMore(l, list, k, place)
    case RemoveAll(_) => l == []
  }

  lemma EditedDoes(list: seq<XmlNode>, e: Edit)
    requires e.RemoveFirst? || e.RemoveLast? ==> list != []
    requires (e.Insert? && e.place != null) || e.Remove? ==> e.place != null && e.place in list
    ensures Does(e, list, Edited(list, e))
  {
    var l := Edited(list, e);
    match e
    case Prepend(_, child) => assert HasMore(list, l, 0, child);
    case Append(_, child) => assert HasMore(list, l, |l| - 1, child);
    case Insert(_, place, child) =>
      var k := IndexOf(list, place);
      assert list == list[..k] + list[k..];
      assert HasMore(list, l, k, child);
    case RemoveFirst(_) =>
      assert HasMore(l, list, 0, list[0]);
    case RemoveLast(_) =>
      assert HasMore(l, list, |list| - 1, list[|list| - 1]);
    case Remove(_, place) =>
      assert HasMore(l, list, IndexOf(list, place), place);
    case RemoveAll(_) =>
  }

  /** The nodes whose siblings or parent an operation may change. */
  function Touched(list: seq<XmlNode>, e: Edit): set<XmlNode> {
    (set n | n in list) + if e.Prepend? || e.Append? || e.Insert? then {e.child} else {}
  }

  /** The operation on the list of its node. */
  method ChangeList(e: Edit, ghost list: seq<XmlNode>, ghost nodes: set<XmlNode>)
    requires e.node.Lists(list) && Allowed(e, nodes)
    requires (e.Insert? || e.Remove?) && e.place != null ==> e.place in list
    modifies e.node`firstNode, e.node`lastNode
    modifies Touched(list, e)`parent, Touched(list, e)`prevSibling, Touched(list, e)`nextSibling
    ensures e.node.Lists(Edited(list, e))
    ensures forall n :: n in Touched(list, e) ==> n.parent == null || n in Edited(list, e)
  {
    var p := e.node;
    if e.Prepend? {
      p.PrependNode(e.child, list);
    } else if e.Append? {
      p.AppendNode(e.child, list);
    } else if e.Insert? {
      p.InsertNode(e.place, e.child, list, IndexOf(list, e.place));
    } else if e.RemoveFirst? {
      p.RemoveFirstNode(list);
    } else if e.RemoveLast? {
      p.RemoveLastNode(list);
    } else if e.Remove? {
      p.RemoveNode(e.place, list, IndexOf(list, e.place));
    } else {
      p.RemoveAllNodes(list);
    }
  }

  lemma EditMayTouch(e: Edit, nodes: set<XmlNode>, kids: map<XmlNode, seq<XmlNode>>)
    requires Forest(nodes, kids) && Allowed(e, nodes)
    ensures MayTouch(Rewrite(nodes, kids, e.node, Edited(kids[e.node], e), Touched(kids[e.node], e)))
    ensures e.node.Lists(kids[e.node])
    ensures (e.Insert? || e.Remove?) && e.place != null ==> e.place in kids[e.node]
  {
  }

  method EditForest(e: Edit, ghost nodes: set<XmlNode>, ghost kids: map<XmlNode, seq<XmlNode>>)
    requires Forest(nodes, kids) && Allowed(e, nodes)
    modifies nodes
    ensures Forest(nodes, kids[e.node := Edited(kids[e.node], e)])
  {
    ghost var list := kids[e.node];
    EditMayTouch(e, nodes, kids);
    hide Edited, IndexOf, Forest, Touched;
    ghost var r := Rewrite(nodes, kids, e.node, Edited(list, e), Touched(list, e));
    ChangeList(e, list, nodes);
    OthersKept(r);
  }

  lemma WillDo(e: Edit, nodes: set<XmlNode>, kids: map<XmlNode, seq<XmlNode>>)
    requires Forest(nodes, kids) && Allowed(e, nodes)
    ensures Does(e, kids[e.node], Edited(kids[e.node], e))
  {
    hide Does;
    EditMayTouch(e, nodes, kids);
    EditedDoes(kids[e.node], e);
  }

  /** Any operation on any node of a well-formed forest keeps it well formed, does to the list of that
      node what it promises, and changes no other list. */
  method Apply(e: Edit, ghost nodes: set<XmlNode>, ghost kids: map<XmlNode, seq<XmlNode>>)
    returns (ghost list': seq<XmlNode>)
    requires Forest(nodes, kids) && Allowed(e, nodes)
    modifies nodes
    ensures Does(e, kids[e.node], list')
    ensures Forest(nodes, kids[e.node := list'])
  {
    WillDo(e, nodes, kids);
    hide Edited, Does, Forest, Allowed;
    list' := Edited(kids[e.node], e);
    EditForest(e, nodes, kids);
  }
}
