/**
 The intrusive list of ecu/common: nodes carry the link and a pointer to the list that owns them.
 The class's assertions are what its methods require.
 */
module LinkedList {
  /** Where a member stands in a sequence. */
  function IndexOf<T(==)>(s: seq<T>, x: T): (k: nat)
    requires x in s
    ensures k < |s| && s[k] == x && forall j :: 0 <= j < k ==> s[j] != x
  {
    if s[0] == x then 0 else IndexOf(s[1..], x) + 1
  }

  function Except<T(==)>(s: seq<T>, x: T): seq<T>
    requires x in s
  {
    s[..IndexOf(s, x)] + s[IndexOf(s, x) + 1..]
  }

  function InsertedAt<T>(s: seq<T>, at: nat, x: T): seq<T>
    requires at <= |s|
  {
    s[..at] + [x] + s[at..]
  }

  /** What an iterator on the k-th node becomes when it is advanced. */
  function AfterPlace(s: seq<Node>, k: nat): Node?
  {
    if k + 1 < |s| then s[k + 1] else null
  }

  /** The place an iterator stands on: null is the end. */
  function PlaceOf(s: seq<Node>, pos: Node?): (k: nat)
    requires pos == null || pos in s
    ensures k <= |s|
  {
    if pos == null then |s| else IndexOf(s, pos)
  }

  class Node {
    var next: Node?
    var list: LinkedList?

    constructor ()
      ensures next == null && list == null
    {
      next, list := null, null;
    }
  }

  class LinkedList {
    var first: Node?
    var last: Node?
    ghost var nodes: seq<Node>

    /** The chain from `first` to `last` is `nodes`, without repetition. */
    ghost predicate Chained()
      reads this, set n | n in nodes
    {
      first == (if nodes == [] then null else nodes[0]) &&
      last == (if nodes == [] then null else nodes[|nodes| - 1]) &&
      (forall i {:trigger nodes[i].next} :: 0 <= i < |nodes| - 1 ==> nodes[i].next == nodes[i + 1]) &&
      (nodes != [] ==> nodes[|nodes| - 1].next == null) &&
      (forall i, j :: 0 <= i < j < |nodes| ==> nodes[i] != nodes[j])
    }

    /** And every node on it knows its list. */
    ghost predicate Valid()
      reads this, set n | n in nodes
    {
      Chained() && forall i {:trigger nodes[i].list} :: 0 <= i < |nodes| ==> nodes[i].list == this
    }

    constructor ()
      ensures Valid() && nodes == []
    {
      first, last, nodes := null, null, [];
    }

    /** `size`. */
    method Size() returns (size: nat)
      requires Valid()
      ensures size == |nodes|
    {
      size := if first != null then 1 else 0;
      var node := first;
      while node != last
        invariant nodes == [] ==> node == null && size == 0
        invariant nodes != [] ==> 1 <= size <= |nodes| && node == nodes[size - 1]
        decreases |nodes| - size
      {
        size := size + 1;
        node := node.next;
      }
    }

    /** `contains_node`. */
    method ContainsNode(node: Node) returns (found: bool)
      requires Valid()
      ensures found <==> node in nodes
    {
      var n := first;
      ghost var i := 0;
      while n != null
        invariant 0 <= i <= |nodes| && n == if i < |nodes| then nodes[i] else null
        invariant forall k :: 0 <= k < i ==> nodes[k] != node
        decreases |nodes| - i
      {
        if node == n { return true; }
        n := n.next;
        i := i + 1;
      }
      found := false;
    }

    /** `findPredecessor`: the node whose link is `node`; of null that is the last node. */
    method FindPredecessor(node: Node?) returns (result: Node?, ghost at: int)
      requires Chained()
      ensures result == null <==> forall k :: 0 <= k < |nodes| ==> nodes[k].next != node
      ensures result != null ==> result in nodes && result.next == node
      ensures -1 <= at < |nodes| && result == if at < 0 then null else nodes[at]
      ensures at >= 0 ==> nodes[at].next == node
      ensures forall k :: 0 <= k < |nodes| && nodes[k].next == node ==> at == k
    {
      result := first;
      at := 0;
      while result != null && result.next != node
        invariant 0 <= at <= |nodes| && result == if at < |nodes| then nodes[at] else null
        invariant forall k {:trigger nodes[k].next} :: 0 <= k < at ==> nodes[k].next != node
        decreases |nodes| - at
      {
        result := result.next;
        at := at + 1;
      }
      if result == null { at := -1; } else { OnePredecessor(node, at); }
    }

    lemma OnePredecessor(node: Node?, at: nat)
      requires Chained() && at < |nodes| && nodes[at].next == node
      ensures forall k :: 0 <= k < |nodes| && nodes[k].next == node ==> at == k
    {
    }

    /** `push_front`; a node already in the list is left where it is. */
    method PushFront(node: Node)
      requires Valid() && (node in nodes || node.list == null)
      modifies this, node
      ensures Valid() && nodes == if node in old(nodes) then old(nodes) else [node] + old(nodes)
    {
      var present := ContainsNode(node);
      if present { return; }
      node.list := this;
      node.next := first;
      first := node;
      if last == null {
        last := first;
        first.next := null;
      }
      nodes := [node] + nodes;
    }

    /** `push_back`. */
    method PushBack(node: Node)
      requires Valid() && (node in nodes || node.list == null)
      modifies this, node, set n | n in nodes
      ensures Valid() && nodes == if node in old(nodes) then old(nodes) else old(nodes) + [node]
      ensures forall n :: n in nodes ==> n in old(nodes) || n == node
    {
      if first == null {
        first := node;
      } else {
        var present := ContainsNode(node);
        if present { return; }
        last.next := node;
      }
      node.list := this;
      last := node;
      last.next := null;
      nodes := nodes + [node];
    }

    /** `pop_front`. */
    method PopFront()
      requires Valid()
      modifies this, set n | n in nodes
      ensures Valid() && nodes == if old(nodes) == [] then [] else old(nodes)[1..]
      ensures old(nodes) != [] ==> old(nodes)[0].list == null
    {
      if first == null { return; }
      first.list := null;
      first := first.next;
      if first == null { last := null; }
      nodes := nodes[1..];
    }

    /** `clear`. */
    method Clear()
      requires Valid()
      modifies this, set n | n in nodes
      ensures Valid() && nodes == []
      ensures forall n :: n in old(nodes) ==> n.list == null
    {
      ghost var all := nodes;
      while first != null
        invariant Valid() && |nodes| <= |all| && nodes == all[|all| - |nodes|..]
        invariant forall i :: 0 <= i < |all| - |nodes| ==> all[i].list == null
        decreases |nodes|
      {
        PopFront();
      }
      first := null;
      last := null;
    }

    /**
     `pop_back`. `ok` is false when an assertion stops the program, which happens exactly for a list of
     one node: the node has been detached when `clear` wants to detach it again.
     */
    method PopBack() returns (ok: bool)
      requires Valid()
      modifies this, set n | n in nodes
      ensures ok <==> |old(nodes)| != 1
      ensures ok ==> Valid() && nodes == if old(nodes) == [] then [] else old(nodes)[..|old(nodes)| - 1]
      ensures ok && old(nodes) != [] ==> old(nodes)[|old(nodes)| - 1].list == null
    {
      if last == null { return true; }
      last.list := null;
      if first == last { return false; }
      assert nodes[|nodes| - 2].next == last;
      var p, at := FindPredecessor(last);
      last := p;
      last.next := null;
      nodes := nodes[..|nodes| - 1];
      ok := true;
    }

    /** `erase`: the iterator returned stands on the node after the erased one. */
    method Erase(pos: Node?) returns (next: Node?)
      requires Valid() && (nodes == [] || pos in nodes)
      modifies this, set n | n in nodes
      ensures Valid()
      ensures nodes == if old(nodes) == [] then [] else Except(old(nodes), pos)
      ensures old(nodes) == [] ==> next == null
      ensures old(nodes) != [] ==> pos.list == null && next == AfterPlace(old(nodes), IndexOf(old(nodes), pos))
    {
      if first == null { return null; }
      ghost var was, k := nodes, IndexOf(nodes, pos);
      ExceptAt(was, k, pos);
      next := pos.next;
      if pos == first {
        PopFront();
      } else {
        pos.list := null;
        assert nodes[k - 1].next == pos;
        var node, at := FindPredecessor(pos);
        UnlinkAfter(node, pos, k);
      }
    }

    /** Unlinking the node at position `k` from its predecessor, once it has been disowned. */
    method UnlinkAfter(node: Node, pos: Node, ghost k: nat)
      requires Chained() && 0 < k < |nodes| && nodes[k] == pos && nodes[k - 1] == node && pos.list == null
      requires forall i {:trigger nodes[i].list} :: 0 <= i < |nodes| && i != k ==> nodes[i].list == this
      modifies this, node
      ensures Valid() && nodes == old(nodes)[..k] + old(nodes)[k + 1..]
      ensures pos.list == null && pos.next == old(pos.next)
    {
      if node.next == last { last := node; }
      node.next := pos.next;
      nodes := nodes[..k] + nodes[k + 1..];
    }

    /** Linking a newly owned node in behind the one at position `k - 1`. */
    method LinkAfter(node: Node, value: Node, ghost k: nat)
      requires Valid() && 0 < k < |nodes| && nodes[k - 1] == node && value !in nodes && value.list == this
      modifies this, node, value
      ensures Valid() && nodes == InsertedAt(old(nodes), k, value)
    {
      value.next := node.next;
      node.next := value;
      nodes := InsertedAt(nodes, k, value);
    }

    /** `insert`: in front of `pos`; the iterator returned stands on `value`, or on `pos` when nothing is done. */
    method Insert(pos: Node?, value: Node) returns (result: Node?)
      requires Valid() && (value in nodes || value.list == null) && (pos == null || pos in nodes)
      modifies this, value, set n | n in nodes
      ensures Valid()
      ensures nodes == if value in old(nodes) then old(nodes) else InsertedAt(old(nodes), PlaceOf(old(nodes), pos), value)
      ensures result == if value in old(nodes) then pos else value
    {
      var present := ContainsNode(value);
      if present { return pos; }
      result := value;
      if first == null || first == pos {
        PushFront(value);
      } else if pos == null {
        PushBack(value);
      } else {
        ghost var k := IndexOf(nodes, pos);
        value.list := this;
        assert nodes[k - 1].next == pos;
        var n, at := FindPredecessor(pos);
        LinkAfter(n, value, k);
      }
    }

    /** `remove`. */
    method Remove(value: Node)
      requires Valid() && value in nodes
      modifies this, set n | n in nodes
      ensures Valid() && value.list == null && nodes == Except(old(nodes), value)
    {
      ghost var was, k := nodes, IndexOf(nodes, value);
      ExceptAt(was, k, value);
      if value == first {
        PopFront();
      } else if value == last {
        var ok := PopBack();
      } else {
        RemoveInner(value, k);
      }
    }

    /** The last branch of `remove`. */
    method RemoveInner(value: Node, ghost k: nat)
      requires Valid() && 0 < k < |nodes| && nodes[k] == value
      modifies this, set n | n in nodes
      ensures Valid() && value.list == null && nodes == old(nodes)[..k] + old(nodes)[k + 1..]
    {
      value.list := null;
      assert nodes[k - 1].next == value;
      var n, at := FindPredecessor(value);
      if n != null {
        UnlinkAfter(n, value, k);
      }
    }

    /** Every node of `all` is on this list or on none, and its owner pointer says which. */
    ghost predicate Owns(all: set<Node>)
      reads this, all, set n | n in nodes
    {
      Valid() &&
      (forall i {:trigger nodes[i]} :: 0 <= i < |nodes| ==> nodes[i] in all) &&
      (forall n :: n in all && n !in nodes ==> n.list == null)
    }

    /** The operations that may put a node in. */
    method ApplyInsertion(op: Op, ghost all: set<Node>)
      requires Owns(all) && Legal(nodes, op) && (op.PushFront? || op.PushBack? || op.Insert?) && op.node in all
      modifies this, all
      ensures Owns(all) && nodes == After(old(nodes), op)
    {
      match op
      case PushFront(node) => PushFront(node);
      case PushBack(node) => PushBack(node);
      case Insert(pos, node) => var result := Insert(pos, node);
    }

    /** And those that may take nodes out. */
    method ApplyRemoval(op: Op, ghost all: set<Node>)
      requires Owns(all) && Legal(nodes, op) && !op.PushFront? && !op.PushBack? && !op.Insert?
      modifies this, all
      ensures Owns(all) && nodes == After(old(nodes), op)
    {
      match op
      case PopFront => PopFront();
      case PopBack => var ok := PopBack();
      case Erase(pos) => var next := Erase(pos);
      case Remove(node) => Remove(node);
      case Clear => Clear();
    }

    method Apply(op: Op, ghost all: set<Node>)
      requires Owns(all) && Legal(nodes, op) && (forall n :: n in Named(op) ==> n in all)
      modifies this, all
      ensures Owns(all) && nodes == After(old(nodes), op)
    {
      if op.PushFront? || op.PushBack? || op.Insert? {
        ApplyInsertion(op, all);
      } else {
        ApplyRemoval(op, all);
      }
    }

    /** A whole run: chain, owner pointers and order are those of the sequence the operations describe. */
    method Run(ops: seq<Op>, ghost all: set<Node>)
      requires Owns(all) && LegalRun(nodes, ops) && (forall i :: 0 <= i < |ops| ==> forall n :: n in Named(ops[i]) ==> n in all)
      modifies this, all
      ensures Owns(all) && nodes == AfterAll(old(nodes), ops)
    {
      for i := 0 to |ops|
        invariant Owns(all) && LegalRun(nodes, ops[i..])
        invariant AfterAll(nodes, ops[i..]) == AfterAll(old(nodes), ops)
      {
        assert ops[i..][1..] == ops[i + 1..];
        Apply(ops[i], all);
      }
    }
  }

  datatype Op = PushFront(node: Node) | PushBack(node: Node) | PopFront | PopBack | Clear
              | Insert(pos: Node?, node: Node) | Erase(at: Node?) | Remove(node: Node)

  /** The node an operation may put in. */
  function Named(op: Op): set<Node> {
    match op
    case PushFront(node) => {node}
    case PushBack(node) => {node}
    case Insert(_, node) => {node}
    case _ => {}
  }

  /** What the assertions in the class ask of an operation on a list holding `s`. */
  predicate Legal(s: seq<Node>, op: Op) {
    match op
    case PopBack => |s| != 1
    case Insert(pos, _) => pos == null || pos in s
    case Erase(pos) => s == [] || pos in s
    case Remove(node) => node in s
    case _ => true
  }

  function After(s: seq<Node>, op: Op): seq<Node>
    requires Legal(s, op)
  {
    match op
    case PushFront(node) => if node in s then s else [node] + s
    case PushBack(node) => if node in s then s else s + [node]
    case PopFront => if s == [] then [] else s[1..]
    case PopBack => if s == [] then [] else s[..|s| - 1]
    case Clear => []
    case Insert(pos, node) => if node in s then s else InsertedAt(s, PlaceOf(s, pos), node)
    case Erase(pos) => if s == [] then [] else Except(s, pos)
    case Remove(node) => Except(s, node)
  }

  predicate LegalRun(s: seq<Node>, ops: seq<Op>)
    decreases |ops|
  {
    ops == [] || (Legal(s, ops[0]) && LegalRun(After(s, ops[0]), ops[1..]))
  }

  function AfterAll(s: seq<Node>, ops: seq<Op>): seq<Node>
    requires LegalRun(s, ops)
    decreases |ops|
  {
    if ops == [] then s else AfterAll(After(s, ops[0]), ops[1..])
  }

  predicate NoRepeats<T(==)>(s: seq<T>) {
    forall i, j :: 0 <= i < j < |s| ==> s[i] != s[j]
  }

  /** Removing a node that was just put in gives the list back, wherever it was put. */
  lemma RemoveUndoesInsert(s: seq<Node>, pos: Node?, node: Node)
    requires (pos == null || pos in s) && node !in s
    ensures Legal(After(s, Insert(pos, node)), Remove(node))
    ensures After(After(s, Insert(pos, node)), Remove(node)) == s
  {
    var k := PlaceOf(s, pos);
    var t := InsertedAt(s, k, node);
    assert t[k] == node;
    IndexUnique(t, node, k);
  }

  lemma IndexUnique<T>(s: seq<T>, x: T, k: nat)
    requires k < |s| && s[k] == x && forall j :: 0 <= j < k ==> s[j] != x
    ensures IndexOf(s, x) == k
  {
  }

  /** The iterator that `erase` returns stands, in what is left, where the erased node stood. */
  lemma ErasedPlace(s: seq<Node>, k: nat, next: Node?)
    requires NoRepeats(s) && k < |s| && next == AfterPlace(s, k)
    ensures next == null || next in s[..k] + s[k + 1..]
    ensures PlaceOf(s[..k] + s[k + 1..], next) == k
  {
    var t := s[..k] + s[k + 1..];
    if next != null {
      assert t[k] == next;
      IndexUnique(t, next, k);
    }
  }

  /** Inserting an erased node at the iterator that `erase` returned gives the list back. */
  lemma InsertUndoesErase(s: seq<Node>, node: Node)
    requires node in s && NoRepeats(s)
    ensures var next := AfterPlace(s, IndexOf(s, node));
            Legal(After(s, Erase(node)), Insert(next, node)) &&
            After(After(s, Erase(node)), Insert(next, node)) == s
  {
    var k := IndexOf(s, node);
    ErasedPlace(s, k, AfterPlace(s, k));
    Reinserted(s, k, s[..k] + s[k + 1..]);
  }

  lemma Reinserted<T>(s: seq<T>, k: nat, t: seq<T>)
    requires k < |s| && t == s[..k] + s[k + 1..] && NoRepeats(s)
    ensures InsertedAt(t, k, s[k]) == s && s[k] !in t
  {
    assert t[..k] == s[..k] && t[k..] == s[k + 1..];
  }

  /** The two pushes are insertions at the two ends. */
  lemma PushesAreInserts(s: seq<Node>, node: Node)
    ensures After(s, PushBack(node)) == After(s, Insert(null, node))
    ensures After(s, PushFront(node)) == After(s, Insert(if s == [] then null else s[0], node))
  {
    EndInserts(s, node);
    if s != [] { IndexUnique(s, s[0], 0); }
  }

  lemma EndInserts<T>(s: seq<T>, x: T)
    ensures InsertedAt(s, 0, x) == [x] + s && InsertedAt(s, |s|, x) == s + [x]
  {
  }

  /** And the pops are erasures there. */
  lemma PopsAreErasures(s: seq<Node>)
    requires s != [] && NoRepeats(s)
    ensures After(s, PopFront) == After(s, Erase(s[0]))
    ensures |s| > 1 ==> After(s, PopBack) == After(s, Erase(s[|s| - 1]))
  {
    ExceptAt(s, 0, s[0]);
    ExceptAt(s, |s| - 1, s[|s| - 1]);
  }

  lemma ExceptAt<T>(s: seq<T>, k: nat, x: T)
    requires NoRepeats(s) && k < |s| && s[k] == x
    ensures Except(s, x) == s[..k] + s[k + 1..]
    ensures k == 0 ==> Except(s, x) == s[1..]
    ensures k == |s| - 1 ==> Except(s, x) == s[..k]
  {
    IndexUnique(s, x, k);
  }

  lemma {:induction false} RunsStayDistinct(s: seq<Node>, ops: seq<Op>)
    requires NoRepeats(s) && LegalRun(s, ops)
    ensures NoRepeats(AfterAll(s, ops))
    decreases |ops|
  {
    if ops != [] {
      RunsStayDistinct(After(s, ops[0]), ops[1..]);
    }
  }
}
