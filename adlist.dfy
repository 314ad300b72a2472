/**
 * The generic doubly linked list (adlist.h): a `list` with head, tail and a
 * node count, nodes linked both ways, and iterators that walk towards the
 * tail or towards the head.  The nodes are heap objects whose links the
 * operations rewrite in place; the ghost sequence `Nodes` lists them from
 * head to tail and `Valid()` ties every link to it.
 */
module AdList {
  import opened Wrappers

  /** Directions for iterators. */
  const AL_START_HEAD: int := 0
  const AL_START_TAIL: int := 1

  class ListNode<T> {
    var prev: ListNode?<T>
    var next: ListNode?<T>
    /** Set when the node is created; no list operation changes it. */
    const value: T

    constructor (value: T)
      ensures this.value == value && prev == null && next == null
    {
      this.value := value;
      prev, next := null, null;
    }
  }

  function Reversed<T>(s: seq<T>): (r: seq<T>)
    ensures |r| == |s|
    ensures forall i :: 0 <= i < |s| ==> r[i] == s[|s| - 1 - i]
  {
    seq(|s|, i requires 0 <= i < |s| => s[|s| - 1 - i])
  }

  /** The position of a node in a sequence of nodes. */
  ghost function IndexOf<T>(ns: seq<ListNode<T>>, n: ListNode<T>): (k: nat)
    requires n in ns
    ensures k < |ns| && ns[k] == n
  {
    var k :| 0 <= k < |ns| && ns[k] == n; k
  }

  /** Positions `i` and `j`, where both exist, hold different nodes. */
  ghost predicate Apart<T>(ns: seq<ListNode<T>>, i: int, j: int)
  {
    0 <= i < |ns| && 0 <= j < |ns| ==> ns[i] != ns[j]
  }

  /** No node occurs twice.  The quantifier is instantiated only through
      `Apart` terms (see DistinctAt), so the solver does not pair up every
      two positions it comes across. */
  ghost predicate Distinct<T>(ns: seq<ListNode<T>>)
  {
    forall i, j {:trigger Apart(ns, i, j)} :: i != j ==> Apart(ns, i, j)
  }

  lemma DistinctAt<T>(ns: seq<ListNode<T>>, i: nat, j: nat)
    requires Distinct(ns) && i < |ns| && j < |ns| && i != j
    ensures ns[i] != ns[j]
  {
    assert Apart(ns, i, j);
  }

  lemma IndexOfAt<T>(ns: seq<ListNode<T>>, i: nat)
    requires Distinct(ns) && i < |ns|
    ensures IndexOf(ns, ns[i]) == i
  {
    var k := IndexOf(ns, ns[i]);
    if k != i {
      DistinctAt(ns, k, i);
    }
  }

  /** Inserting a node that is not yet present keeps the nodes distinct. */
  lemma DistinctInsert<T>(ns: seq<ListNode<T>>, at: nat, n: ListNode<T>)
    requires Distinct(ns) && at <= |ns|
    requires forall j :: 0 <= j < |ns| ==> ns[j] != n
    ensures Distinct(ns[..at] + [n] + ns[at..])
  {
    var s := ns[..at] + [n] + ns[at..];
    forall i, j | i != j
      ensures Apart(s, i, j)
    {
      if 0 <= i < |s| && 0 <= j < |s| {
        var i', j' := if i < at then i else i - 1, if j < at then j else j - 1;
        assert i != at ==> s[i] == ns[i'];
        assert j != at ==> s[j] == ns[j'];
        if i != at && j != at {
          DistinctAt(ns, i', j');
        }
      }
    }
  }

  /** Removing the node at position `k` keeps the others distinct, and that
      node is no longer among them. */
  lemma DistinctRemove<T>(ns: seq<ListNode<T>>, k: nat)
    requires Distinct(ns) && k < |ns|
    ensures Distinct(ns[..k] + ns[k + 1..])
    ensures ns[k] !in ns[..k] + ns[k + 1..]
  {
    var s := ns[..k] + ns[k + 1..];
    forall i, j | i != j
      ensures Apart(s, i, j)
    {
      if 0 <= i < |s| && 0 <= j < |s| {
        var i', j' := if i < k then i else i + 1, if j < k then j else j + 1;
        assert s[i] == ns[i'] && s[j] == ns[j'];
        DistinctAt(ns, i', j');
      }
    }
    forall i | 0 <= i < |s|
      ensures s[i] != ns[k]
    {
      var i' := if i < k then i else i + 1;
      assert s[i] == ns[i'];
      DistinctAt(ns, i', k);
    }
  }

  /** The first and last element once the one at position `k` is gone. */
  lemma EndsAfterRemove<T>(ns: seq<T>, k: nat)
    requires k < |ns|
    ensures var s := ns[..k] + ns[k + 1..];
      && |s| == |ns| - 1
      && (|s| > 0 ==> s[0] == (if k == 0 then ns[1] else ns[0]))
      && (|s| > 0 ==> s[|s| - 1] == (if k + 1 == |ns| then ns[k - 1] else ns[|ns| - 1]))
  {
  }

  /** The first and last element once `n` is inserted at position `at`. */
  lemma EndsAfterInsert<T>(ns: seq<T>, at: nat, n: T)
    requires at <= |ns|
    ensures var s := ns[..at] + [n] + ns[at..];
      && |s| == |ns| + 1
      && s[0] == (if at == 0 then n else ns[0])
      && s[|s| - 1] == (if at == |ns| then n else ns[|ns| - 1])
  {
  }

  /** Two distinct sequences with no node in common concatenate to a
      distinct sequence. */
  lemma DistinctConcat<T>(a: seq<ListNode<T>>, b: seq<ListNode<T>>)
    requires Distinct(a) && Distinct(b)
    requires forall i, j :: 0 <= i < |a| && 0 <= j < |b| ==> a[i] != b[j]
    ensures Distinct(a + b)
  {
    var s := a + b;
    forall i, j | i != j
      ensures Apart(s, i, j)
    {
      if 0 <= i < |s| && 0 <= j < |s| {
        if i < |a| && j < |a| {
          DistinctAt(a, i, j);
        } else if i >= |a| && j >= |a| {
          assert s[i] == b[i - |a|] && s[j] == b[j - |a|];
          DistinctAt(b, i - |a|, j - |a|);
        } else if i < |a| {
          assert s[j] == b[j - |a|];
        } else {
          assert s[i] == b[i - |a|];
        }
      }
    }
  }

  /** `cs` lists the values of the nodes `ns`, in order. */
  ghost predicate HoldValues<T>(ns: seq<ListNode<T>>, cs: seq<T>)
  {
    |ns| == |cs| && forall i {:trigger cs[i]} :: 0 <= i < |ns| ==> ns[i].value == cs[i]
  }

  lemma ValuesInsert<T>(ns: seq<ListNode<T>>, cs: seq<T>, at: nat, n: ListNode<T>)
    requires HoldValues(ns, cs) && at <= |ns|
    ensures HoldValues(ns[..at] + [n] + ns[at..], cs[..at] + [n.value] + cs[at..])
  {
    var s, c := ns[..at] + [n] + ns[at..], cs[..at] + [n.value] + cs[at..];
    forall i | 0 <= i < |s|
      ensures s[i].value == c[i]
    {
      if i < at {
        assert s[i] == ns[i] && c[i] == cs[i];
      } else if i > at {
        assert s[i] == ns[i - 1] && c[i] == cs[i - 1];
      }
    }
  }

  lemma ValuesRemove<T>(ns: seq<ListNode<T>>, cs: seq<T>, k: nat)
    requires HoldValues(ns, cs) && k < |ns|
    ensures HoldValues(ns[..k] + ns[k + 1..], cs[..k] + cs[k + 1..])
  {
    var s, c := ns[..k] + ns[k + 1..], cs[..k] + cs[k + 1..];
    forall i | 0 <= i < |s|
      ensures s[i].value == c[i]
    {
      if i < k {
        assert s[i] == ns[i] && c[i] == cs[i];
      } else {
        assert s[i] == ns[i + 1] && c[i] == cs[i + 1];
      }
    }
  }

  lemma ValuesConcat<T>(a: seq<ListNode<T>>, ca: seq<T>, b: seq<ListNode<T>>, cb: seq<T>)
    requires HoldValues(a, ca) && HoldValues(b, cb)
    ensures HoldValues(a + b, ca + cb)
  {
    var s, c := a + b, ca + cb;
    forall i | 0 <= i < |s|
      ensures s[i].value == c[i]
    {
      if i < |a| {
        assert s[i] == a[i] && c[i] == ca[i];
      } else {
        assert s[i] == b[i - |a|] && c[i] == cb[i - |a|];
      }
    }
  }

  lemma ValuesRotate<T>(ns: seq<ListNode<T>>, cs: seq<T>)
    requires HoldValues(ns, cs) && |ns| > 0
    ensures HoldValues([ns[|ns| - 1]] + ns[..|ns| - 1], [cs[|cs| - 1]] + cs[..|cs| - 1])
  {
    var m := |ns| - 1;
    var s, c := [ns[m]] + ns[..m], [cs[m]] + cs[..m];
    forall i | 0 < i < |s|
      ensures s[i].value == c[i]
    {
      assert s[i] == ns[i - 1] && c[i] == cs[i - 1];
    }
  }

  /** The node at position `i`, or null past either end. */
  function At<T>(ns: seq<ListNode<T>>, i: int): ListNode?<T>
  {
    if 0 <= i < |ns| then ns[i] else null
  }

  /** The node at position `i`, where there is one, links to its
      neighbours in the sequence (null past either end). */
  ghost predicate LinkAt<T>(ns: seq<ListNode<T>>, i: int)
    reads ns
  {
    0 <= i < |ns| ==> ns[i].next == At(ns, i + 1) && ns[i].prev == At(ns, i - 1)
  }

  /** Every node links to its neighbours.  As with Distinct, the quantifier
      is instantiated only through `LinkAt` terms, so the solver does not
      walk the whole list on its own. */
  ghost predicate Linked<T>(ns: seq<ListNode<T>>)
    reads ns
  {
    forall i {:trigger LinkAt(ns, i)} :: LinkAt(ns, i)
  }

  /** Since the old state, no node of `ns` other than `a`, `b` and `c` has
      had its links changed. */
  twostate predicate LinksKept<T>(ns: seq<ListNode<T>>, a: ListNode?<T>, b: ListNode?<T>, c: ListNode?<T>)
    reads ns
  {
    forall j :: 0 <= j < |ns| && ns[j] != a && ns[j] != b && ns[j] != c ==>
      ns[j].next == old(ns[j].next) && ns[j].prev == old(ns[j].prev)
  }

  /** Linking a node `n` that was not in `ns` in at position `at`, between
      `p` and `q`, gives a linked sequence again. */
  twostate lemma LinkedAfterInsert<T>(new ns: seq<ListNode<T>>, new at: nat, new n: ListNode<T>,
                                      new p: ListNode?<T>, new q: ListNode?<T>)
    requires old(allocated(ns)) && old(Linked(ns)) && Distinct(ns) && at <= |ns|
    requires p == At(ns, at - 1) && q == At(ns, at)
    requires forall j :: 0 <= j < |ns| ==> ns[j] != n
    requires n.prev == p && n.next == q
    requires p != null ==> p.next == n && p.prev == old(p.prev)
    requires q != null ==> q.prev == n && q.next == old(q.next)
    requires LinksKept(ns, p, q, null)
    ensures Linked(ns[..at] + [n] + ns[at..])
  {
    var s := ns[..at] + [n] + ns[at..];
    forall i
      ensures LinkAt(s, i)
    {
      if 0 <= i < |s| && i != at {
        var j := if i < at then i else i - 1;
        assert s[i] == ns[j];
        assert old(LinkAt(ns, j));
        if 0 < at && j != at - 1 {
          DistinctAt(ns, j, at - 1);
        }
        if at < |ns| && j != at {
          DistinctAt(ns, j, at);
        }
      }
    }
  }

  /** Pointing the neighbours `p` and `q` of the node at position `k` at
      each other gives a linked sequence without that node. */
  twostate lemma LinkedAfterRemove<T>(new ns: seq<ListNode<T>>, new k: nat,
                                      new p: ListNode?<T>, new q: ListNode?<T>)
    requires old(allocated(ns)) && old(Linked(ns)) && Distinct(ns) && k < |ns|
    requires p == At(ns, k - 1) && q == At(ns, k + 1)
    requires p != null ==> p.next == q && p.prev == old(p.prev)
    requires q != null ==> q.prev == p && q.next == old(q.next)
    requires LinksKept(ns, p, q, null)
    ensures Linked(ns[..k] + ns[k + 1..])
  {
    var s := ns[..k] + ns[k + 1..];
    forall i
      ensures LinkAt(s, i)
    {
      if 0 <= i < |s| {
        var j := if i < k then i else i + 1;
        assert s[i] == ns[j];
        assert old(LinkAt(ns, j));
        if 0 < k && j != k - 1 {
          DistinctAt(ns, j, k - 1);
        }
        if k + 1 < |ns| && j != k + 1 {
          DistinctAt(ns, j, k + 1);
        }
      }
    }
  }

  /** Moving the last node `t` in front of the first node `h`, with `b`
      before `t` becoming the last, gives a linked sequence. */
  twostate lemma LinkedAfterRotate<T>(new ns: seq<ListNode<T>>,
                                      new h: ListNode<T>, new b: ListNode<T>, new t: ListNode<T>)
    requires old(allocated(ns)) && old(Linked(ns)) && Distinct(ns) && |ns| > 1
    requires h == ns[0] && b == ns[|ns| - 2] && t == ns[|ns| - 1]
    requires t.prev == null && t.next == h && h.prev == t && b.next == null
    requires b != h ==> h.next == old(h.next) && b.prev == old(b.prev)
    requires LinksKept(ns, h, b, t)
    ensures Linked([ns[|ns| - 1]] + ns[..|ns| - 1])
  {
    var m := |ns| - 1;
    var s := [ns[m]] + ns[..m];
    forall i
      ensures LinkAt(s, i)
    {
      if 0 < i < |s| {
        var j := i - 1;
        assert s[i] == ns[j];
        assert old(LinkAt(ns, j));
        DistinctAt(ns, j, m);
        if j != m - 1 {
          DistinctAt(ns, j, m - 1);
        }
        if j != 0 {
          DistinctAt(ns, j, 0);
        }
      }
    }
  }

  /** Linking the last node `p` of `a` to the first node `q` of `b` gives
      a linked concatenation. */
  twostate lemma LinkedAfterConcat<T>(new a: seq<ListNode<T>>, new b: seq<ListNode<T>>,
                                      new p: ListNode?<T>, new q: ListNode?<T>)
    requires old(allocated(a)) && old(allocated(b)) && old(Linked(a)) && old(Linked(b)) && Distinct(a) && Distinct(b)
    requires forall i, j :: 0 <= i < |a| && 0 <= j < |b| ==> a[i] != b[j]
    requires p == At(a, |a| - 1) && q == At(b, 0)
    requires p != null ==> p.next == q && p.prev == old(p.prev)
    requires q != null ==> q.prev == p && q.next == old(q.next)
    requires LinksKept(a, p, null, null) && LinksKept(b, q, null, null)
    ensures Linked(a + b)
  {
    var s := a + b;
    forall i
      ensures LinkAt(s, i)
    {
      if 0 <= i < |a| {
        assert s[i] == a[i];
        assert old(LinkAt(a, i));
        if i != |a| - 1 {
          DistinctAt(a, i, |a| - 1);
        }
      } else if |a| <= i < |s| {
        var j := i - |a|;
        assert s[i] == b[j];
        assert old(LinkAt(b, j));
        if j != 0 {
          DistinctAt(b, j, 0);
        }
      }
    }
  }

  class List<T(==)> {
    var head: ListNode?<T>
    var tail: ListNode?<T>
    var len: nat
    /** Whether a `free` callback is set; the callback itself is foreign. */
    var freeMethod: bool
    /** The `match` callback used by listSearchKey, if set. */
    var matchMethod: Option<(T, T) -> bool>

    /** The nodes from head to tail. */
    ghost var Nodes: seq<ListNode<T>>
    /** Their values, from head to tail. */
    ghost var Contents: seq<T>
    /** The values handed to the `free` callback so far. */
    ghost var Freed: seq<T>

    ghost predicate Valid()
      reads this, Nodes
    {
      && len == |Nodes|
      && HoldValues(Nodes, Contents)
      && Distinct(Nodes)
      && Linked(Nodes)
      && head == At(Nodes, 0)
      && tail == At(Nodes, |Nodes| - 1)
    }

    ghost function NodeSet(): set<ListNode<T>>
      reads this
    {
      set n | n in Nodes
    }

    /** listCreate: an empty list without callbacks. */
    constructor ()
      ensures Valid() && Nodes == [] && Contents == [] && Freed == []
      ensures !freeMethod && matchMethod == None
    {
      head, tail, len := null, null, 0;
      freeMethod, matchMethod := false, None;
      Nodes, Contents, Freed := [], [], [];
    }

    /** listSetFreeMethod */
    method SetFreeMethod(present: bool)
      modifies this`freeMethod
      ensures freeMethod == present
    {
      freeMethod := present;
    }

    /** listSetMatchMethod */
    method SetMatchMethod(m: Option<(T, T) -> bool>)
      modifies this`matchMethod
      ensures matchMethod == m
    {
      matchMethod := m;
    }

    /** listLength */
    function Length(): (r: nat)
      requires Valid()
      reads this, Nodes
      ensures r == |Contents|
    {
      len
    }

    /** listFirst */
    function First(): (r: ListNode?<T>)
      requires Valid()
      reads this, Nodes
      ensures r == null <==> Contents == []
      ensures r != null ==> r == Nodes[0] && r.value == Contents[0]
    {
      head
    }

    /** listLast */
    function Last(): (r: ListNode?<T>)
      requires Valid()
      reads this, Nodes
      ensures r == null <==> Contents == []
      ensures r != null ==> r == Nodes[|Nodes| - 1] && r.value == Contents[|Contents| - 1]
    {
      tail
    }

    /** listAddNodeHead */
    method AddNodeHead(value: T)
      requires Valid()
      modifies this, Nodes
      ensures Valid() && unchanged(this`freeMethod, this`matchMethod, this`Freed)
      ensures |Nodes| == old(|Nodes|) + 1 && fresh(Nodes[0]) && Nodes[1..] == old(Nodes)
      ensures Contents == [value] + old(Contents)
    {
      ghost var ns, cs := Nodes, Contents;
      ghost var p: ListNode?<T>, q := null, head;
      var node := new ListNode(value);
      if len == 0 {
        head, tail := node, node;
      } else {
        node.next := head;
        head.prev := node;
        head := node;
      }
      len := len + 1;
      Nodes, Contents := ns[..0] + [node] + ns[0..], cs[..0] + [value] + cs[0..];
      LinkedAfterInsert(ns, 0, node, p, q);
      DistinctInsert(ns, 0, node);
      ValuesInsert(ns, cs, 0, node);
      assert Nodes[1..] == ns;
      assert Contents == [value] + cs;
    }

    /** listAddNodeTail */
    method AddNodeTail(value: T)
      requires Valid()
      modifies this, Nodes
      ensures Valid() && unchanged(this`freeMethod, this`matchMethod, this`Freed)
      ensures |Nodes| == old(|Nodes|) + 1 && fresh(Nodes[|Nodes| - 1])
      ensures Nodes[..|Nodes| - 1] == old(Nodes)
      ensures Contents == old(Contents) + [value]
    {
      ghost var ns, cs := Nodes, Contents;
      ghost var p, q: ListNode?<T> := tail, null;
      var node := new ListNode(value);
      if len == 0 {
        head, tail := node, node;
      } else {
        node.prev := tail;
        tail.next := node;
        tail := node;
      }
      len := len + 1;
      Nodes, Contents := ns[..|ns|] + [node] + ns[|ns|..], cs[..|cs|] + [value] + cs[|cs|..];
      LinkedAfterInsert(ns, |ns|, node, p, q);
      DistinctInsert(ns, |ns|, node);
      ValuesInsert(ns, cs, |ns|, node);
      assert Nodes[..|Nodes| - 1] == ns;
      assert Contents == cs + [value];
    }

    /** listInsertNode: a new node right after (`after` non-zero) or right
        before `oldNode`. */
    method InsertNode(oldNode: ListNode<T>, value: T, after: int)
      requires Valid() && oldNode in Nodes
      modifies this, Nodes
      ensures Valid() && unchanged(this`freeMethod, this`matchMethod, this`Freed)
      ensures var k := old(IndexOf(Nodes, oldNode));
        var at := if after != 0 then k + 1 else k;
        && |Nodes| == old(|Nodes|) + 1 && fresh(Nodes[at])
        && Nodes == old(Nodes)[..at] + [Nodes[at]] + old(Nodes)[at..]
        && Contents == old(Contents)[..at] + [value] + old(Contents)[at..]
    {
      if after != 0 {
        InsertAfter(oldNode, value);
      } else {
        InsertBefore(oldNode, value);
      }
    }

    /** The `after` branch of listInsertNode. */
    method InsertAfter(oldNode: ListNode<T>, value: T)
      requires Valid() && oldNode in Nodes
      modifies this, Nodes
      ensures Valid() && unchanged(this`freeMethod, this`matchMethod, this`Freed)
      ensures var at := old(IndexOf(Nodes, oldNode)) + 1;
        && |Nodes| == old(|Nodes|) + 1 && fresh(Nodes[at])
        && Nodes == old(Nodes)[..at] + [Nodes[at]] + old(Nodes)[at..]
        && Contents == old(Contents)[..at] + [value] + old(Contents)[at..]
    {
      ghost var ns, cs := Nodes, Contents;
      ghost var at := IndexOf(Nodes, oldNode) + 1;
      ghost var p, q := oldNode, At(ns, at);
      assert LinkAt(ns, at - 1);
      if at < |ns| {
        DistinctAt(ns, at - 1, at);
        DistinctAt(ns, at - 1, |ns| - 1);
      }
      assert tail == oldNode <==> q == null;
      var node := new ListNode(value);
      node.prev := oldNode;
      node.next := oldNode.next;
      if tail == oldNode {
        tail := node;
      }
      if node.prev != null {
        node.prev.next := node;
      }
      if node.next != null {
        node.next.prev := node;
      }
      len := len + 1;
      Nodes, Contents := ns[..at] + [node] + ns[at..], cs[..at] + [value] + cs[at..];
      LinkedAfterInsert(ns, at, node, p, q);
      DistinctInsert(ns, at, node);
      ValuesInsert(ns, cs, at, node);
      EndsAfterInsert(ns, at, node);
    }

    /** The `before` branch of listInsertNode. */
    method InsertBefore(oldNode: ListNode<T>, value: T)
      requires Valid() && oldNode in Nodes
      modifies this, Nodes
      ensures Valid() && unchanged(this`freeMethod, this`matchMethod, this`Freed)
      ensures var at := old(IndexOf(Nodes, oldNode));
        && |Nodes| == old(|Nodes|) + 1 && fresh(Nodes[at])
        && Nodes == old(Nodes)[..at] + [Nodes[at]] + old(Nodes)[at..]
        && Contents == old(Contents)[..at] + [value] + old(Contents)[at..]
    {
      ghost var ns, cs := Nodes, Contents;
      ghost var at := IndexOf(Nodes, oldNode);
      ghost var p, q := At(ns, at as int - 1), oldNode;
      assert LinkAt(ns, at);
      if 0 < at {
        DistinctAt(ns, at - 1, at);
        DistinctAt(ns, 0, at);
      }
      assert head == oldNode <==> p == null;
      var node := new ListNode(value);
      node.next := oldNode;
      node.prev := oldNode.prev;
      if head == oldNode {
        head := node;
      }
      if node.prev != null {
        node.prev.next := node;
      }
      if node.next != null {
        node.next.prev := node;
      }
      len := len + 1;
      Nodes, Contents := ns[..at] + [node] + ns[at..], cs[..at] + [value] + cs[at..];
      LinkedAfterInsert(ns, at, node, p, q);
      DistinctInsert(ns, at, node);
      ValuesInsert(ns, cs, at, node);
      EndsAfterInsert(ns, at, node);
    }

    /** listDelNode: unlinks `node` and hands its value to the `free`
        callback when one is set. */
    method DelNode(node: ListNode<T>)
      requires Valid() && node in Nodes
      modifies this, Nodes
      ensures Valid() && unchanged(this`freeMethod, this`matchMethod)
      ensures var k := old(IndexOf(Nodes, node));
        && Nodes == old(Nodes)[..k] + old(Nodes)[k + 1..]
        && Contents == old(Contents)[..k] + old(Contents)[k + 1..]
      ensures node !in Nodes
      ensures Freed == old(Freed) + if freeMethod then [node.value] else []
    {
      ghost var ns, cs := Nodes, Contents;
      ghost var k := IndexOf(Nodes, node);
      var prev, next := node.prev, node.next;
      assert LinkAt(ns, k);
      assert prev == At(ns, k - 1) && next == At(ns, k + 1);
      if 0 < k {
        DistinctAt(ns, k - 1, k);
      }
      if 0 < k && k + 1 < |ns| {
        DistinctAt(ns, k - 1, k + 1);
      }
      ghost var h, t := if k == 0 then next else head, if k + 1 == |ns| then prev else tail;
      if prev != null {
        prev.next := next;
      } else {
        head := next;
      }
      if next != null {
        next.prev := prev;
      } else {
        tail := prev;
      }
      len, Freed := len - 1, Freed + if freeMethod then [node.value] else [];
      Nodes, Contents := ns[..k] + ns[k + 1..], cs[..k] + cs[k + 1..];
      assert head == h && tail == t;
      LinkedAfterRemove(ns, k, prev, next);
      DistinctRemove(ns, k);
      ValuesRemove(ns, cs, k);
      EndsAfterRemove(ns, k);
    }

    /** listRotate: the tail node becomes the head node. */
    method Rotate()
      requires Valid()
      modifies this, Nodes
      ensures Valid() && unchanged(this`freeMethod, this`matchMethod, this`Freed)
      ensures old(len) <= 1 ==> Nodes == old(Nodes)
      ensures old(len) > 1 ==> Nodes == [old(Nodes)[old(len) - 1]] + old(Nodes)[..old(len) - 1]
      ensures old(len) > 1 ==>
        Contents == [old(Contents)[old(len) - 1]] + old(Contents)[..old(len) - 1]
      ensures old(len) <= 1 ==> Contents == old(Contents)
    {
      ghost var ns, cs := Nodes, Contents;
      if len <= 1 {
        return;
      }
      ghost var m := |ns| - 1;
      DistinctAt(ns, m, m - 1);
      DistinctAt(ns, m, 0);
      if m > 1 {
        DistinctAt(ns, m - 1, 0);
      }
      ghost var h, b := head, ns[m - 1];
      assert LinkAt(ns, m);
      var t := tail;
      tail := t.prev;
      tail.next := null;
      head.prev := t;
      t.prev := null;
      t.next := head;
      head := t;
      Nodes, Contents := [ns[m]] + ns[..m], [cs[m]] + cs[..m];
      LinkedAfterRotate(ns, h, b, t);
      ValuesRotate(ns, cs);
      DistinctRemove(ns, m);
      assert ns[..m] + ns[m + 1..] == ns[..m];
      DistinctInsert(ns[..m], 0, ns[m]);
      assert ns[..m][..0] + [ns[m]] + ns[..m][0..] == Nodes;
    }

    /** listJoin: appends every node of `o` to this list and leaves `o`
        empty. */
    method Join(o: List<T>)
      requires Valid() && o.Valid() && o != this
      requires NodeSet() !! o.NodeSet()
      modifies this, Nodes, o, o.Nodes
      ensures Valid() && o.Valid()
      ensures unchanged(this`freeMethod, this`matchMethod, this`Freed)
      ensures unchanged(o`freeMethod, o`matchMethod, o`Freed)
      ensures Nodes == old(Nodes) + old(o.Nodes) && o.Nodes == []
      ensures Contents == old(Contents) + old(o.Contents) && o.Contents == []
    {
      ghost var ns, os, cs, ocs := Nodes, o.Nodes, Contents, o.Contents;
      ghost var nset, oset := NodeSet(), o.NodeSet();
      ghost var p, q := tail, o.head;
      forall i, j | 0 <= i < |ns| && 0 <= j < |os|
        ensures ns[i] != os[j]
      {
        assert ns[i] in nset && os[j] in oset;
      }
      if o.head != null {
        o.head.prev := tail;
      }
      if tail != null {
        tail.next := o.head;
      } else {
        head := o.head;
      }
      if o.tail != null {
        tail := o.tail;
      }
      len := len + o.len;
      o.Reset();
      Nodes, Contents := ns + os, cs + ocs;
      LinkedAfterConcat(ns, os, p, q);
      DistinctConcat(ns, os);
      ValuesConcat(ns, cs, os, ocs);
    }

    /** The common last step of listEmpty and listJoin: the list lets go
        of its nodes without releasing them. */
    method Reset()
      modifies this
      ensures Valid() && Nodes == [] && Contents == []
      ensures unchanged(this`freeMethod, this`matchMethod, this`Freed)
    {
      head, tail := null, null;
      len := 0;
      Nodes, Contents := [], [];
    }

    /** listEmpty: releases every node, handing each value to the `free`
        callback when one is set, and keeps the list itself. */
    method Empty()
      requires Valid()
      modifies this
      ensures Valid() && unchanged(this`freeMethod, this`matchMethod)
      ensures Nodes == [] && Contents == []
      ensures Freed == old(Freed) + if freeMethod then old(Contents) else []
    {
      var current := head;
      var n := len;
      ghost var released: seq<T> := [];
      while n > 0
        invariant n <= len
        invariant current == if n > 0 then Nodes[len - n] else null
        invariant 0 <= len - n <= |Contents|
        invariant released == if freeMethod then Contents[..len - n] else []
      {
        assert LinkAt(Nodes, len - n);
        var next := current.next;
        if freeMethod {
          released := released + [current.value];
        }
        current := next;
        n := n - 1;
      }
      assert Contents[..len] == Contents;
      Freed := Freed + released;
      Reset();
    }

    /** Whether `value` matches `key`: the `match` callback when set, otherwise
        identity of the two. */
    function Matches(value: T, key: T): bool
      reads this
    {
      match matchMethod
      case Some(m) => m(value, key)
      case None => key == value
    }

    /** listSearchKey: the first node from the head whose value matches
        `key`, or null. */
    method SearchKey(key: T) returns (node: ListNode?<T>)
      requires Valid()
      ensures node == null <==> forall i :: 0 <= i < |Nodes| ==> !Matches(Nodes[i].value, key)
      ensures node != null ==>
        && node in Nodes && Matches(node.value, key)
        && forall i :: 0 <= i < IndexOf(Nodes, node) ==> !Matches(Nodes[i].value, key)
    {
      var iter := new ListIter.Rewound(this);
      var k := 0;
      if |Nodes| > 0 {
        IndexOfAt(Nodes, 0);
      }
      node := iter.Next(this);
      while node != null
        invariant k <= |Nodes|
        invariant node == if k < |Nodes| then Nodes[k] else null
        invariant iter.direction == AL_START_HEAD
        invariant iter.next == if k + 1 < |Nodes| then Nodes[k + 1] else null
        invariant forall i :: 0 <= i < k ==> !Matches(Nodes[i].value, key)
        decreases |Nodes| - k
      {
        IndexOfAt(Nodes, k);
        if Matches(node.value, key) {
          return;
        }
        k := k + 1;
        if k < |Nodes| {
          IndexOfAt(Nodes, k);
        }
        node := iter.Next(this);
      }
    }

    /** listIndex: the node at zero-based `index` counted from the head, or,
        for a negative index, at `-index - 1` counted from the tail (-1 is
        the tail); null when the index is out of range. */
    method Index(index: int) returns (n: ListNode?<T>)
      requires Valid()
      ensures 0 <= index < |Nodes| ==> n == Nodes[index]
      ensures -|Nodes| <= index < 0 ==> n == Nodes[|Nodes| + index]
      ensures index >= |Nodes| || index < -|Nodes| ==> n == null
    {
      var i: int;
      ghost var k: int;
      if index < 0 {
        i := -index - 1;
        n := tail;
        k := |Nodes| - 1;
        while i > 0 && n != null
          invariant -1 <= k < |Nodes| && i >= 0
          invariant k - i == |Nodes| + index
          invariant n == if k >= 0 then Nodes[k] else null
          decreases i
        {
          assert LinkAt(Nodes, k);
          i := i - 1;
          n := n.prev;
          k := k - 1;
        }
      } else {
        i := index;
        n := head;
        k := 0;
        while i > 0 && n != null
          invariant 0 <= k <= |Nodes| && i >= 0
          invariant k + i == index
          invariant n == if k < |Nodes| then Nodes[k] else null
          decreases i
        {
          assert LinkAt(Nodes, k);
          i := i - 1;
          n := n.next;
          k := k + 1;
        }
      }
    }
  }

  /** The position, counted from the head, of the `k`-th node an iterator
      of the given direction visits in a list of `n` nodes. */
  function Visit(direction: int, n: nat, k: nat): (r: nat)
    requires k < n
    ensures r < n
  {
    if direction == AL_START_HEAD then k else n - 1 - k
  }

  /** The value of the `k`-th node visited is the `k`-th value of the
      contents in the direction of travel. */
  lemma VisitValue<T>(ns: seq<ListNode<T>>, cs: seq<T>, direction: int, k: nat)
    requires HoldValues(ns, cs) && k < |ns|
    ensures ns[Visit(direction, |ns|, k)].value
      == (if direction == AL_START_HEAD then cs else Reversed(cs))[k]
  {
    assert ns[Visit(direction, |ns|, k)].value == cs[Visit(direction, |ns|, k)];
  }

  /** listIter: the next node to return and the direction of travel. */
  class ListIter<T(==)> {
    var next: ListNode?<T>
    var direction: int

    /** listGetIterator */
    constructor (l: List<T>, direction: int)
      requires l.Valid()
      ensures this.direction == direction
      ensures next == if l.Nodes == [] then null else l.Nodes[Visit(direction, |l.Nodes|, 0)]
    {
      this.direction := direction;
      if direction == AL_START_HEAD {
        next := l.head;
      } else {
        next := l.tail;
      }
    }

    /** An iterator allocated by listGetIterator(l, AL_START_HEAD). */
    constructor Rewound(l: List<T>)
      requires l.Valid()
      ensures direction == AL_START_HEAD
      ensures next == if l.Nodes == [] then null else l.Nodes[0]
    {
      direction := AL_START_HEAD;
      next := l.head;
    }

    /** listRewind */
    method Rewind(l: List<T>)
      requires l.Valid()
      modifies this
      ensures direction == AL_START_HEAD
      ensures next == if l.Nodes == [] then null else l.Nodes[0]
    {
      next := l.head;
      direction := AL_START_HEAD;
    }

    /** listRewindTail */
    method RewindTail(l: List<T>)
      requires l.Valid()
      modifies this
      ensures direction == AL_START_TAIL
      ensures next == if l.Nodes == [] then null else l.Nodes[|l.Nodes| - 1]
    {
      next := l.tail;
      direction := AL_START_TAIL;
    }

    /** listNext: returns the current node and steps to its successor in
        the iterator's direction. */
    method Next(ghost l: List<T>) returns (current: ListNode?<T>)
      requires l.Valid() && (next == null || next in l.Nodes)
      modifies this
      ensures current == old(next) && direction == old(direction)
      ensures current == null ==> next == null
      ensures current != null ==>
        var i := IndexOf(l.Nodes, current);
        next == if direction == AL_START_HEAD then At(l.Nodes, i + 1) else At(l.Nodes, i - 1)
    {
      current := next;
      if current != null {
        assert LinkAt(l.Nodes, IndexOf(l.Nodes, current));
        if direction == AL_START_HEAD {
          next := current.next;
        } else {
          next := current.prev;
        }
      }
    }
  }

  /** Draining a fresh iterator: the values come out head to tail for
      AL_START_HEAD and tail to head otherwise. */
  method Traverse<T(==)>(l: List<T>, direction: int) returns (values: seq<T>)
    requires l.Valid()
    ensures values == if direction == AL_START_HEAD then l.Contents else Reversed(l.Contents)
  {
    var iter := new ListIter(l, direction);
    ghost var n := |l.Nodes|;
    ghost var order := if direction == AL_START_HEAD then l.Contents else Reversed(l.Contents);
    values := [];
    if n > 0 {
      IndexOfAt(l.Nodes, Visit(direction, n, 0));
    }
    var node := iter.Next(l);
    while node != null
      invariant |values| <= n && iter.direction == direction
      invariant node == if |values| < n then l.Nodes[Visit(direction, n, |values|)] else null
      invariant iter.next == if |values| + 1 < n then l.Nodes[Visit(direction, n, |values| + 1)] else null
      invariant values == order[..|values|]
      decreases n - |values|
    {
      VisitValue(l.Nodes, l.Contents, direction, |values|);
      assert order[..|values| + 1] == order[..|values|] + [order[|values|]];
      values := values + [node.value];
      if |values| < n {
        IndexOfAt(l.Nodes, Visit(direction, n, |values|));
      }
      node := iter.Next(l);
    }
    assert order[..n] == order;
  }
}
