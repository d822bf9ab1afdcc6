/** singly_linked_list.c: tortoise and hare on any node graph, and in-place edits of a well-formed list. */
module SinglyLinkedList {
  class Node {
    var data: int
    var next: Node?

    constructor (d: int)
      ensures data == d && next == null
    {
      data := d;
      next := null;
    }
  }

  // ----- Following next through a finite set of nodes, cyclic or not

  ghost predicate Closed(nodes: set<Node>)
    reads nodes
  {
    forall n :: n in nodes ==> n.next == null || n.next in nodes
  }

  /** The node reached after k links, null once the end has been passed. */
  ghost function After(nodes: set<Node>, start: Node?, k: nat): (n: Node?)
    requires Closed(nodes) && (start == null || start in nodes)
    reads nodes
    ensures n == null || n in nodes
  {
    if k == 0 then start
    else
      var m := After(nodes, start, k - 1);
      if m == null then null else m.next
  }

  ghost predicate NeverEnds(nodes: set<Node>, start: Node?)
    requires Closed(nodes) && (start == null || start in nodes)
    reads nodes
  {
    forall k: nat :: After(nodes, start, k) != null
  }

  lemma {:induction false} EndsForGood(nodes: set<Node>, start: Node?, j: nat, k: nat)
    requires Closed(nodes) && (start == null || start in nodes) && j <= k
    ensures After(nodes, start, j) == null ==> After(nodes, start, k) == null
  {
    if j < k { EndsForGood(nodes, start, j, k - 1); }
  }

  /** From two equal places on, the walk is the same. */
  lemma {:induction false} Shift(nodes: set<Node>, start: Node?, a: nat, b: nat, d: nat)
    requires Closed(nodes) && (start == null || start in nodes)
    requires After(nodes, start, a) == After(nodes, start, b)
    ensures After(nodes, start, a + d) == After(nodes, start, b + d)
  {
    if d > 0 { Shift(nodes, start, a, b, d - 1); }
  }

  /** A walk that comes back never ends. */
  lemma {:induction false} ReturnNeverEnds(nodes: set<Node>, start: Node?, a: nat, b: nat, k: nat)
    requires Closed(nodes) && (start == null || start in nodes) && a < b
    requires After(nodes, start, a) == After(nodes, start, b) != null
    ensures After(nodes, start, k) != null
    decreases k
  {
    if k <= b {
      EndsForGood(nodes, start, k, b);
    } else {
      ReturnNeverEnds(nodes, start, a, b, k - (b - a));
      Shift(nodes, start, a, b, k - b);
    }
  }

  /** Among more places than there are nodes, two are the same. */
  lemma Pigeonhole(nodes: set<Node>, start: Node?) returns (a: nat, b: nat)
    requires Closed(nodes) && (start == null || start in nodes)
    requires After(nodes, start, |nodes|) != null
    ensures a < b <= |nodes| && After(nodes, start, a) == After(nodes, start, b)
  {
    if forall i: nat, j: nat :: i < j <= |nodes| ==> After(nodes, start, i) != After(nodes, start, j) {
      forall i: nat | i <= |nodes| ensures After(nodes, start, i) != null {
        EndsForGood(nodes, start, i, |nodes|);
      }
      TooMany(nodes, start, |nodes| + 1, nodes);
    }
    a, b :| a < b <= |nodes| && After(nodes, start, a) == After(nodes, start, b);
  }

  lemma {:induction false} TooMany(nodes: set<Node>, start: Node?, n: nat, room: set<Node>)
    requires Closed(nodes) && (start == null || start in nodes)
    requires forall i: nat :: i < n ==> After(nodes, start, i) != null && After(nodes, start, i) in room
    requires forall i: nat, j: nat :: i < j < n ==> After(nodes, start, i) != After(nodes, start, j)
    ensures n <= |room|
  {
    if n > 0 {
      var last: Node := After(nodes, start, n - 1);
      TooMany(nodes, start, n - 1, room - {last});
    }
  }

  lemma {:induction false} WholeTurns(nodes: set<Node>, start: Node?, a: nat, p: nat, i: nat, m: nat)
    requires Closed(nodes) && (start == null || start in nodes)
    requires After(nodes, start, a) == After(nodes, start, a + p) && a <= i
    ensures After(nodes, start, i + m * p) == After(nodes, start, i)
  {
    if m > 0 {
      WholeTurns(nodes, start, a, p, i, m - 1);
      var j := i + (m - 1) * p;
      Product(m, p);
      Shift(nodes, start, a, a + p, j - a);
      assert a + p + (j - a) == i + m * p;
    }
  }

  lemma Product(m: nat, p: nat)
    requires m > 0
    ensures m * p == (m - 1) * p + p && (m - 1) * p >= 0
  {
  }

  /** If the walk is still going after as many links as there are nodes, the two runners meet within that many rounds. */
  lemma RunnersMeet(nodes: set<Node>, start: Node?) returns (i: nat)
    requires Closed(nodes) && (start == null || start in nodes)
    requires After(nodes, start, |nodes|) != null
    ensures 1 <= i <= |nodes| && After(nodes, start, i) == After(nodes, start, 2 * i)
  {
    var a, b := Pigeonhole(nodes, start);
    var p := b - a;
    var m := FirstMultiple(a, p);
    i := m * p;
    WholeTurns(nodes, start, a, p, i, m);
  }

  /** The first positive multiple of p that is at least a is at most a + p. */
  lemma FirstMultiple(a: nat, p: nat) returns (m: nat)
    requires p > 0
    ensures m >= 1 && a <= m * p <= a + p
  {
    m := 1;
    while m * p < a
      invariant m >= 1 && m * p <= a + p
      decreases a - m * p
    {
      assert (m + 1) * p == m * p + p;
      m := m + 1;
    }
  }

  // ----- Well-formed lists

  function At(s: seq<Node>, i: nat): Node? {
    if i < |s| then s[i] else null
  }

  ghost predicate Linked(s: seq<Node>, i: nat)
    requires i < |s|
    reads s[i]
  {
    s[i].next == At(s, i + 1)
  }

  ghost predicate Turned(s: seq<Node>, i: nat)
    requires i < |s|
    reads s[i]
  {
    s[i].next == if i == 0 then null else s[i - 1]
  }

  ghost predicate Distinct(s: seq<Node>) {
    forall i, j :: 0 <= i < j < |s| ==> s[i] != s[j]
  }

  ghost function Values(s: seq<Node>): (v: seq<int>)
    reads s
    ensures |v| == |s| && forall i :: 0 <= i < |s| ==> v[i] == s[i].data
  {
    seq(|s|, i requires 0 <= i < |s| reads s => s[i].data)
  }

  ghost function Reversed<T>(s: seq<T>): seq<T> {
    seq(|s|, i requires 0 <= i < |s| => s[|s| - 1 - i])
  }

  ghost predicate FirstMatch(values: seq<int>, d: int, cmp: (int, int) -> int, i: int) {
    0 <= i < |values| && cmp(values[i], d) == 0 && forall j :: 0 <= j < i ==> cmp(values[j], d) != 0
  }

  lemma OnlyAt(s: seq<Node>, k: nat)
    requires Distinct(s) && k < |s|
    ensures forall i :: 0 <= i < |s| && i != k ==> s[i] != s[k]
  {
  }

  lemma Inserted(s: seq<Node>, n: Node, k: nat, values: seq<int>)
    requires k <= |s| == |values| && Distinct(s) && forall i :: 0 <= i < |s| ==> s[i] != n && s[i].data == values[i]
    ensures Distinct(s[..k] + [n] + s[k..])
    ensures Values(s[..k] + [n] + s[k..]) == values[..k] + [n.data] + values[k..]
  {
  }

  lemma Fronted(s: seq<Node>, n: Node, values: seq<int>)
    requires |s| == |values| && Distinct(s) && n.next == At(s, 0)
    requires forall i :: 0 <= i < |s| ==> s[i] != n && s[i].data == values[i] && Linked(s, i)
    ensures Distinct([n] + s) && Values([n] + s) == [n.data] + values
    ensures var t := [n] + s; forall i :: 0 <= i < |t| ==> Linked(t, i)
  {
    var t := [n] + s;
    forall i | 0 <= i < |t| ensures Linked(t, i) { assert i > 0 ==> Linked(s, i - 1); }
  }

  lemma AllTurned(s: seq<Node>, values: seq<int>)
    requires Distinct(s) && |values| == |s|
    requires forall i :: 0 <= i < |s| ==> Turned(s, i) && s[i].data == values[i]
    ensures var t := Reversed(s);
      |t| == |s| && Distinct(t) && Values(t) == Reversed(values) && At(t, 0) == (if s == [] then null else s[|s| - 1])
      && forall i :: 0 <= i < |t| ==> Linked(t, i)
  {
    var t := Reversed(s);
    ReversedAt(s);
    ReversedAt(values);
    forall i | 0 <= i < |t| ensures Linked(t, i) { assert Turned(s, |s| - 1 - i); }
    hide Reversed;
    assert Values(t) == Reversed(values);
  }

  lemma ReversedAt<T>(s: seq<T>)
    ensures |Reversed(s)| == |s| && forall i :: 0 <= i < |s| ==> Reversed(s)[i] == s[|s| - 1 - i]
  {
  }

  lemma InsertedLinks(s: seq<Node>, n: Node, k: nat)
    requires 0 < k <= |s| && s[k - 1].next == n && n.next == At(s, k)
    requires forall i :: 0 <= i < |s| && i != k - 1 ==> Linked(s, i)
    ensures var t := s[..k] + [n] + s[k..]; forall i :: 0 <= i < |t| ==> Linked(t, i)
  {
    var t := s[..k] + [n] + s[k..];
    forall i | 0 <= i < |t| ensures Linked(t, i) {
      if i < k - 1 { assert Linked(s, i); } else if i > k { assert Linked(s, i - 1); }
    }
  }

  lemma Removed(s: seq<Node>, k: nat, values: seq<int>)
    requires k < |s| == |values| && Distinct(s) && forall i :: 0 <= i < |s| ==> s[i].data == values[i]
    ensures Distinct(s[..k] + s[k + 1..])
    ensures Values(s[..k] + s[k + 1..]) == values[..k] + values[k + 1..]
  {
  }

  class List {
    var head: Node?
    var size: nat
    ghost var spine: seq<Node>

    /** The nodes of a well-formed list, in order. */
    ghost predicate Valid()
      reads this, spine
    {
      && size == |spine| && Distinct(spine)
      && head == At(spine, 0) && forall i :: 0 <= i < |spine| ==> Linked(spine, i)
    }

    ghost function Contents(): seq<int>
      reads this, spine
    {
      Values(spine)
    }

    constructor ()
      ensures Valid() && Contents() == []
    {
      head := null;
      size := 0;
      spine := [];
    }

    method Prepend(d: int)
      requires Valid()
      modifies this
      ensures Valid() && Contents() == [d] + old(Contents())
      ensures |spine| == |old(spine)| + 1 && spine[1..] == old(spine) && fresh(spine[0])
    {
      hide Values, Distinct;
      ghost var before, values := spine, Contents();
      var n := new Node(d);
      n.next := head;
      head := n;
      size := size + 1;
      spine := [n] + before;
      Fronted(before, n, values);
    }

    /** Put d before position `index`; position `size` is the end. */
    method InsertAt(index: nat, d: int) returns (ok: bool)
      requires Valid()
      modifies this, spine
      ensures Valid() && ok == (index <= |old(spine)|)
      ensures !ok ==> Contents() == old(Contents()) && spine == old(spine)
      ensures ok ==> Contents() == old(Contents())[..index] + [d] + old(Contents())[index..]
    {
      if index > size { return false; }
      ghost var s, values := spine, Contents();
      if index == 0 {
        Prepend(d);
        return true;
      }
      var cur := head;
      for i := 0 to index - 1
        invariant cur == At(spine, i) && cur != null && Valid() && spine == s && Contents() == values
      {
        assert Linked(spine, i);
        cur := cur.next;
      }
      assert Linked(spine, index - 1);
      LinkAfter(cur, index, d);
      return true;
    }

    /** Put a new node holding d after `cur`, the node at position index - 1. */
    method LinkAfter(cur: Node, ghost index: nat, d: int)
      requires Valid() && 0 < index <= |spine| && cur == spine[index - 1]
      modifies this, spine
      ensures Valid() && Contents() == old(Contents())[..index] + [d] + old(Contents())[index..]
    {
      hide Values, Distinct;
      ghost var s, values := spine, Contents();
      assert Linked(s, index - 1);
      var n := new Node(d);
      n.next := cur.next;
      forall i | 0 <= i < |s| ensures Linked(s, i) && s[i] != n && s[i].data == values[i] {
        assert old(Linked(s, i)) && old(allocated(s[i]));
      }
      OnlyAt(s, index - 1);
      cur.next := n;
      size := size + 1;
      spine := s[..index] + [n] + s[index..];
      Inserted(s, n, index, values);
      InsertedLinks(s, n, index);
    }

    method Append(d: int)
      requires Valid()
      modifies this, spine
      ensures Valid() && Contents() == old(Contents()) + [d]
    {
      if head == null {
        var n := new Node(d);
        head := n;
        size := size + 1;
        spine := [n];
        assert Linked(spine, 0);
        return;
      }
      ghost var s, values := spine, Contents();
      ghost var i := 0;
      var cur := head;
      assert Linked(spine, 0);
      while cur.next != null
        invariant i < |spine| && cur == spine[i] && Valid() && spine == s && Contents() == values
        decreases |spine| - i
      {
        assert Linked(spine, i);
        cur := cur.next;
        i := i + 1;
      }
      assert Linked(spine, i);
      LinkAfter(cur, |spine|, d);
      assert values[..|values|] + [d] + values[|values|..] == values + [d];
    }

    /** Unlink the first node that matches; the rest of the list is untouched. */
    method Remove(d: int, cmp: (int, int) -> int) returns (ok: bool)
      requires Valid()
      modifies this, spine
      ensures Valid() && ok == exists i :: 0 <= i < |old(spine)| && cmp(old(Contents())[i], d) == 0
      ensures !ok ==> Contents() == old(Contents())
      ensures ok ==> exists i :: 0 <= i < |old(spine)| && FirstMatch(old(Contents()), d, cmp, i)
                       && Contents() == old(Contents())[..i] + old(Contents())[i + 1..]
                       && spine == old(spine)[..i] + old(spine)[i + 1..]
    {
      hide Values, Distinct;
      ghost var s, values := spine, Contents();
      ghost var k := 0;
      var prev: Node?, cur := null, head;
      while cur != null
        invariant k <= |s| && prev == (if k == 0 then null else s[k - 1]) && cur == At(s, k)
        invariant Valid() && spine == s && Contents() == values
        invariant forall i :: 0 <= i < k ==> cmp(values[i], d) != 0
        decreases |s| - k
      {
        assert Linked(s, k);
        if cmp(cur.data, d) == 0 {
          forall i | 0 <= i < |s| ensures Linked(s, i) {}
          if k > 0 { OnlyAt(s, k - 1); }
          label found:
          if prev == null { head := cur.next; } else { prev.next := cur.next; }
          size := size - 1;
          spine := s[..k] + s[k + 1..];
          Removed(s, k, values);
          forall i | 0 <= i < |spine| ensures Linked(spine, i) {
            if i < k { assert old@found(Linked(s, i)); } else { assert old@found(Linked(s, i + 1)); }
          }
          assert FirstMatch(values, d, cmp, k);
          return true;
        }
        prev := cur;
        cur := cur.next;
        k := k + 1;
      }
      return false;
    }

    /** Turn every link around, in place: the same nodes in the opposite order. */
    method Reverse()
      requires Valid()
      modifies this, spine
      ensures Valid() && Contents() == Reversed(old(Contents())) && spine == Reversed(old(spine))
    {
      hide Values, Reversed, Distinct;
      ghost var s, values := spine, Contents();
      ghost var k := 0;
      var prev: Node?, cur := null, head;
      while cur != null
        invariant k <= |s| && spine == s && size == |s| && cur == At(s, k)
        invariant prev == (if k == 0 then null else s[k - 1])
        invariant forall i :: 0 <= i < k ==> Turned(s, i)
        invariant forall i :: k <= i < |s| ==> Linked(s, i)
        invariant forall i :: 0 <= i < |s| ==> s[i].data == values[i]
        decreases |s| - k
      {
        assert Linked(s, k);
        OnlyAt(s, k);
        var nextNode := cur.next;
        cur.next := prev;
        prev := cur;
        cur := nextNode;
        k := k + 1;
      }
      head := prev;
      spine := Reversed(s);
      AllTurned(s, values);
    }

    /** Terminates on every finite node graph, and answers whether following next never reaches the end. */
    method HasCycle(ghost nodes: set<Node>) returns (cyclic: bool)
      requires Closed(nodes) && (head == null || head in nodes)
      ensures cyclic <==> NeverEnds(nodes, head)
    {
      var slow, fast := head, head;
      ghost var k: nat := 0;
      while fast != null && fast.next != null
        invariant slow == After(nodes, head, k) && fast == After(nodes, head, 2 * k)
        invariant fast != null ==> slow != null
        invariant forall i: nat :: 1 <= i <= k ==> After(nodes, head, i) != After(nodes, head, 2 * i)
        decreases |nodes| - k
      {
        NotYetMet(nodes, head, k);
        EndsForGood(nodes, head, k + 1, 2 * k + 1);
        slow := slow.next;
        fast := fast.next.next;
        k := k + 1;
        if slow == fast {
          EndsForGood(nodes, head, k, 2 * k - 1);
          forall j: nat ensures After(nodes, head, j) != null { ReturnNeverEnds(nodes, head, k, 2 * k, j); }
          return true;
        }
      }
      assert After(nodes, head, 2 * k) == null || After(nodes, head, 2 * k + 1) == null;
      return false;
    }
  }

  lemma NotYetMet(nodes: set<Node>, start: Node?, k: nat)
    requires Closed(nodes) && (start == null || start in nodes)
    requires After(nodes, start, 2 * k) != null
    requires forall i: nat :: 1 <= i <= k ==> After(nodes, start, i) != After(nodes, start, 2 * i)
    ensures k < |nodes|
  {
    if k >= |nodes| {
      EndsForGood(nodes, start, |nodes|, 2 * k);
      var i := RunnersMeet(nodes, start);
    }
  }
}
