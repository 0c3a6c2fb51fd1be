/** src/include/list.h: circular doubly linked lists threaded through other structures. A node is
    the address of its struct list_head; the two pointer fields of all nodes are two arrays. */
module ListHead {

  const LIST_POISON1: int := 0x00100100
  const LIST_POISON2: int := 0x00200200

  datatype Links = Links(next: seq<int>, prev: seq<int>)

  function Succ(i: nat, n: nat): (r: nat)
    requires i < n
    ensures r < n
  {
    if i + 1 == n then 0 else i + 1
  }

  /** The i-th node of s and the one after it point at each other. */
  ghost predicate Linked(l: Links, s: seq<nat>, i: nat)
    requires i < |s| && InRange(l, s)
  {
    l.next[s[i]] == s[Succ(i, |s|)] && l.prev[s[Succ(i, |s|)]] == s[i]
  }

  ghost predicate InRange(l: Links, s: seq<nat>) {
    |l.next| == |l.prev| && forall i | 0 <= i < |s| :: s[i] < |l.next|
  }

  /** The nodes of s, in this order, form one well-linked circle; s[0] is the list's head. */
  ghost predicate Ring(l: Links, s: seq<nat>) {
    && |s| >= 1
    && InRange(l, s)
    && (forall i, j | 0 <= i < j < |s| :: s[i] != s[j])
    && (forall i: nat | i < |s| :: Linked(l, s, i))
  }

  predicate IsNode(l: Links, a: int) {
    0 <= a < |l.next| && a < |l.prev|
  }

  function InitHead(l: Links, node: nat): Links
    requires IsNode(l, node)
  {
    Links(l.next[node := node], l.prev[node := node])
  }

  /** The four stores of __list_add, in their order. */
  function AddBetween(l: Links, node: nat, before: nat, after: nat): Links
    requires IsNode(l, node) && IsNode(l, before) && IsNode(l, after)
  {
    Links(l.next[node := after][before := node], l.prev[after := node][node := before])
  }

  function Unlink(l: Links, entry: nat): Links
    requires IsNode(l, entry) && IsNode(l, l.next[entry]) && IsNode(l, l.prev[entry])
  {
    var before, after := l.prev[entry], l.next[entry];
    Links(l.next[before := after][entry := LIST_POISON1], l.prev[after := before][entry := LIST_POISON2])
  }

  lemma InitMakesRing(l: Links, node: nat)
    requires IsNode(l, node) && |l.next| == |l.prev|
    ensures Ring(InitHead(l, node), [node])
  {
  }

  /** The first and the last node of a ring point at each other. */
  lemma RingEnds(l: Links, s: seq<nat>)
    requires Ring(l, s)
    ensures l.next[s[0]] == s[Succ(0, |s|)] && l.prev[s[0]] == s[|s| - 1]
    ensures IsNode(l, s[0]) && IsNode(l, l.next[s[0]]) && IsNode(l, l.prev[s[0]])
  {
    assert Linked(l, s, 0) && Linked(l, s, |s| - 1);
  }

  /** list_add puts the node first. */
  lemma AddAfterHead(l: Links, s: seq<nat>, node: nat)
    requires Ring(l, s) && IsNode(l, node) && node !in s
    ensures IsNode(l, s[0]) && IsNode(l, l.next[s[0]])
    ensures Ring(AddBetween(l, node, s[0], l.next[s[0]]), [s[0], node] + s[1..])
  {
    RingEnds(l, s);
    var t, n := [s[0], node] + s[1..], |s|;
    var l' := AddBetween(l, node, s[0], l.next[s[0]]);
    forall i: nat | i < |t|
      ensures Linked(l', t, i)
    {
      if i >= 2 {
        assert Linked(l, s, i - 1);
      }
    }
  }

  /** list_add_tail puts the node last. */
  lemma AddBeforeHead(l: Links, s: seq<nat>, node: nat)
    requires Ring(l, s) && IsNode(l, node) && node !in s
    ensures IsNode(l, s[0]) && IsNode(l, l.prev[s[0]])
    ensures Ring(AddBetween(l, node, l.prev[s[0]], s[0]), s + [node])
  {
    RingEnds(l, s);
    var t, n := s + [node], |s|;
    var l' := AddBetween(l, node, l.prev[s[0]], s[0]);
    forall i: nat | i < |t|
      ensures Linked(l', t, i)
    {
      if i < n - 1 {
        assert Linked(l, s, i);
      }
    }
  }

  /** Inserting a lone head before itself, as memory_init does for page 0, leaves it a lone head. */
  lemma AddHeadToItself(l: Links, head: nat)
    requires Ring(l, [head])
    ensures IsNode(l, head) && l.prev[head] == head
    ensures AddBetween(l, head, head, head) == l
  {
    RingEnds(l, [head]);
  }

  /** One link of the list that list_del leaves: the two neighbours are joined, all others are as before. */
  lemma UnlinkLink(l: Links, s: seq<nat>, k: nat, i: nat)
    requires Ring(l, s) && 1 <= k < |s| && i < |s| - 1
    requires IsNode(l, s[k]) && l.next[s[k]] == s[Succ(k, |s|)] && l.prev[s[k]] == s[k - 1]
    ensures InRange(Unlink(l, s[k]), s[..k] + s[k + 1..])
    ensures Linked(Unlink(l, s[k]), s[..k] + s[k + 1..], i)
  {
    var j := if i < k then i else i + 1;
    var t := s[..k] + s[k + 1..];
    assert Linked(l, s, j);
    assert t[i] == s[j];
    if i + 1 < |t| {
      assert t[i + 1] == s[if i + 1 < k then i + 1 else i + 2];
    } else {
      assert t[0] == s[0];
    }
  }

  /** list_del takes out that node only; the others keep their order. */
  lemma UnlinkRemoves(l: Links, s: seq<nat>, k: nat)
    requires Ring(l, s) && 1 <= k < |s|
    ensures IsNode(l, s[k]) && l.next[s[k]] == s[Succ(k, |s|)] && l.prev[s[k]] == s[k - 1]
    ensures Ring(Unlink(l, s[k]), s[..k] + s[k + 1..])
  {
    assert Linked(l, s, k) && Linked(l, s, k - 1);
    var t := s[..k] + s[k + 1..];
    forall i: nat | i < |t|
      ensures InRange(Unlink(l, s[k]), t) && Linked(Unlink(l, s[k]), t, i)
    {
      UnlinkLink(l, s, k, i);
    }
  }

  /** Deleting the node just added gives back every other link. */
  lemma UnlinkUndoesAdd(l: Links, s: seq<nat>, node: nat)
    requires Ring(l, s) && IsNode(l, node) && node !in s
    ensures IsNode(l, s[0]) && IsNode(l, l.next[s[0]])
    ensures var l1 := AddBetween(l, node, s[0], l.next[s[0]]);
            && IsNode(l1, l1.next[node]) && IsNode(l1, l1.prev[node])
            && Unlink(l1, node) == Links(l.next[node := 0x00100100], l.prev[node := 0x00200200])
  {
    RingEnds(l, s);
    assert Linked(l, s, 0) && s[Succ(0, |s|)] in s;
    var l1 := AddBetween(l, node, s[0], l.next[s[0]]);
    assert Unlink(l1, node).next == l.next[node := LIST_POISON1];
    assert Unlink(l1, node).prev == l.prev[node := LIST_POISON2];
  }

  /** A list none of whose nodes was written is still the same list. */
  lemma RingFrame(l: Links, l': Links, s: seq<nat>)
    requires Ring(l, s) && |l'.next| == |l'.prev| == |l.next|
    requires forall x | x in s :: l'.next[x] == l.next[x] && l'.prev[x] == l.prev[x]
    ensures Ring(l', s)
  {
    forall i: nat | i < |s|
      ensures Linked(l', s, i)
    {
      assert Linked(l, s, i) && s[Succ(i, |s|)] in s && s[i] in s;
    }
  }

  ghost predicate NoCommonNode(s: seq<nat>, t: seq<nat>) {
    forall x | x in s :: x !in t
  }

  lemma AddKeepsOtherRing(l: Links, s: seq<nat>, node: nat, t: seq<nat>)
    requires Ring(l, s) && Ring(l, t) && NoCommonNode(s, t) && IsNode(l, node) && node !in t
    ensures IsNode(l, s[0]) && IsNode(l, l.next[s[0]]) && Ring(AddBetween(l, node, s[0], l.next[s[0]]), t)
  {
    RingEnds(l, s);
    assert s[Succ(0, |s|)] in s && s[0] in s;
    RingFrame(l, AddBetween(l, node, s[0], l.next[s[0]]), t);
  }

  lemma UnlinkKeepsOtherRing(l: Links, s: seq<nat>, k: nat, t: seq<nat>)
    requires Ring(l, s) && Ring(l, t) && NoCommonNode(s, t) && 1 <= k < |s|
    ensures IsNode(l, s[k]) && IsNode(l, l.next[s[k]]) && IsNode(l, l.prev[s[k]]) && Ring(Unlink(l, s[k]), t)
  {
    UnlinkRemoves(l, s, k);
    assert s[Succ(k, |s|)] in s && s[k] in s && s[k - 1] in s;
    RingFrame(l, Unlink(l, s[k]), t);
  }

  /** The two pointer fields of all nodes, updated in place. */
  class LinkTable {
    const next: array<int>
    const prev: array<int>

    constructor (n: nat)
      ensures Valid() && next.Length == n && fresh(next) && fresh(prev)
      ensures forall i | 0 <= i < n :: next[i] == 0 && prev[i] == 0
    {
      next := new int[n](_ => 0);
      prev := new int[n](_ => 0);
    }

    ghost predicate Valid() {
      next != prev && next.Length == prev.Length
    }

    ghost function View(): Links
      reads next, prev
    {
      Links(next[..], prev[..])
    }

    method InitListHead(node: nat)
      requires Valid() && node < next.Length
      modifies next, prev
      ensures View() == InitHead(old(View()), node)
    {
      next[node] := node;
      prev[node] := node;
    }

    method ListAddBetween(node: nat, before: nat, after: nat)
      requires Valid() && node < next.Length && before < next.Length && after < next.Length
      modifies next, prev
      ensures View() == AddBetween(old(View()), node, before, after)
    {
      prev[after] := node;
      next[node] := after;
      prev[node] := before;
      next[before] := node;
    }

    method ListAdd(node: nat, head: nat)
      requires Valid() && IsNode(View(), node) && IsNode(View(), head) && IsNode(View(), next[head])
      modifies next, prev
      ensures View() == AddBetween(old(View()), node, head, old(next[head]))
    {
      ListAddBetween(node, head, next[head]);
    }

    method ListAddTail(node: nat, head: nat)
      requires Valid() && IsNode(View(), node) && IsNode(View(), head) && IsNode(View(), prev[head])
      modifies next, prev
      ensures View() == AddBetween(old(View()), node, old(prev[head]), head)
    {
      ListAddBetween(node, prev[head], head);
    }

    method ListDel(entry: nat)
      requires Valid() && IsNode(View(), entry) && IsNode(View(), next[entry]) && IsNode(View(), prev[entry])
      modifies next, prev
      ensures View() == Unlink(old(View()), entry)
    {
      var before, after := prev[entry], next[entry];
      prev[after] := before;
      next[before] := after;
      next[entry] := LIST_POISON1;
      prev[entry] := LIST_POISON2;
    }
  }
}
