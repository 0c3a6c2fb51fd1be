/** The free list of one slab (src/slab.c): `free` is the index of the first free object and
    bufctl[i] the index after i, all in one array of 16-bit entries. */
module FreeList {
  import opened SlabGeometry

  datatype SlabList = SlabList(bufctl: seq<nat>, free: nat, inuse: nat)

  /** ch lists the indices met from `start` on, up to the end mark. */
  ghost predicate Follows(bufctl: seq<nat>, start: nat, ch: seq<nat>) {
    && start == (if ch == [] then BUFCTL_END else ch[0])
    && (forall k | 0 <= k < |ch| :: ch[k] < |bufctl|)
    && (forall k: nat | k < |ch| :: Link(bufctl, ch, k))
  }

  ghost predicate Link(bufctl: seq<nat>, ch: seq<nat>, k: nat)
    requires k < |ch|
  {
    ch[k] < |bufctl| && bufctl[ch[k]] == (if k + 1 < |ch| then ch[k + 1] else BUFCTL_END)
  }

  ghost predicate NoDuplicates(ch: seq<nat>) {
    forall j, k | 0 <= j < k < |ch| :: ch[j] != ch[k]
  }

  /** Follows the indices from `start`, at most `fuel` steps. */
  function Walk(bufctl: seq<nat>, start: nat, fuel: nat): seq<nat>
    decreases fuel
  {
    if fuel == 0 || start >= |bufctl| then [] else [start] + Walk(bufctl, bufctl[start], fuel - 1)
  }

  function Chain(l: SlabList): seq<nat> {
    Walk(l.bufctl, l.free, |l.bufctl|)
  }

  /** The list ends, meets no index twice, and has one entry for every object not in use. */
  ghost predicate Good(l: SlabList) {
    && 1 <= |l.bufctl| < BUFCTL_END
    && Follows(l.bufctl, l.free, Chain(l))
    && NoDuplicates(Chain(l))
    && |Chain(l)| + l.inuse == |l.bufctl|
  }

  /** The object is in a caller's hands. */
  predicate Live(l: SlabList, i: nat) {
    i < |l.bufctl| && i !in Chain(l)
  }

  // ---------------------------------------------------------------- the three updates

  /** kmem_cache_grow: every entry points to the next, the last is marked. */
  function FreshList(num: nat): SlabList {
    SlabList(seq(num, i => if i + 1 == num then BUFCTL_END else i + 1), 0, 0)
  }

  /** caos_kmalloc takes the first free object. */
  function TakeFirst(l: SlabList): SlabList
    requires l.free < |l.bufctl|
  {
    l.(free := l.bufctl[l.free], inuse := l.inuse + 1)
  }

  /** caos_kfree puts an object in front. */
  function PutBack(l: SlabList, i: nat): SlabList
    requires i < |l.bufctl| && l.inuse > 0
  {
    SlabList(l.bufctl[i := l.free % 0x10000], i, l.inuse - 1)
  }

  // ---------------------------------------------------------------- chains

  lemma {:induction false} WalkIsChain(bufctl: seq<nat>, start: nat, ch: seq<nat>, fuel: nat)
    requires |bufctl| <= BUFCTL_END && Follows(bufctl, start, ch) && |ch| <= fuel
    ensures Walk(bufctl, start, fuel) == ch
    decreases fuel
  {
    if ch != [] {
      assert Link(bufctl, ch, 0);
      var rest := ch[1..];
      forall k: nat | k < |rest|
        ensures Link(bufctl, rest, k)
      {
        assert Link(bufctl, ch, k + 1);
      }
      WalkIsChain(bufctl, bufctl[start], rest, fuel - 1);
      assert ch == [ch[0]] + rest;
    }
  }

  /** The indices below n. */
  ghost function Below(n: nat): (s: set<nat>)
    ensures |s| == n && forall i: nat :: i in s <==> i < n
  {
    if n == 0 then {} else Below(n - 1) + {n - 1}
  }

  ghost function Elements(ch: seq<nat>): (s: set<nat>)
    ensures forall i: nat :: i in s <==> i in ch
    ensures NoDuplicates(ch) ==> |s| == |ch|
  {
    if ch == [] then {}
    else
      var h, x := ch[..|ch| - 1], ch[|ch| - 1];
      assert ch == h + [x];
      Elements(h) + {x}
  }

  lemma {:induction false} SubsetSize(s: set<nat>, t: set<nat>)
    requires s <= t
    ensures |s| <= |t|
  {
    if s != {} {
      var x :| x in s;
      SubsetSize(s - {x}, t - {x});
    }
  }

  /** Any list of distinct indices that follows the entries and has the right length is the chain. */
  lemma ChainIs(l: SlabList, ch: seq<nat>)
    requires 1 <= |l.bufctl| < BUFCTL_END
    requires Follows(l.bufctl, l.free, ch) && NoDuplicates(ch) && |ch| + l.inuse == |l.bufctl|
    ensures Good(l) && Chain(l) == ch
  {
    WalkIsChain(l.bufctl, l.free, ch, |l.bufctl|);
  }

  /** The two tests of caos_kmalloc, `free != BUFCTL_END` and `inuse < num`, always agree. */
  lemma TestsAgree(l: SlabList)
    requires Good(l)
    ensures l.free != BUFCTL_END <==> l.inuse < |l.bufctl|
    ensures l.free != BUFCTL_END ==> l.free < |l.bufctl| && !Live(l, l.free)
    ensures l.free <= BUFCTL_END
  {
    if Chain(l) != [] {
      assert Link(l.bufctl, Chain(l), 0);
    }
  }

  lemma FreshIsGood(num: nat)
    requires 1 <= num < BUFCTL_END
    ensures Good(FreshList(num)) && forall i: nat :: !Live(FreshList(num), i)
  {
    var ch := seq(num, i => i);
    var l := FreshList(num);
    assert Follows(l.bufctl, 0, ch) by {
      forall k: nat | k < |ch|
        ensures Link(l.bufctl, ch, k)
      {
      }
    }
    ChainIs(l, ch);
    forall i: nat | i < num
      ensures i in ch
    {
      assert ch[i] == i;
    }
  }

  /** Taking the first object makes exactly that object live. */
  lemma TakeKeepsGood(l: SlabList)
    requires Good(l) && l.free != BUFCTL_END
    ensures l.free < |l.bufctl| && Good(TakeFirst(l)) && Chain(TakeFirst(l)) == Chain(l)[1..]
    ensures forall i: nat :: Live(TakeFirst(l), i) <==> Live(l, i) || i == l.free
  {
    var ch := Chain(l);
    assert Link(l.bufctl, ch, 0);
    var l', rest := TakeFirst(l), ch[1..];
    forall k: nat | k < |rest|
      ensures Link(l.bufctl, rest, k)
    {
      assert Link(l.bufctl, ch, k + 1);
    }
    ChainIs(l', rest);
    assert ch == [l.free] + rest;
  }

  lemma LiveMeansInUse(l: SlabList, i: nat)
    requires Good(l) && Live(l, i)
    ensures l.inuse > 0
  {
    assert NoDuplicates([i] + Chain(l));
    SubsetSize(Elements([i] + Chain(l)), Below(|l.bufctl|));
  }

  /** Putting back a live object makes exactly that object free, and the 16-bit store loses nothing. */
  lemma PutKeepsGood(l: SlabList, i: nat)
    requires Good(l) && Live(l, i)
    ensures l.inuse > 0 && Good(PutBack(l, i)) && Chain(PutBack(l, i)) == [i] + Chain(l)
    ensures PutBack(l, i).bufctl == l.bufctl[i := l.free]
    ensures forall j: nat :: Live(PutBack(l, i), j) <==> Live(l, j) && j != i
  {
    TestsAgree(l);
    LiveMeansInUse(l, i);
    var ch, ch' := Chain(l), [i] + Chain(l);
    var l' := PutBack(l, i);
    forall k: nat | k < |ch'|
      ensures Link(l'.bufctl, ch', k)
    {
      if k > 0 {
        assert Link(l.bufctl, ch, k - 1);
      }
    }
    ChainIs(l', ch');
  }

  /** caos_kfree does not check that the object is in use. Freeing an index keeps the list sound
      exactly when the object was live; a second free of the same object closes a circle. */
  lemma PutBackSoundIffLive(l: SlabList, i: nat)
    requires Good(l) && i < |l.bufctl| && l.inuse > 0
    ensures Good(PutBack(l, i)) <==> Live(l, i)
  {
    if Live(l, i) {
      PutKeepsGood(l, i);
    } else if Good(PutBack(l, i)) {
      TestsAgree(l);
      var j :| 0 <= j < |Chain(l)| && Chain(l)[j] == i;
      SecondFreeRepeats(l, i, j);
    }
  }

  lemma {:induction false} SecondFreeRepeats(l: SlabList, i: nat, j: nat)
    requires Good(l) && i < |l.bufctl| && l.inuse > 0 && Good(PutBack(l, i))
    requires j < |Chain(l)| && forall k | 0 <= k < j :: Chain(l)[k] != i
    ensures j + 1 < |Chain(PutBack(l, i))| && Chain(PutBack(l, i))[j + 1] == Chain(l)[j]
  {
    var ch, l' := Chain(l), PutBack(l, i);
    var ch' := Chain(l');
    assert Link(l'.bufctl, ch', j);
    if j == 0 {
      TestsAgree(l);
    } else {
      SecondFreeRepeats(l, i, j - 1);
      assert Link(l.bufctl, ch, j - 1);
    }
  }

  /** Freeing the object just taken restores the slab's list exactly. */
  lemma PutUndoesTake(l: SlabList)
    requires Good(l) && l.free != BUFCTL_END
    ensures l.free < |l.bufctl| && PutBack(TakeFirst(l), l.free) == l
  {
    TakeKeepsGood(l);
    assert Live(TakeFirst(l), l.free);
    PutKeepsGood(TakeFirst(l), l.free);
  }

  /** `inuse` counts the live objects. */
  lemma InuseCountsLive(l: SlabList)
    requires Good(l)
    ensures l.inuse == |set i | i in Below(|l.bufctl|) && Live(l, i)|
  {
    var all := Below(|l.bufctl|);
    var free := Elements(Chain(l));
    assert free <= all;
    assert all == (all - free) + free;
    assert (set i | i in all && Live(l, i)) == all - free;
  }
}
