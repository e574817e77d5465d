/**
 * The circular doubly linked list of include/list.h.
 *
 * A `struct list` and the structure it is embedded in are one malloc block, hence one object:
 * `value` stands for the fields around the link (what container_of reaches), and is None in a
 * list head. A list is described by the ring of its nodes, head first.
 */
module IntrusiveList {
  import opened Wrappers

  class Link<T> {
    var next: Link<T>
    var prev: Link<T>
    var value: Option<T>

    /** malloc, list_init and the field stores that come before list_add. */
    constructor (value: Option<T>)
      ensures Loose(this)
      ensures this.value == value
    {
      next := this;
      prev := this;
      this.value := value;
    }

    /** list_init */
    method ListInit()
      modifies this`next, this`prev
      ensures Loose(this)
    {
      next := this;
      prev := this;
    }
  }

  /** The position after `i` on a ring of `n` nodes. */
  function After(i: nat, n: nat): (j: nat)
    requires i < n
    ensures j < n
  {
    if i + 1 < n then i + 1 else 0
  }

  /** The position before `i` on a ring of `n` nodes. */
  function Before(i: nat, n: nat): (j: nat)
    requires i < n
    ensures j < n && After(j, n) == i
  {
    if i > 0 then i - 1 else n - 1
  }

  ghost predicate Distinct<T>(r: seq<T>) {
    forall i, j :: 0 <= i < j < |r| ==> r[i] != r[j]
  }

  /** The nodes of `r` are distinct and linked into one circle, in this order, both ways. */
  ghost predicate IsRing<T>(r: seq<Link<T>>)
    reads r
  {
    && |r| > 0
    && Distinct(r)
    && (forall i {:trigger r[i].next} :: 0 <= i < |r| ==> r[i].next == r[After(i, |r|)])
    && (forall i {:trigger r[i].prev} :: 0 <= i < |r| ==> r[i].prev == r[Before(i, |r|)])
  }

  /** An entry that is in no list: a ring of its own, as list_init and list_del leave it. */
  ghost predicate Loose<T>(x: Link<T>)
    reads x
  {
    x.next == x && x.prev == x
  }

  lemma Neighbours<T>(r: seq<Link<T>>, i: nat)
    requires IsRing(r) && i < |r|
    ensures r[i].next == r[After(i, |r|)] && r[i].prev == r[Before(i, |r|)]
  {
  }

  /** __list_add: splices `entry` between two neighbours, in the source's order of stores. */
  method ListSplice<T>(entry: Link<T>, prev: Link<T>, next: Link<T>)
    modifies entry`next, entry`prev, prev`next, next`prev
    ensures entry != prev && entry != next ==> entry.next == next && entry.prev == prev
    ensures next.prev == (if next == entry then prev else entry)
    ensures prev.next == entry
  {
    next.prev := entry;
    entry.next := next;
    entry.prev := prev;
    prev.next := entry;
  }

  /** list_add: the entry becomes the first node after the head. */
  method ListAdd<T>(entry: Link<T>, head: Link<T>, ghost s: seq<Link<T>>)
    requires IsRing([head] + s) && entry !in [head] + s
    modifies entry`next, entry`prev, head`next, head.next`prev
    ensures IsRing([head, entry] + s)
  {
    ghost var r, q := [head] + s, [head, entry] + s;
    ghost var n := |r|;
    assert head == r[0] && head.next == r[After(0, n)];
    assert r[After(0, n)].prev == head;
    ListSplice(entry, head, head.next);
    assert q[0] == head && q[1] == entry;
    assert forall i :: 2 <= i <= n ==> q[i] == r[i - 1];
    forall i | 0 <= i <= n ensures q[i].next == q[After(i, n + 1)] {
      if i >= 2 { assert r[i - 1].next == r[After(i - 1, n)]; }
    }
    forall i | 0 <= i <= n ensures q[i].prev == q[Before(i, n + 1)] {
      if i >= 3 { assert r[i - 1].prev == r[Before(i - 1, n)]; }
    }
  }

  /** `q` is `r` without its element at position `k`. */
  ghost predicate IsWithout<T>(q: seq<T>, r: seq<T>, k: nat) {
    && k < |r| == |q| + 1
    && (forall i :: 0 <= i < k ==> q[i] == r[i])
    && (forall i :: k <= i < |q| ==> q[i] == r[i + 1])
  }

  /**
   * list_del: takes the node at position `k` of the ring `r` out and leaves it as a ring of its
   * own; the others stay a ring. On an entry that is in no list nothing changes.
   */
  method ListDel<T>(entry: Link<T>, ghost r: seq<Link<T>>, ghost k: nat, ghost q: seq<Link<T>>)
    requires IsRing(r) && IsWithout(q, r, k) && r[k] == entry
    modifies entry`next, entry`prev, entry.prev`next, entry.next`prev
    ensures Loose(entry)
    ensures q != [] ==> IsRing(q)
    ensures old(Loose(entry)) ==> unchanged(entry)
  {
    ghost var n := |q|;
    Neighbours(r, k);
    var prev, next := entry.prev, entry.next;
    next.prev := prev;
    prev.next := next;
    entry.ListInit();
    forall i | 0 <= i < n ensures q[i].next == q[After(i, n)] {
      ghost var j := if i < k then i else i + 1;
      assert q[i] == r[j] && j != k;
      if j == Before(k, n + 1) {
        assert q[i] == prev;
      } else {
        assert r[j] != prev;
        assert q[i].next == old(r[j].next) == r[After(j, n + 1)];
      }
    }
    forall i | 0 <= i < n ensures q[i].prev == q[Before(i, n)] {
      ghost var j := if i < k then i else i + 1;
      assert q[i] == r[j] && j != k;
      if j == After(k, n + 1) {
        assert q[i] == next;
      } else {
        assert r[j] != next;
        assert q[i].prev == old(r[j].prev) == r[Before(j, n + 1)];
      }
    }
  }

  /** list_is_empty */
  method ListIsEmpty<T>(head: Link<T>, ghost s: seq<Link<T>>) returns (empty: bool)
    requires IsRing([head] + s)
    ensures empty <==> s == []
  {
    ghost var r := [head] + s;
    assert head == r[0] && head.next == r[After(0, |r|)];
    empty := head.next == head;
  }

  /** list_for_each_entry: visits every entry once, in list order. */
  method ForEachEntry<T>(head: Link<T>, ghost s: seq<Link<T>>) returns (visited: seq<Link<T>>)
    requires IsRing([head] + s)
    ensures visited == s
  {
    ghost var r := [head] + s;
    visited := [];
    assert head == r[0] && head.next == r[After(0, |r|)];
    var pos := head.next;
    while pos != head
      invariant |visited| <= |s| && visited == s[..|visited|]
      invariant pos == r[After(|visited|, |r|)]
      decreases |s| - |visited|
    {
      visited := visited + [pos];
      assert pos == r[|visited|];
      pos := pos.next;
    }
  }

  /** The entries that a deleting walk leaves in the list. */
  ghost function Kept<T>(s: seq<Link<T>>, doomed: set<Link<T>>): (k: seq<Link<T>>)
    ensures forall i :: 0 <= i < |k| ==> k[i] in s && k[i] !in doomed
  {
    if s == [] then [] else
    if s[0] in doomed then Kept(s[1..], doomed) else [s[0]] + Kept(s[1..], doomed)
  }

  lemma KeptSnoc<T>(s: seq<Link<T>>, x: Link<T>, doomed: set<Link<T>>)
    ensures Kept(s + [x], doomed) == Kept(s, doomed) + (if x in doomed then [] else [x])
  {
    if s != [] {
      assert (s + [x])[1..] == s[1..] + [x];
      KeptSnoc(s[1..], x, doomed);
    }
  }

  /** The ring, once a deleting walk has passed the first `n` entries of what was the list `s`. */
  ghost function Remaining<T>(head: Link<T>, s: seq<Link<T>>, n: nat, doomed: set<Link<T>>): (q: seq<Link<T>>)
    requires n <= |s|
    ensures forall i :: 0 <= i < |q| ==> q[i] in [head] + s
  {
    var kept := Kept(s[..n], doomed);
    assert forall i :: 0 <= i < |kept| ==> kept[i] in [head] + s;
    [head] + kept + s[n..]
  }

  /**
   * A deleting walk has passed the first `n` entries of what was the list `s`: the doomed ones
   * among them are loose, all others are still linked in order.
   */
  ghost predicate Walked<T>(head: Link<T>, s: seq<Link<T>>, n: nat, doomed: set<Link<T>>)
    reads [head] + s, s
  {
    && n <= |s| && Distinct([head] + s)
    && IsRing(Remaining(head, s, n, doomed))
    && forall i :: 0 <= i < n && s[i] in doomed ==> Loose(s[i])
  }

  /** What a deleting walk has dropped is no longer in the ring it walks on. */
  lemma DroppedIsGone<T>(head: Link<T>, s: seq<Link<T>>, n: nat, doomed: set<Link<T>>)
    requires n <= |s| && Distinct([head] + s)
    ensures forall i :: 0 <= i < n && s[i] in doomed ==> s[i] !in Remaining(head, s, n, doomed)
  {
    var r, kept := [head] + s, Kept(s[..n], doomed);
    forall i | 0 <= i < n && s[i] in doomed ensures s[i] !in [head] + kept + s[n..] {
      assert s[i] == r[i + 1] && s[i] != r[0];
      assert forall j :: n <= j < |s| ==> s[j] == r[j + 1];
    }
  }

  lemma RemainingStep<T>(head: Link<T>, s: seq<Link<T>>, n: nat, doomed: set<Link<T>>)
    requires n < |s|
    ensures var q, q' := Remaining(head, s, n, doomed), Remaining(head, s, n + 1, doomed);
            && |q| >= |s| - n && q[|q| - |s| + n] == s[n]
            && if s[n] in doomed then IsWithout(q', q, |q| - |s| + n) else q' == q
  {
    assert s[..n + 1] == s[..n] + [s[n]];
    KeptSnoc(s[..n], s[n], doomed);
  }

  lemma WalkedNext<T>(head: Link<T>, s: seq<Link<T>>, n: nat, doomed: set<Link<T>>)
    requires Walked(head, s, n, doomed) && n < |s|
    ensures s[n].next == if n + 1 < |s| then s[n + 1] else head
  {
    var q := Remaining(head, s, n, doomed);
    var k := |q| - |s| + n;
    assert q[k] == s[n] && (n + 1 < |s| ==> q[k + 1] == s[n + 1]) && q[0] == head;
    Neighbours(q, k);
  }

  lemma WalkStarts<T>(head: Link<T>, s: seq<Link<T>>, doomed: set<Link<T>>)
    requires IsRing([head] + s)
    ensures Walked(head, s, 0, doomed)
    ensures head.next == if s == [] then head else s[0]
    ensures s != [] ==> s[0].next == if |s| == 1 then head else s[1]
  {
    assert Remaining(head, s, 0, doomed) == [head] + s;
    Neighbours([head] + s, 0);
    if s != [] { WalkedNext(head, s, 0, doomed); }
  }

  lemma HeadApart<T>(head: T, s: seq<T>)
    requires Distinct([head] + s)
    ensures forall i :: 0 <= i < |s| ==> s[i] != head
  {
    var r := [head] + s;
    forall i | 0 <= i < |s| ensures s[i] != head { assert s[i] == r[i + 1] && r[0] == head; }
  }

  lemma WalkEnds<T>(head: Link<T>, s: seq<Link<T>>, n: nat, doomed: set<Link<T>>)
    requires Walked(head, s, n, doomed) && (n < |s| ==> s[n] == head)
    ensures n == |s|
    ensures IsRing([head] + Kept(s, doomed))
    ensures forall i :: 0 <= i < |s| && s[i] in doomed ==> Loose(s[i])
  {
    HeadApart(head, s);
    assert s[..n] == s && Remaining(head, s, n, doomed) == [head] + Kept(s, doomed);
  }

  /** The loop body of a deleting walk, on the entry at position `n`. */
  method DropIfDoomed<T>(head: Link<T>, pos: Link<T>, doomed: set<Link<T>>, ghost s: seq<Link<T>>, ghost n: nat)
    requires Walked(head, s, n, doomed) && n < |s| && pos == s[n]
    modifies [head] + s
    ensures Walked(head, s, n + 1, doomed)
  {
    ghost var q, q' := Remaining(head, s, n, doomed), Remaining(head, s, n + 1, doomed);
    DroppedIsGone(head, s, n, doomed);
    RemainingStep(head, s, n, doomed);
    if pos in doomed {
      Neighbours(q, |q| - |s| + n);
      ListDel(pos, q, |q| - |s| + n, q');
    }
  }

  /**
   * list_for_each_entry_safe with a body that deletes the current entry whenever it is one of
   * `doomed`: every entry is still visited once and in order, exactly the doomed ones are gone
   * from the ring, and each of those is left as a self-loop.
   */
  method ForEachEntrySafe<T>(head: Link<T>, doomed: set<Link<T>>, ghost s: seq<Link<T>>)
    returns (visited: seq<Link<T>>)
    requires IsRing([head] + s)
    modifies [head] + s
    ensures visited == s
    ensures IsRing([head] + Kept(s, doomed))
    ensures forall i :: 0 <= i < |s| && s[i] in doomed ==> Loose(s[i])
  {
    visited := [];
    WalkStarts(head, s, doomed);
    var pos := head.next;
    var tmp := pos.next;
    ghost var n := 0;
    while pos != head
      invariant n <= |s| && n == |visited| && forall i :: 0 <= i < n ==> visited[i] == s[i]
      invariant Walked(head, s, n, doomed)
      invariant pos == if n < |s| then s[n] else head
      invariant pos != head ==> tmp == if n + 1 < |s| then s[n + 1] else head
      decreases |s| - n
    {
      DropIfDoomed(head, pos, doomed, s, n);
      visited := visited + [pos];
      n := n + 1;
      pos := tmp;
      if n < |s| { WalkedNext(head, s, n, doomed); }
      tmp := pos.next;
    }
    WalkEnds(head, s, n, doomed);
  }
}
