/**
 * The circular, doubly linked, intrusive list of kernel/src/utils/llist.rs.
 *
 * A node is its address. Memory holding nodes is a `Links` object whose
 * `next` and `prev` maps give each node's two pointer cells, and whose `data`
 * map gives its payload. Every list has a sentinel ("head") node, which is
 * part of the cycle but is not iterated over; an empty list is a sentinel
 * linked to itself.
 */
module Llist {
  import opened Wrappers

  /**
   * `p` is a chain of distinct nodes, each the `next` of the one before it
   * and the `prev` of the one after it.
   */
  ghost predicate IsPath(next: map<int, int>, prev: map<int, int>, p: seq<int>)
  {
    && |p| >= 1
    && (forall i, j :: 0 <= i < j < |p| ==> p[i] != p[j])
    && (forall i :: 0 <= i < |p| ==> p[i] in next && p[i] in prev)
    && (forall i :: 0 <= i < |p| - 1 ==> next[p[i]] == p[i + 1])
    && (forall i :: 0 <= i < |p| - 1 ==> prev[p[i + 1]] == p[i])
  }

  /** `r` is one whole cycle of the list, starting at `r[0]`. */
  ghost predicate IsRing(next: map<int, int>, prev: map<int, int>, r: seq<int>)
  {
    && IsPath(next, prev, r)
    && next[r[|r| - 1]] == r[0]
    && prev[r[0]] == r[|r| - 1]
  }

  /** The pointer cells agree: following `next` and then `prev` comes back. */
  ghost predicate Consistent(next: map<int, int>, prev: map<int, int>)
  {
    && next.Keys == prev.Keys
    && (forall n :: n in next ==> next[n] in prev && prev[next[n]] == n)
    && (forall n :: n in prev ==> prev[n] in next && next[prev[n]] == n)
  }

  /** A node linked only to itself: a list holding nothing but its sentinel. */
  predicate Isolated(next: map<int, int>, prev: map<int, int>, node: int)
  {
    node in next && node in prev && next[node] == node && prev[node] == node
  }

  /** Memory that holds list nodes. */
  class Links<T> {
    var next: map<int, int>
    var prev: map<int, int>
    var data: map<int, T>

    constructor ()
      ensures next == map[] && prev == map[] && data == map[]
    {
      next := map[];
      prev := map[];
      data := map[];
    }

    /** `new_llist`: writes at `node` a list holding only `node`. */
    method NewLlist(node: int, d: T)
      modifies this
      ensures next == old(next)[node := node]
      ensures prev == old(prev)[node := node]
      ensures data == old(data)[node := d]
      ensures Isolated(next, prev, node) && IsRing(next, prev, [node])
      ensures old(Consistent(next, prev)) && (node !in old(next) || old(Isolated(next, prev, node))) ==> Consistent(next, prev)
    {
      next := next[node := node];
      prev := prev[node := node];
      data := data[node := d];
    }

    /**
     * `new`: writes at `node` a node whose cells point at `p` and `n`, then
     * makes `n.prev` and, last, `p.next` point at it.
     */
    method New(node: int, p: int, n: int, d: T, ghost r: seq<int>)
      requires p in next && p in prev && n in next && n in prev
      modifies this
      ensures next == old(next)[node := n][p := node]
      ensures prev == old(prev)[node := p][n := node]
      ensures data == old(data)[node := d]
      ensures next[p] == node && prev[n] == node
      ensures node != p && node != n ==> next[node] == n && prev[node] == p
      ensures old(IsRing(next, prev, r)) && p == r[0] && n == old(next)[p] && node !in old(next) && node !in old(prev)
        ==> IsRing(next, prev, [p, node] + r[1..])
    {
      if IsRing(next, prev, r) && p == r[0] && n == next[p] && node !in next && node !in prev {
        InsertAfterRing(next, prev, r, node);
      }
      next := next[node := n];
      prev := prev[node := p];
      data := data[node := d];
      prev := prev[n := node];
      next := next[p := node];
    }

    /** `remove`: links the neighbours of `node` together and isolates it. */
    method Remove(node: int, ghost r: seq<int>, ghost i: int)
      requires node in next && node in prev
      modifies this
      ensures next == old(next)[old(prev)[node] := old(next)[node]][node := node]
      ensures prev == old(prev)[old(next)[node] := old(prev)[node]][node := node]
      ensures data == old(data)
      ensures Isolated(next, prev, node)
      ensures old(Isolated(next, prev, node)) ==> next == old(next) && prev == old(prev)
      ensures old(IsRing(next, prev, r)) && 1 <= i < |r| && r[i] == node ==> IsRing(next, prev, r[..i] + r[i + 1..])
    {
      if 1 <= i < |r| && r[i] == node && IsRing(next, prev, r) {
        RemoveRing(next, prev, r, i);
      }
      var p := prev[node];
      var n := next[node];
      next := next[p := n];
      prev := prev[n := p];
      prev := prev[node := node];
      next := next[node := node];
    }

    /**
     * `mov` as the source writes it: copies the node at `src` to `dst`,
     * points `dst`'s neighbours at `dst`, then isolates `src`. When `src` is
     * isolated, its neighbours are itself, so `dst` is left pointing at `src`.
     */
    method MovAsWritten(src: int, dst: int)
      requires src in next && src in prev && src in data
      modifies this
      ensures var n1 := old(next)[dst := old(next)[src]][old(prev)[src] := dst];
        next == n1[src := src] && prev == old(prev)[dst := old(prev)[src]][n1[dst] := dst][src := src]
      ensures data == old(data)[dst := old(data)[src]]
      ensures old(Isolated(next, prev, src)) && dst != src ==> next[dst] == src && prev[dst] == src
    {
      next := next[dst := next[src]];
      prev := prev[dst := prev[src]];
      data := data[dst := data[src]];
      next := next[prev[dst] := dst];
      prev := prev[next[dst] := dst];
      prev := prev[src := src];
      next := next[src := src];
    }

    /**
     * `mov` as its documentation describes it: `dst` takes `src`'s place in
     * its list and `src` is left isolated; an isolated `src` gives an
     * isolated `dst`.
     */
    method Mov(src: int, dst: int, ghost r: seq<int>, ghost i: int)
      requires src in next && src in prev && src in data
      modifies this
      ensures old(Isolated(next, prev, src)) ==>
        next == old(next)[dst := dst][src := src] && prev == old(prev)[dst := dst][src := src]
      ensures !old(Isolated(next, prev, src)) ==>
        var n1 := old(next)[dst := old(next)[src]][old(prev)[src] := dst];
        next == n1[src := src] && prev == old(prev)[dst := old(prev)[src]][n1[dst] := dst][src := src]
      ensures data == old(data)[dst := old(data)[src]]
      ensures dst != src ==> Isolated(next, prev, src)
      ensures old(IsRing(next, prev, r)) && 0 <= i < |r| && r[i] == src && dst !in old(next) && dst !in old(prev)
        ==> IsRing(next, prev, r[i := dst])
    {
      if 0 <= i < |r| && r[i] == src && dst !in next && dst !in prev && IsRing(next, prev, r) {
        MovRing(next, prev, r, i, dst);
      }
      if next[src] == src && prev[src] == src {
        next := next[dst := dst];
        prev := prev[dst := dst];
        data := data[dst := data[src]];
      } else {
        next := next[dst := next[src]];
        prev := prev[dst := prev[src]];
        data := data[dst := data[src]];
        next := next[prev[dst] := dst];
        prev := prev[next[dst] := dst];
      }
      prev := prev[src := src];
      next := next[src := src];
    }

    /**
     * `relink`: takes the chain `start..end` out of its list, closing the
     * gap, and inserts it between `p` and `n`.
     */
    method Relink(start: int, end: int, p: int, n: int, ghost a: seq<int>, ghost c: seq<int>, ghost q: seq<int>)
      requires start in prev && end in next
      modifies this
      ensures var sp := old(prev)[start]; var en := old(next)[end];
        next == old(next)[sp := en][end := n][p := start] &&
        prev == old(prev)[en := sp][start := p][n := end]
      ensures data == old(data)
      ensures old(RelinkSetting(next, prev, a, c, q)) && start == c[0] && end == c[|c| - 1] && p == q[0] && n == old(next)[q[0]]
        ==> IsRing(next, prev, a) && IsRing(next, prev, [q[0]] + c + q[1..])
    {
      if RelinkSetting(next, prev, a, c, q) && start == c[0] && end == c[|c| - 1] && p == q[0] && n == next[q[0]] {
        RelinkClosesGap(next, prev, a, c, q);
        RelinkSplicesChain(next, prev, a, c, q);
      }
      var sp := prev[start];
      var en := next[end];
      next := next[sp := en];
      prev := prev[en := sp];
      prev := prev[start := p];
      next := next[end := n];
      next := next[p := start];
      prev := prev[n := end];
    }
  }

  /** No node lies on both chains. */
  ghost predicate Disjoint(a: seq<int>, b: seq<int>)
  {
    forall i, j :: 0 <= i < |a| && 0 <= j < |b| ==> a[i] != b[j]
  }

  // ----- The list operations read as operations on the cycle -----

  /** Inserting after the sentinel `r[0]` puts the node first in the list. */
  lemma InsertAfterRing(next: map<int, int>, prev: map<int, int>, r: seq<int>, node: int)
    requires IsRing(next, prev, r) && node !in next && node !in prev
    ensures var s := r[0]; var n := next[s];
      IsRing(next[node := n][s := node], prev[node := s][n := node], [s, node] + r[1..])
  {
    var s := r[0];
    var n := next[s];
    var next' := next[node := n][s := node];
    var prev' := prev[node := s][n := node];
    var r' := [s, node] + r[1..];
    assert forall i :: 0 <= i < |r| ==> r[i] != node;
    assert n == if |r| == 1 then r[0] else r[1];
    forall i | 0 <= i < |r'| - 1
      ensures next'[r'[i]] == r'[i + 1] && prev'[r'[i + 1]] == r'[i]
    {
      if i >= 2 {
        assert n == r[1];
        assert r'[i] == r[i - 1] && r'[i + 1] == r[i];
        assert r[i - 1] != s && r[i] != n;
      } else if i == 1 && |r| >= 2 {
        assert r'[2] == r[1];
      }
    }
    if |r| >= 2 {
      assert n == r[1];
      assert r'[|r'| - 1] == r[|r| - 1];
      assert r[|r| - 1] != s && s != n;
    }
  }

  /** Removing the `i`th node (not the sentinel) drops it from the cycle. */
  lemma RemoveRing(next: map<int, int>, prev: map<int, int>, r: seq<int>, i: int)
    requires IsRing(next, prev, r) && 1 <= i < |r|
    ensures var x := r[i]; var p := prev[x]; var n := next[x];
      IsRing(next[p := n][x := x], prev[n := p][x := x], r[..i] + r[i + 1..])
  {
    var x := r[i];
    var p := prev[x];
    var n := next[x];
    assert p == r[i - 1];
    assert n == if i == |r| - 1 then r[0] else r[i + 1];
    var next' := next[p := n][x := x];
    var prev' := prev[n := p][x := x];
    var r' := r[..i] + r[i + 1..];
    assert forall k :: 0 <= k < |r'| ==> r'[k] == if k < i then r[k] else r[k + 1];
    forall k | 0 <= k < |r'| - 1
      ensures next'[r'[k]] == r'[k + 1] && prev'[r'[k + 1]] == r'[k]
    {
      if k < i - 1 {
        assert r[k] != p && r[k + 1] != n;
      } else if k == i - 1 {
      } else {
        assert r[k + 1] != p && r[k + 2] != n;
      }
    }
    assert r'[|r'| - 1] == if i == |r| - 1 then r[i - 1] else r[|r| - 1];
  }

  /** Moving a node of a cycle to a fresh address keeps the cycle, with the new address in its place. */
  lemma MovRing(next: map<int, int>, prev: map<int, int>, r: seq<int>, i: int, dst: int)
    requires IsRing(next, prev, r) && 0 <= i < |r| && dst !in next && dst !in prev
    ensures var src := r[i];
      if Isolated(next, prev, src) then
        IsRing(next[dst := dst][src := src], prev[dst := dst][src := src], r[i := dst])
      else
        IsRing(next[dst := next[src]][prev[src] := dst][src := src],
               prev[dst := prev[src]][next[src] := dst][src := src], r[i := dst])
  {
    var src := r[i];
    if |r| == 1 {
      assert r[i := dst] == [dst];
    } else {
      var p := prev[src];
      var n := next[src];
      assert p == if i == 0 then r[|r| - 1] else r[i - 1];
      assert n == if i == |r| - 1 then r[0] else r[i + 1];
      assert p != src && n != src;
      var next' := next[dst := n][p := dst][src := src];
      var prev' := prev[dst := p][n := dst][src := src];
      var r' := r[i := dst];
      forall k | 0 <= k < |r'| - 1
        ensures next'[r'[k]] == r'[k + 1] && prev'[r'[k + 1]] == r'[k]
      {
        if k + 1 == i {
        } else if k == i {
        } else {
          assert r[k] != p && r[k + 1] != n;
        }
      }
      if i == 0 {
      } else if i == |r| - 1 {
      } else {
        assert r[|r| - 1] != p && r[0] != n;
      }
    }
  }

  /** `mov` as written, on an isolated node, leaves the destination pointing at the source. */
  lemma MovAsWrittenKeepsSource()
    ensures var next := map[8 := 8]; var prev := map[8 := 8];
      var next' := next[16 := next[8]][prev[8] := 16][8 := 8];
      var prev' := prev[16 := prev[8]][next[8] := 16][8 := 8];
      IsRing(next, prev, [8]) && next'[16] == 8 && prev'[16] == 8 && !Isolated(next', prev', 16)
  {
    var next := map[8 := 8];
    var prev := map[8 := 8];
    assert IsPath(next, prev, [8]);
    var next' := next[16 := next[8]][prev[8] := 16][8 := 8];
    assert next'[16] == 8;
  }

  /**
   * The setting of `relink`: the chain `c` ends the cycle `a + c` (every
   * cycle can be written so), and `q` is another cycle.
   */
  ghost predicate RelinkSetting(next: map<int, int>, prev: map<int, int>, a: seq<int>, c: seq<int>, q: seq<int>)
  {
    IsRing(next, prev, a + c) && IsRing(next, prev, q) && |a| >= 1 && |c| >= 1 && Disjoint(a + c, q)
  }

  /** The links of a cycle `a + c`, piece by piece. */
  lemma RingPieces(next: map<int, int>, prev: map<int, int>, a: seq<int>, c: seq<int>)
    requires IsRing(next, prev, a + c) && |a| >= 1 && |c| >= 1
    ensures forall k :: 0 <= k < |a| ==> a[k] in next && a[k] in prev
    ensures forall k :: 0 <= k < |c| ==> c[k] in next && c[k] in prev
    ensures forall k :: 0 <= k < |a| - 1 ==> next[a[k]] == a[k + 1] && prev[a[k + 1]] == a[k]
    ensures forall k :: 0 <= k < |c| - 1 ==> next[c[k]] == c[k + 1] && prev[c[k + 1]] == c[k]
    ensures next[a[|a| - 1]] == c[0] && prev[c[0]] == a[|a| - 1]
    ensures next[c[|c| - 1]] == a[0] && prev[a[0]] == c[|c| - 1]
    ensures forall i, j :: 0 <= i < |a| && 0 <= j < |c| ==> a[i] != c[j]
    ensures forall i, j :: 0 <= i < j < |a| ==> a[i] != a[j]
    ensures forall i, j :: 0 <= i < j < |c| ==> c[i] != c[j]
  {
    var r := a + c;
    assert forall k :: 0 <= k < |a| ==> a[k] == r[k];
    assert forall k :: 0 <= k < |c| ==> c[k] == r[|a| + k];
    forall i, j | 0 <= i < |a| && 0 <= j < |c| ensures a[i] != c[j] {
      assert a[i] == r[i] && c[j] == r[|a| + j];
    }
  }

  /** `relink` closes the gap the chain leaves in its old cycle. */
  lemma RelinkClosesGap(next: map<int, int>, prev: map<int, int>, a: seq<int>, c: seq<int>, q: seq<int>)
    requires RelinkSetting(next, prev, a, c, q)
    requires c[0] in prev && c[|c| - 1] in next
    ensures var start := c[0]; var end := c[|c| - 1]; var p := q[0]; var n := next[q[0]];
      var sp := prev[start]; var en := next[end];
      IsRing(next[sp := en][end := n][p := start], prev[en := sp][start := p][n := end], a)
  {
    RingPieces(next, prev, a, c);
    var start := c[0];
    var end := c[|c| - 1];
    var p := q[0];
    var n := next[q[0]];
    var sp := prev[start];
    var en := next[end];
    assert n == if |q| == 1 then q[0] else q[1];
    assert forall k :: 0 <= k < |a| ==> a[k] != p && a[k] != n && a[k] != start && a[k] != end by {
      assert forall k :: 0 <= k < |a| ==> a[k] == (a + c)[k];
    }
  }

  /** `relink` puts the chain right after the head of the other cycle. */
  lemma RelinkSplicesChain(next: map<int, int>, prev: map<int, int>, a: seq<int>, c: seq<int>, q: seq<int>)
    requires RelinkSetting(next, prev, a, c, q)
    requires c[0] in prev && c[|c| - 1] in next
    ensures var start := c[0]; var end := c[|c| - 1]; var p := q[0]; var n := next[q[0]];
      var sp := prev[start]; var en := next[end];
      IsRing(next[sp := en][end := n][p := start], prev[en := sp][start := p][n := end], [q[0]] + c + q[1..])
  {
    RingPieces(next, prev, a, c);
    var start := c[0];
    var end := c[|c| - 1];
    var p := q[0];
    var n := next[q[0]];
    var sp := prev[start];
    var en := next[end];
    var next' := next[sp := en][end := n][p := start];
    var prev' := prev[en := sp][start := p][n := end];
    assert n == if |q| == 1 then q[0] else q[1];
    forall k, m | 0 <= k < |c| && 0 <= m < |q| ensures c[k] != q[m] {
      assert c[k] == (a + c)[|a| + k];
    }
    assert forall k :: 0 <= k < |q| ==> q[k] != sp && q[k] != en by {
      assert sp == (a + c)[|a| - 1] && en == (a + c)[0];
    }
    var r2 := [q[0]] + c + q[1..];
    forall k | 0 <= k < |r2| - 1
      ensures next'[r2[k]] == r2[k + 1] && prev'[r2[k + 1]] == r2[k]
    {
      if k == 0 {
      } else if k < |c| {
        assert r2[k] == c[k - 1] && r2[k + 1] == c[k];
      } else if k == |c| {
        assert r2[k] == end && r2[k + 1] == q[1] == n;
      } else {
        assert r2[k] == q[k - |c|] && r2[k + 1] == q[k - |c| + 1];
        assert q[k - |c|] != p && q[k - |c| + 1] != n;
      }
    }
    if |q| == 1 {
      assert r2[|r2| - 1] == end;
    } else {
      assert r2[|r2| - 1] == q[|q| - 1];
      assert q[|q| - 1] != p;
    }
    forall i, j | 0 <= i < j < |r2| ensures r2[i] != r2[j] {
      if 1 <= i <= |c| && j <= |c| {
        assert r2[i] == c[i - 1] && r2[j] == c[j - 1];
      } else if 1 <= i <= |c| {
        assert r2[i] == c[i - 1] && r2[j] == q[j - |c|];
      } else if i == 0 && j <= |c| {
        assert r2[j] == c[j - 1];
      } else if i == 0 {
        assert r2[j] == q[j - |c|];
      } else {
        assert r2[i] == q[i - |c|] && r2[j] == q[j - |c|];
      }
    }
  }

  /**
   * `prev == next` holds of a node of a cycle exactly when the cycle has at
   * most two nodes: for the sentinel, when the list holds at most one
   * block; for a member, when it is the only one.
   */
  lemma PrevIsNextIffShort(next: map<int, int>, prev: map<int, int>, r: seq<int>, i: int)
    requires IsRing(next, prev, r) && 0 <= i < |r|
    ensures prev[r[i]] == next[r[i]] <==> |r| <= 2
  {
    var p := if i == 0 then |r| - 1 else i - 1;
    var n := if i == |r| - 1 then 0 else i + 1;
    assert prev[r[i]] == r[p];
    assert next[r[i]] == r[n];
    if |r| > 2 {
      assert p != n;
    }
  }

  /** Any stretch of a cycle is a chain. */
  lemma RingSegment(next: map<int, int>, prev: map<int, int>, r: seq<int>, i: int, j: int)
    requires IsRing(next, prev, r) && 0 <= i <= j < |r|
    ensures IsPath(next, prev, r[i..j + 1])
  {
    var s := r[i..j + 1];
    assert forall k :: 0 <= k < |s| ==> s[k] == r[i + k];
  }

  // ----- Iteration -----

  /**
   * `IterMut`: a forward and a backward cursor and an `ongoing` flag; the
   * ghost `remaining` is what the iterator has yet to yield, from either end.
   */
  class IterMut {
    var forward: int
    var backward: int
    var ongoing: bool
    ghost var remaining: seq<int>

    ghost predicate Valid(next: map<int, int>, prev: map<int, int>)
      reads this
    {
      if ongoing then
        IsPath(next, prev, remaining) && remaining[0] == forward && remaining[|remaining| - 1] == backward
      else
        remaining == []
    }

    /** `IterMut::new(start, end)`, over the chain `path` from `start` to `end`. */
    constructor New(start: int, end: int, ghost next: map<int, int>, ghost prev: map<int, int>, ghost path: seq<int>)
      ensures forward == start && backward == end && ongoing && remaining == path
      ensures IsPath(next, prev, path) && path[0] == start && path[|path| - 1] == end ==> Valid(next, prev)
    {
      forward := start;
      backward := end;
      ongoing := true;
      remaining := path;
    }

    /**
     * `iter_mut(sentinel)`: from the sentinel's `next` to its `prev`. Over
     * the cycle `r` of the sentinel `r[0]` it yields the list `r[1..]`; over
     * an empty list, whose sentinel points at itself, it yields the sentinel.
     */
    constructor IterOf<T>(links: Links<T>, sentinel: int, ghost r: seq<int>)
      requires sentinel in links.next && sentinel in links.prev
      ensures forward == links.next[sentinel] && backward == links.prev[sentinel] && ongoing
      ensures IsRing(links.next, links.prev, r) && r[0] == sentinel ==>
        remaining == (if |r| == 1 then r else r[1..]) && Valid(links.next, links.prev)
    {
      forward := links.next[sentinel];
      backward := links.prev[sentinel];
      ongoing := true;
      if IsRing(links.next, links.prev, r) && r[0] == sentinel {
        if |r| == 1 {
          remaining := r;
        } else {
          RingSegment(links.next, links.prev, r, 1, |r| - 1);
          remaining := r[1..];
        }
      } else {
        remaining := [];
      }
    }

    /**
     * The iterator the comment on `iter_mut` describes, exclusive of the
     * sentinel: from the sentinel's `next` to its `prev`, and already ended
     * when the sentinel points at itself, so that an empty list yields
     * nothing and no list yields its sentinel.
     */
    constructor ListOf<T>(links: Links<T>, sentinel: int, ghost r: seq<int>)
      requires sentinel in links.next && sentinel in links.prev
      ensures forward == links.next[sentinel] && backward == links.prev[sentinel]
      ensures ongoing == (links.next[sentinel] != sentinel)
      ensures IsRing(links.next, links.prev, r) && r[0] == sentinel ==>
        remaining == r[1..] && sentinel !in remaining && Valid(links.next, links.prev)
    {
      forward := links.next[sentinel];
      backward := links.prev[sentinel];
      ongoing := links.next[sentinel] != sentinel;
      if IsRing(links.next, links.prev, r) && r[0] == sentinel {
        if |r| == 1 {
          remaining := [];
        } else {
          assert links.next[sentinel] == r[1] != r[0];
          RingSegment(links.next, links.prev, r, 1, |r| - 1);
          assert forall k :: 0 <= k < |r[1..]| ==> r[1..][k] == r[k + 1] != r[0];
          remaining := r[1..];
        }
      } else {
        remaining := [];
      }
    }

    /** `next`: yields the front of what remains. */
    method Next<T>(links: Links<T>) returns (r: Option<int>)
      requires Valid(links.next, links.prev)
      modifies this
      ensures old(ongoing) ==>
        r == Some(old(forward)) && forward == links.next[old(forward)] && backward == old(backward) &&
        ongoing == (old(forward) != old(backward))
      ensures !old(ongoing) ==> r == None && forward == old(forward) && backward == old(backward) && !ongoing
      ensures r == (if old(remaining) == [] then None else Some(old(remaining)[0]))
      ensures remaining == (if old(remaining) == [] then [] else old(remaining)[1..])
      ensures Valid(links.next, links.prev)
    {
      if ongoing {
        r := Some(forward);
        var rest := remaining[1..];
        if forward == backward {
          ongoing := false;
          assert |remaining| == 1;
        } else {
          assert rest[0] == remaining[1];
          assert forall k :: 0 <= k < |rest| ==> rest[k] == remaining[k + 1];
        }
        forward := links.next[forward];
        remaining := rest;
      } else {
        r := None;
      }
    }

    /** `next_back`: yields the back of what remains. */
    method NextBack<T>(links: Links<T>) returns (r: Option<int>)
      requires Valid(links.next, links.prev)
      modifies this
      ensures old(ongoing) ==>
        r == Some(old(backward)) && backward == links.prev[old(backward)] && forward == old(forward) &&
        ongoing == (old(forward) != old(backward))
      ensures !old(ongoing) ==> r == None && forward == old(forward) && backward == old(backward) && !ongoing
      ensures r == (if old(remaining) == [] then None else Some(old(remaining)[|old(remaining)| - 1]))
      ensures remaining == (if old(remaining) == [] then [] else old(remaining)[..|old(remaining)| - 1])
      ensures Valid(links.next, links.prev)
    {
      if ongoing {
        r := Some(backward);
        var rest := remaining[..|remaining| - 1];
        if forward == backward {
          ongoing := false;
          assert |remaining| == 1;
        } else {
          assert |remaining| >= 2;
          assert rest[|rest| - 1] == remaining[|remaining| - 2];
        }
        backward := links.prev[backward];
        remaining := rest;
      } else {
        r := None;
      }
    }
  }

  /** `iter_mut` as written over an empty list: the first item is the sentinel itself. */
  method EmptyIterAsWrittenYieldsSentinel<T>(links: Links<T>, sentinel: int) returns (first: Option<int>)
    requires Isolated(links.next, links.prev, sentinel)
    ensures first == Some(sentinel)
  {
    assert IsRing(links.next, links.prev, [sentinel]);
    var it := new IterMut.IterOf(links, sentinel, [sentinel]);
    first := it.Next(links);
  }

  /** The corrected iterator over an empty list yields nothing. */
  method EmptyListIterYieldsNothing<T>(links: Links<T>, sentinel: int) returns (first: Option<int>)
    requires Isolated(links.next, links.prev, sentinel)
    ensures first == None
  {
    assert IsRing(links.next, links.prev, [sentinel]);
    var it := new IterMut.ListOf(links, sentinel, [sentinel]);
    first := it.Next(links);
  }
}
