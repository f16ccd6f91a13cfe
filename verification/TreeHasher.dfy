/** The H10 match finder of the quality 10 and 11 encoder. Every hash bucket holds a binary
    search tree of positions, ordered by the 128 bytes that start there, which is also a
    max-heap on position. One walk searches the tree, re-roots it at the current position and
    skips the bytes that the tree order already proves equal. */
module TreeHasher {
  import opened Arithmetic

  const MAX_TREE_SEARCH_DEPTH := 64
  const MAX_TREE_COMP_LENGTH := 128

  // ---------- Common prefixes and the order on positions ----------

  predicate Same(d: seq<nat>, a: nat, b: nat, i: nat)
    requires a + i < |d| && b + i < |d|
  {
    d[a + i] == d[b + i]
  }

  /** The first n bytes at a and b are equal. */
  ghost predicate Agree(d: seq<nat>, a: nat, b: nat, n: nat)
    requires a + n <= |d| && b + n <= |d|
  {
    forall i :: 0 <= i < n ==> Same(d, a, b, i)
  }

  /** The common prefix at a and b ends after l bytes, or at the limit n. */
  ghost predicate EndsAt(d: seq<nat>, a: nat, b: nat, n: nat, l: nat)
    requires a + n <= |d| && b + n <= |d|
  {
    l <= n && Agree(d, a, b, l) && (l < n ==> d[a + l] != d[b + l])
  }

  /** Compares byte by byte up to a limit. */
  method MatchLenAt(d: seq<nat>, a: nat, b: nat, limit: nat) returns (l: nat)
    requires a + limit <= |d| && b + limit <= |d|
    ensures l == Lcp(d, a, b, limit)
  {
    l := 0;
    while l < limit && d[a + l] == d[b + l]
      invariant l <= limit && Agree(d, a, b, l)
    {
      l := l + 1;
    }
    LcpIs(d, a, b, limit, l);
  }

  lemma {:induction false} PrefixEnds(d: seq<nat>, a: nat, b: nat, n: nat, from: nat) returns (l: nat)
    requires a + n <= |d| && b + n <= |d| && from <= n && Agree(d, a, b, from)
    ensures EndsAt(d, a, b, n, l)
    decreases n - from
  {
    if from == n || d[a + from] != d[b + from] {
      l := from;
    } else {
      l := PrefixEnds(d, a, b, n, from + 1);
    }
  }

  /** Length of the longest common prefix at a and b, at most n. */
  ghost function Lcp(d: seq<nat>, a: nat, b: nat, n: nat): (l: nat)
    requires a + n <= |d| && b + n <= |d|
    ensures EndsAt(d, a, b, n, l)
  {
    assert exists l :: EndsAt(d, a, b, n, l) by {
      var l := PrefixEnds(d, a, b, n, 0);
    }
    var l :| EndsAt(d, a, b, n, l);
    l
  }

  /** The length with these properties is unique. */
  lemma LcpIs(d: seq<nat>, a: nat, b: nat, n: nat, l: nat)
    requires a + n <= |d| && b + n <= |d| && EndsAt(d, a, b, n, l)
    ensures Lcp(d, a, b, n) == l
  {
    var m := Lcp(d, a, b, n);
    assert m < l ==> Same(d, a, b, m);
    assert l < m ==> Same(d, a, b, l);
  }

  /** Resuming a comparison after skip equal bytes gives the same length. */
  lemma LcpSkip(d: seq<nat>, a: nat, b: nat, n: nat, skip: nat)
    requires a + n <= |d| && b + n <= |d| && skip <= n && Agree(d, a, b, skip)
    ensures skip + Lcp(d, a + skip, b + skip, n - skip) == Lcp(d, a, b, n)
  {
    var l := skip + Lcp(d, a + skip, b + skip, n - skip);
    forall i | 0 <= i < l ensures Same(d, a, b, i) {
      if i >= skip { assert Same(d, a + skip, b + skip, i - skip); }
    }
    LcpIs(d, a, b, n, l);
  }

  /** A longer limit only matters when the shorter one is reached. */
  lemma LcpLimits(d: seq<nat>, a: nat, b: nat, n: nat, m: nat)
    requires n <= m && a + m <= |d| && b + m <= |d|
    ensures Lcp(d, a, b, n) == if Lcp(d, a, b, m) < n then Lcp(d, a, b, m) else n
  {
    var l := Lcp(d, a, b, m);
    assert forall i :: 0 <= i < l ==> Same(d, a, b, i);
    LcpIs(d, a, b, n, if l < n then l else n);
  }

  lemma LcpSymmetric(d: seq<nat>, a: nat, b: nat, n: nat)
    requires a + n <= |d| && b + n <= |d|
    ensures Lcp(d, a, b, n) == Lcp(d, b, a, n)
  {
    var l := Lcp(d, a, b, n);
    forall i | 0 <= i < l ensures Same(d, b, a, i) { assert Same(d, a, b, i); }
    LcpIs(d, b, a, n, l);
  }

  /** Position p has the full comparison length of bytes. */
  predicate Full(d: seq<nat>, p: nat) { p + MAX_TREE_COMP_LENGTH <= |d| }

  /** The n bytes at a are lexicographically below those at b. */
  ghost predicate Below(d: seq<nat>, a: nat, b: nat, n: nat)
    requires a + n <= |d| && b + n <= |d|
  {
    var l := Lcp(d, a, b, n);
    l < n && d[a + l] < d[b + l]
  }

  /** The order of the trees: 128 bytes, strict. */
  ghost predicate Less(d: seq<nat>, a: nat, b: nat)
    requires Full(d, a) && Full(d, b)
  {
    Below(d, a, b, MAX_TREE_COMP_LENGTH)
  }

  lemma LcpTriangle(d: seq<nat>, a: nat, b: nat, c: nat, n: nat, l: nat)
    requires a + n <= |d| && b + n <= |d| && c + n <= |d| && l <= n
    requires Agree(d, a, b, l) && Agree(d, b, c, l)
    ensures Agree(d, a, c, l)
  {
    forall i | 0 <= i < l ensures Same(d, a, c, i) {
      assert Same(d, a, b, i) && Same(d, b, c, i);
    }
  }

  lemma AgreeShorter(d: seq<nat>, a: nat, b: nat, n: nat, l: nat)
    requires a + n <= |d| && b + n <= |d| && l <= n && Agree(d, a, b, n)
    ensures Agree(d, a, b, l) && Agree(d, b, a, l)
  {
    forall i | 0 <= i < l ensures Same(d, b, a, i) { assert Same(d, a, b, i); }
  }

  lemma BelowIs(d: seq<nat>, a: nat, b: nat, n: nat, l: nat)
    requires a + n <= |d| && b + n <= |d| && l < n
    requires Agree(d, a, b, l) && d[a + l] < d[b + l]
    ensures Below(d, a, b, n) && Lcp(d, a, b, n) == l
  {
    LcpIs(d, a, b, n, l);
  }

  /** Two comparisons in a row: the outer one is decided at the earlier of the two differences. */
  lemma BelowChain(d: seq<nat>, a: nat, b: nat, c: nat, x: nat, y: nat, n: nat)
    requires y < n || x < n
    requires a + n <= |d| && b + n <= |d| && c + n <= |d| && a + x < |d| && b + x < |d| && b + y < |d| && c + y < |d|
    requires Agree(d, a, b, x) && d[a + x] < d[b + x]
    requires Agree(d, b, c, y) && d[b + y] < d[c + y]
    ensures var l := if x < y then x else y; Below(d, a, c, n) && Lcp(d, a, c, n) == l
  {
    var l := if x < y then x else y;
    AgreeShorter(d, a, b, x, l);
    AgreeShorter(d, b, c, y, l);
    LcpTriangle(d, a, b, c, n, l);
    assert x < y ==> Same(d, b, c, x);
    assert y < x ==> Same(d, a, b, y);
    BelowIs(d, a, c, n, l);
  }

  /** Transitivity, where the outer comparison may use a shorter limit. */
  lemma BelowTransitive(d: seq<nat>, a: nat, b: nat, c: nat, n: nat, m: nat)
    requires n <= m && a + m <= |d| && b + m <= |d| && c + n <= |d|
    requires Below(d, a, b, m) && Below(d, b, c, n)
    ensures Below(d, a, c, n)
    ensures Lcp(d, a, c, n) <= Lcp(d, b, c, n)
  {
    BelowChain(d, a, b, c, Lcp(d, a, b, m), Lcp(d, b, c, n), n);
  }

  /** The mirror image of BelowTransitive. */
  lemma AboveTransitive(d: seq<nat>, a: nat, b: nat, c: nat, n: nat, m: nat)
    requires n <= m && a + n <= |d| && b + m <= |d| && c + m <= |d|
    requires Below(d, a, b, n) && Below(d, b, c, m)
    ensures Below(d, a, c, n)
    ensures Lcp(d, a, c, n) <= Lcp(d, a, b, n)
  {
    BelowChain(d, a, b, c, Lcp(d, a, b, n), Lcp(d, b, c, m), n);
  }

  // ---------- Trees of positions ----------

  datatype Tree = Leaf | Node(left: Tree, pos: nat, right: Tree)

  ghost function Pos(t: Tree): set<nat> {
    match t
    case Leaf => {}
    case Node(l, p, r) => Pos(l) + {p} + Pos(r)
  }

  ghost predicate AllFull(d: seq<nat>, s: set<nat>) { forall q :: q in s ==> Full(d, q) }

  /** Search-tree order on the 128 bytes at each position; equal keys never occur twice. */
  ghost predicate Bst(d: seq<nat>, t: Tree) {
    match t
    case Leaf => true
    case Node(l, p, r) =>
      && Full(d, p) && AllFull(d, Pos(l)) && AllFull(d, Pos(r))
      && (forall q :: q in Pos(l) ==> Less(d, q, p))
      && (forall q :: q in Pos(r) ==> Less(d, p, q))
      && Bst(d, l) && Bst(d, r)
  }

  /** Newer positions are ancestors of older ones. */
  ghost predicate Heap(t: Tree) {
    match t
    case Leaf => true
    case Node(l, p, r) =>
      && (forall q :: q in Pos(l) ==> q < p)
      && (forall q :: q in Pos(r) ==> q < p)
      && Heap(l) && Heap(r)
  }

  /** No position occurs twice. */
  ghost predicate Distinct(t: Tree) {
    match t
    case Leaf => true
    case Node(l, p, r) => p !in Pos(l) && p !in Pos(r) && Pos(l) !! Pos(r) && Distinct(l) && Distinct(r)
  }

  lemma LessAsymmetric(d: seq<nat>, a: nat, b: nat)
    requires Full(d, a) && Full(d, b) && Less(d, a, b)
    ensures !Less(d, b, a) && a != b
  {
    LcpSymmetric(d, a, b, MAX_TREE_COMP_LENGTH);
  }

  lemma {:induction false} BstIsDistinct(d: seq<nat>, t: Tree)
    requires Bst(d, t)
    ensures Distinct(t)
  {
    match t
    case Leaf =>
    case Node(l, p, r) =>
      BstIsDistinct(d, l);
      BstIsDistinct(d, r);
      forall q | q in Pos(l) ensures q != p && q !in Pos(r) {
        LessAsymmetric(d, q, p);
      }
      forall q | q in Pos(r) ensures q != p {
        LessAsymmetric(d, p, q);
      }
  }

  // ---------- The search: which way it goes and what it splits off ----------

  /** The walk for position c stops at a tree: it is empty, too old, or too deep. */
  ghost predicate StopsAt(t: Tree, c: nat, maxBackward: nat, depth: nat) {
    t.Leaf? || c > t.pos + maxBackward || depth == 0
  }

  /** Splits a tree around position c into the older positions whose bytes are below those at c
      and those above, following one path; subtrees that are too old or too deep are dropped, and
      a node with the same 128 bytes is replaced. */
  ghost function Split(d: seq<nat>, t: Tree, c: nat, maxBackward: nat, depth: nat): (Tree, Tree)
    requires Full(d, c) && AllFull(d, Pos(t))
    decreases t
  {
    if StopsAt(t, c, maxBackward, depth) then (Leaf, Leaf)
    else
      var len := Lcp(d, c, t.pos, MAX_TREE_COMP_LENGTH);
      if len == MAX_TREE_COMP_LENGTH then (t.left, t.right)
      else if d[c + len] > d[t.pos + len] then
        var (l, r) := Split(d, t.right, c, maxBackward, depth - 1);
        (Node(t.left, t.pos, l), r)
      else
        var (l, r) := Split(d, t.left, c, maxBackward, depth - 1);
        (l, Node(r, t.pos, t.right))
  }

  /** The tree re-rooted at c. */
  ghost function Inserted(d: seq<nat>, t: Tree, c: nat, maxBackward: nat): Tree
    requires Full(d, c) && AllFull(d, Pos(t))
  {
    var (l, r) := Split(d, t, c, maxBackward, MAX_TREE_SEARCH_DEPTH);
    Node(l, c, r)
  }

  /** At a node with other bytes than c, the search direction is the tree order. */
  lemma Direction(d: seq<nat>, c: nat, p: nat)
    requires Full(d, c) && Full(d, p)
    ensures var len := Lcp(d, c, p, MAX_TREE_COMP_LENGTH);
            len < MAX_TREE_COMP_LENGTH ==> if d[c + len] > d[p + len] then Less(d, p, c) else Less(d, c, p)
  {
    LcpSymmetric(d, c, p, MAX_TREE_COMP_LENGTH);
  }

  /** A node with the same 128 bytes has the same relations. */
  lemma SameKey(d: seq<nat>, c: nat, p: nat, q: nat)
    requires Full(d, c) && Full(d, p) && Full(d, q) && Lcp(d, c, p, MAX_TREE_COMP_LENGTH) == MAX_TREE_COMP_LENGTH
    ensures Less(d, q, p) ==> Less(d, q, c)
    ensures Less(d, p, q) ==> Less(d, c, q)
  {
    var n := MAX_TREE_COMP_LENGTH;
    AgreeShorter(d, c, p, n, n);
    if Less(d, q, p) {
      var l := Lcp(d, q, p, n);
      AgreeShorter(d, c, p, n, l);
      LcpTriangle(d, q, p, c, n, l);
      assert Same(d, c, p, l);
      BelowIs(d, q, c, n, l);
    }
    if Less(d, p, q) {
      var l := Lcp(d, p, q, n);
      AgreeShorter(d, c, p, n, l);
      LcpTriangle(d, c, p, q, n, l);
      assert Same(d, c, p, l);
      BelowIs(d, c, q, n, l);
    }
  }

  /** What one split keeps: order, heap and position sets. */
  ghost predicate GoodSplit(d: seq<nat>, t: Tree, c: nat, l: Tree, r: Tree)
    requires Full(d, c)
  {
    && Pos(l) <= Pos(t) && Pos(r) <= Pos(t)
    && AllFull(d, Pos(l)) && AllFull(d, Pos(r))
    && Bst(d, l) && Bst(d, r) && Heap(l) && Heap(r)
    && (forall q :: q in Pos(l) ==> Less(d, q, c))
    && (forall q :: q in Pos(r) ==> Less(d, c, q))
  }

  lemma LessTransitive(d: seq<nat>, a: nat, b: nat, c: nat)
    requires Full(d, a) && Full(d, b) && Full(d, c) && Less(d, a, b) && Less(d, b, c)
    ensures Less(d, a, c)
  {
    BelowTransitive(d, a, b, c, MAX_TREE_COMP_LENGTH, MAX_TREE_COMP_LENGTH);
  }

  lemma GoodFromRight(d: seq<nat>, t: Tree, c: nat, l: Tree, r: Tree)
    requires Full(d, c) && t.Node? && Bst(d, t) && Heap(t) && Less(d, t.pos, c)
    requires GoodSplit(d, t.right, c, l, r)
    ensures GoodSplit(d, t, c, Node(t.left, t.pos, l), r)
  {
    hide Less;
    assert Pos(Node(t.left, t.pos, l)) == Pos(t.left) + {t.pos} + Pos(l);
    forall q | q in Pos(t.left) ensures Less(d, q, c) {
      LessTransitive(d, q, t.pos, c);
    }
  }

  lemma GoodFromLeft(d: seq<nat>, t: Tree, c: nat, l: Tree, r: Tree)
    requires Full(d, c) && t.Node? && Bst(d, t) && Heap(t) && Less(d, c, t.pos)
    requires GoodSplit(d, t.left, c, l, r)
    ensures GoodSplit(d, t, c, l, Node(r, t.pos, t.right))
  {
    hide Less;
    assert Pos(Node(r, t.pos, t.right)) == Pos(r) + {t.pos} + Pos(t.right);
    forall q | q in Pos(t.right) ensures Less(d, c, q) {
      LessTransitive(d, c, t.pos, q);
    }
  }

  lemma {:induction false} SplitIsGood(d: seq<nat>, t: Tree, c: nat, maxBackward: nat, depth: nat)
    requires Full(d, c) && AllFull(d, Pos(t)) && Bst(d, t) && Heap(t)
    ensures var (l, r) := Split(d, t, c, maxBackward, depth); GoodSplit(d, t, c, l, r)
    decreases t
  {
    hide Less, Lcp;
    if !StopsAt(t, c, maxBackward, depth) {
      var len := Lcp(d, c, t.pos, MAX_TREE_COMP_LENGTH);
      Direction(d, c, t.pos);
      if len == MAX_TREE_COMP_LENGTH {
        forall q | q in Pos(t.left) ensures Less(d, q, c) { SameKey(d, c, t.pos, q); }
        forall q | q in Pos(t.right) ensures Less(d, c, q) { SameKey(d, c, t.pos, q); }
      } else if d[c + len] > d[t.pos + len] {
        var (l, r) := Split(d, t.right, c, maxBackward, depth - 1);
        SplitIsGood(d, t.right, c, maxBackward, depth - 1);
        GoodFromRight(d, t, c, l, r);
      } else {
        var (l, r) := Split(d, t.left, c, maxBackward, depth - 1);
        SplitIsGood(d, t.left, c, maxBackward, depth - 1);
        GoodFromLeft(d, t, c, l, r);
      }
    }
  }

  /** Re-rooting at a position newer than the whole tree keeps the search tree and the heap. */
  lemma InsertedIsSearchTreeAndHeap(d: seq<nat>, t: Tree, c: nat, maxBackward: nat)
    requires Full(d, c) && AllFull(d, Pos(t)) && Bst(d, t) && Heap(t)
    requires forall q :: q in Pos(t) ==> q < c
    ensures Bst(d, Inserted(d, t, c, maxBackward)) && Heap(Inserted(d, t, c, maxBackward))
    ensures Pos(Inserted(d, t, c, maxBackward)) <= Pos(t) + {c}
  {
    SplitIsGood(d, t, c, maxBackward, MAX_TREE_SEARCH_DEPTH);
  }

  // ---------- The forest array ----------

  const ADDRESSES: nat := 0x1_0000_0000
  const WORDS: nat := 0x1_0000_0000_0000_0000

  /** The sentinel of an empty subtree for window size w: the 32-bit value of 0 - (w - 1). */
  function Invalid(w: nat): nat requires 1 <= w <= ADDRESSES { ADDRESSES - (w - 1) }

  predicate WindowSize(w: nat) { 16 < w <= 0x100_0000 }

  /** Index of the left child pointer of position p; the right one follows it. */
  function Slot(w: nat, p: nat): (i: nat)
    requires w > 0
    ensures i + 1 < 2 * w
  {
    2 * (p % w)
  }

  /** Position p is still inside the window of the next position cur. */
  predicate Live(w: nat, cur: nat, p: nat) { p < cur < p + w }

  /** A pointer that stands for an empty subtree: the sentinel, or a position that left the window. */
  predicate Dead(w: nat, cur: nat, p: nat) requires WindowSize(w) { p == Invalid(w) || p + w <= cur }

  lemma MultiplesApart(w: nat, i: nat, j: nat)
    ensures i < j ==> w * i + w <= w * j
    ensures j < i ==> w * j + w <= w * i
  {
    if i < j { assert w * (i + 1) <= w * j; }
    if j < i { assert w * (j + 1) <= w * i; }
  }

  lemma SameResidue(w: nat, p: nat, q: nat, i: nat, j: nat, r: nat)
    requires p == w * i + r && q == w * j + r && p < q + w && q < p + w
    ensures p == q
  {
    MultiplesApart(w, i, j);
  }

  lemma Quotient(p: nat, w: nat) returns (i: nat, r: nat)
    requires w > 0
    ensures r == p % w && p == w * i + r
  {
    i, r := p / w, p % w;
  }

  lemma SlotsDiffer(w: nat, cur: nat, p: nat, q: nat)
    requires WindowSize(w) && cur < p + w && p <= cur && cur < q + w && q <= cur && p != q
    ensures p % w != q % w
  {
    if p % w == q % w {
      var i, r := Quotient(p, w);
      var j, s := Quotient(q, w);
      SameResidue(w, p, q, i, j, r);
    }
  }

  /** The forest holds tree t at pointer root, as far as the window reaches. */
  ghost predicate Repr(f: seq<nat>, w: nat, cur: nat, root: nat, t: Tree)
    requires WindowSize(w) && |f| == 2 * w
    decreases t
  {
    match t
    case Leaf => Dead(w, cur, root)
    case Node(l, p, r) =>
      && root == p && Live(w, cur, p)
      && Repr(f, w, cur, f[Slot(w, p)], l)
      && Repr(f, w, cur, f[Slot(w, p) + 1], r)
  }

  lemma {:induction false} ReprLive(f: seq<nat>, w: nat, cur: nat, root: nat, t: Tree)
    requires WindowSize(w) && |f| == 2 * w && Repr(f, w, cur, root, t)
    ensures forall q :: q in Pos(t) ==> Live(w, cur, q)
    decreases t
  {
    hide Slot;
    match t
    case Leaf =>
    case Node(l, p, r) =>
      ReprLive(f, w, cur, f[Slot(w, p)], l);
      ReprLive(f, w, cur, f[Slot(w, p) + 1], r);
  }

  /** Only the slots of the tree's own positions matter. */
  lemma {:induction false} ReprFrame(f: seq<nat>, g: seq<nat>, w: nat, cur: nat, root: nat, t: Tree)
    requires WindowSize(w) && |f| == |g| == 2 * w && Repr(f, w, cur, root, t)
    requires forall q :: q in Pos(t) ==> f[Slot(w, q)] == g[Slot(w, q)] && f[Slot(w, q) + 1] == g[Slot(w, q) + 1]
    ensures Repr(g, w, cur, root, t)
    decreases t
  {
    hide Slot;
    match t
    case Leaf =>
    case Node(l, p, r) =>
      assert p in Pos(t);
      ReprFrame(f, g, w, cur, f[Slot(w, p)], l);
      ReprFrame(f, g, w, cur, f[Slot(w, p) + 1], r);
  }

  // ---------- Pruning: the window moves on ----------

  ghost function Prune(t: Tree, w: nat, cur: nat): Tree {
    match t
    case Leaf => Leaf
    case Node(l, p, r) => if p + w <= cur then Leaf else Node(Prune(l, w, cur), p, Prune(r, w, cur))
  }

  lemma {:induction false} PruneRepr(f: seq<nat>, w: nat, cur: nat, later: nat, root: nat, t: Tree)
    requires WindowSize(w) && |f| == 2 * w && Repr(f, w, cur, root, t) && cur <= later
    ensures Repr(f, w, later, root, Prune(t, w, later))
    decreases t
  {
    hide Slot;
    match t
    case Leaf =>
    case Node(l, p, r) =>
      PruneRepr(f, w, cur, later, f[Slot(w, p)], l);
      PruneRepr(f, w, cur, later, f[Slot(w, p) + 1], r);
  }

  lemma {:induction false} PruneKeeps(d: seq<nat>, t: Tree, w: nat, cur: nat)
    ensures Pos(Prune(t, w, cur)) <= Pos(t)
    ensures Heap(t) ==> Heap(Prune(t, w, cur))
    ensures Bst(d, t) ==> Bst(d, Prune(t, w, cur))
    ensures Heap(t) ==> forall q :: q in Pos(t) && cur < q + w ==> q in Pos(Prune(t, w, cur))
  {
    hide Less;
    match t
    case Leaf =>
    case Node(l, p, r) =>
      PruneKeeps(d, l, w, cur);
      PruneKeeps(d, r, w, cur);
  }

  // ---------- The walk on the forest ----------

  /** Unsigned 64-bit c - p. */
  function Backward(c: nat, p: nat): nat
    requires c < WORDS && p < WORDS
  {
    if p <= c then c - p else WORDS + c - p
  }

  predicate StopsWalk(c: nat, prev: nat, maxBackward: nat, depth: nat)
    requires c < WORDS && prev < WORDS
  {
    Backward(c, prev) == 0 || Backward(c, prev) > maxBackward || depth == 0
  }

  ghost predicate Pointers(f: seq<nat>) { forall i :: 0 <= i < |f| ==> f[i] < ADDRESSES }

  /** What the walk makes of the forest: nodeLeft and nodeRight are the two child slots that are
      still to be filled. Every comparison here starts at the first byte. */
  ghost function Walk(d: seq<nat>, w: nat, f: seq<nat>, c: nat, maxBackward: nat,
                      nodeLeft: nat, nodeRight: nat, prev: nat, depth: nat): (g: seq<nat>)
    requires WindowSize(w) && |f| == 2 * w && Pointers(f) && maxBackward < w
    requires Full(d, c) && c < ADDRESSES && prev < ADDRESSES && nodeLeft < 2 * w && nodeRight < 2 * w
    ensures |g| == |f| && Pointers(g)
    decreases depth
  {
    if StopsWalk(c, prev, maxBackward, depth) then f[nodeLeft := Invalid(w)][nodeRight := Invalid(w)]
    else
      var len := Lcp(d, c, prev, MAX_TREE_COMP_LENGTH);
      if len == MAX_TREE_COMP_LENGTH then
        var g := f[nodeLeft := f[Slot(w, prev)]];
        g[nodeRight := g[Slot(w, prev) + 1]]
      else if d[c + len] > d[prev + len] then
        var g := f[nodeLeft := prev];
        Walk(d, w, g, c, maxBackward, Slot(w, prev) + 1, nodeRight, g[Slot(w, prev) + 1], depth - 1)
      else
        var g := f[nodeRight := prev];
        Walk(d, w, g, c, maxBackward, nodeLeft, Slot(w, prev), g[Slot(w, prev)], depth - 1)
  }

  /** On a represented tree the walk stops exactly where the split does. */
  lemma StopsAlike(f: seq<nat>, w: nat, c: nat, maxBackward: nat, prev: nat, t: Tree, depth: nat)
    requires WindowSize(w) && |f| == 2 * w && Repr(f, w, c, prev, t) && maxBackward < w
    requires c < Invalid(w) && prev < ADDRESSES
    ensures StopsWalk(c, prev, maxBackward, depth) <==> StopsAt(t, c, maxBackward, depth)
  {
  }

  /** Index i is not a slot of any position of the tree. */
  ghost predicate Outside(w: nat, t: Tree, i: nat) requires w > 0 {
    forall q :: q in Pos(t) ==> i != Slot(w, q) && i != Slot(w, q) + 1
  }

  /** The context in which the walk runs on tree t: both holes lie outside the tree. */
  ghost predicate Walkable(d: seq<nat>, w: nat, f: seq<nat>, c: nat, maxBackward: nat,
                           nodeLeft: nat, nodeRight: nat, prev: nat, t: Tree) {
    && WindowSize(w) && |f| == 2 * w && Pointers(f) && maxBackward < w
    && Full(d, c) && c < Invalid(w) && prev < ADDRESSES
    && nodeLeft < 2 * w && nodeRight < 2 * w && nodeLeft != nodeRight
    && Repr(f, w, c, prev, t) && AllFull(d, Pos(t)) && Distinct(t)
    && Outside(w, t, nodeLeft) && Outside(w, t, nodeRight)
  }

  /** What the walk leaves behind: the two halves of the split at the holes, and the rest untouched. */
  ghost predicate Walked(w: nat, f: seq<nat>, g: seq<nat>, c: nat, nodeLeft: nat, nodeRight: nat, t: Tree, l: Tree,
                         r: Tree)
    requires WindowSize(w) && |f| == |g| == 2 * w && nodeLeft < 2 * w && nodeRight < 2 * w
  {
    && Repr(g, w, c, g[nodeLeft], l)
    && Repr(g, w, c, g[nodeRight], r)
    && forall i :: 0 <= i < 2 * w && i != nodeLeft && i != nodeRight && Outside(w, t, i) ==> g[i] == f[i]
  }

  /** The slots of a node lie outside a tree of other live positions. */
  lemma SlotsOutside(w: nat, cur: nat, p: nat, t: Tree)
    requires WindowSize(w) && Live(w, cur, p) && p !in Pos(t) && forall q :: q in Pos(t) ==> Live(w, cur, q)
    ensures Outside(w, t, Slot(w, p)) && Outside(w, t, Slot(w, p) + 1)
  {
    forall q | q in Pos(t)
      ensures p % w != q % w
    {
      SlotsDiffer(w, cur, p, q);
    }
  }

  /** Facts about one node of a walkable tree that the recursion uses. */
  lemma WalkNode(d: seq<nat>, w: nat, f: seq<nat>, c: nat, maxBackward: nat, nodeLeft: nat, nodeRight: nat, prev: nat,
                 t: Tree)
    requires Walkable(d, w, f, c, maxBackward, nodeLeft, nodeRight, prev, t) && t.Node?
    ensures var left, right := Slot(w, t.pos), Slot(w, t.pos) + 1;
            && left != nodeLeft && left != nodeRight && right != nodeLeft && right != nodeRight
            && Outside(w, t.left, left) && Outside(w, t.right, left) && Outside(w, t.left, right)
               && Outside(w, t.right, right)
            && Outside(w, t.left, nodeLeft) && Outside(w, t.right, nodeLeft)
            && Outside(w, t.left, nodeRight) && Outside(w, t.right, nodeRight)
  {
    hide Slot;
    ReprLive(f, w, c, prev, t);
    assert t.pos in Pos(t);
    SlotsOutside(w, c, t.pos, t.left);
    SlotsOutside(w, c, t.pos, t.right);
  }

  /** A write outside a tree leaves it represented. */
  lemma ReprWrite(f: seq<nat>, w: nat, cur: nat, root: nat, t: Tree, i: nat, v: nat)
    requires WindowSize(w) && |f| == 2 * w && i < 2 * w && Repr(f, w, cur, root, t) && Outside(w, t, i)
    ensures Repr(f[i := v], w, cur, root, t)
  {
    hide Slot;
    ReprFrame(f, f[i := v], w, cur, root, t);
  }

  /** After the walk of the right subtree, the left subtree of the same node is untouched. */
  lemma ReprSibling(w: nat, f: seq<nat>, g: seq<nat>, c: nat, a: nat, b: nat, root: nat, sib: Tree, t: Tree)
    requires WindowSize(w) && |f| == |g| == 2 * w && Repr(f, w, c, root, sib)
    requires Pos(sib) !! Pos(t) && (forall q :: q in Pos(t) ==> Live(w, c, q))
    requires Outside(w, sib, a) && Outside(w, sib, b)
    requires forall i :: 0 <= i < 2 * w && i != a && i != b && Outside(w, t, i) ==> g[i] == f[i]
    ensures Repr(g, w, c, root, sib)
  {
    hide Slot;
    ReprLive(f, w, c, root, sib);
    forall q | q in Pos(sib)
      ensures f[Slot(w, q)] == g[Slot(w, q)] && f[Slot(w, q) + 1] == g[Slot(w, q) + 1]
    {
      SlotsOutside(w, c, q, t);
    }
    ReprFrame(f, g, w, c, root, sib);
  }

  /** The step to the right subtree: node t.pos is hung into the left hole. */
  lemma StepRight(d: seq<nat>, w: nat, f: seq<nat>, c: nat, maxBackward: nat, nodeLeft: nat, nodeRight: nat, prev: nat,
                  t: Tree)
    requires Walkable(d, w, f, c, maxBackward, nodeLeft, nodeRight, prev, t) && t.Node?
    ensures var g := f[nodeLeft := prev]; var hole := Slot(w, prev) + 1;
            Walkable(d, w, g, c, maxBackward, hole, nodeRight, g[hole], t.right)
              && Repr(g, w, c, g[Slot(w, prev)], t.left)
  {
    hide Slot;
    WalkNode(d, w, f, c, maxBackward, nodeLeft, nodeRight, prev, t);
    ReprWrite(f, w, c, f[Slot(w, prev) + 1], t.right, nodeLeft, prev);
    ReprWrite(f, w, c, f[Slot(w, prev)], t.left, nodeLeft, prev);
  }

  lemma StepLeft(d: seq<nat>, w: nat, f: seq<nat>, c: nat, maxBackward: nat, nodeLeft: nat, nodeRight: nat, prev: nat,
                 t: Tree)
    requires Walkable(d, w, f, c, maxBackward, nodeLeft, nodeRight, prev, t) && t.Node?
    ensures var g := f[nodeRight := prev]; var hole := Slot(w, prev);
            Walkable(d, w, g, c, maxBackward, nodeLeft, hole, g[hole], t.left)
              && Repr(g, w, c, g[Slot(w, prev) + 1], t.right)
  {
    hide Slot;
    WalkNode(d, w, f, c, maxBackward, nodeLeft, nodeRight, prev, t);
    ReprWrite(f, w, c, f[Slot(w, prev) + 1], t.right, nodeRight, prev);
    ReprWrite(f, w, c, f[Slot(w, prev)], t.left, nodeRight, prev);
  }

  /** Coming back from the right subtree. */
  lemma BackFromRight(d: seq<nat>, w: nat, f: seq<nat>, h: seq<nat>, c: nat, maxBackward: nat, nodeLeft: nat,
                      nodeRight: nat,
                      prev: nat, t: Tree, l: Tree, r: Tree)
    requires Walkable(d, w, f, c, maxBackward, nodeLeft, nodeRight, prev, t) && t.Node? && |h| == 2 * w
    requires Walked(w, f[nodeLeft := prev], h, c, Slot(w, prev) + 1, nodeRight, t.right, l, r)
    ensures Walked(w, f, h, c, nodeLeft, nodeRight, t, Node(t.left, t.pos, l), r)
  {
    hide Slot;
    var g := f[nodeLeft := prev];
    WalkNode(d, w, f, c, maxBackward, nodeLeft, nodeRight, prev, t);
    StepRight(d, w, f, c, maxBackward, nodeLeft, nodeRight, prev, t);
    ReprLive(f, w, c, prev, t);
    assert t.pos in Pos(t) && Outside(w, t.right, nodeLeft);
    assert h[nodeLeft] == prev;
    ReprSibling(w, g, h, c, Slot(w, prev) + 1, nodeRight, g[Slot(w, prev)], t.left, t.right);
    assert h[Slot(w, prev)] == g[Slot(w, prev)];
    forall i | 0 <= i < 2 * w && i != nodeLeft && i != nodeRight && Outside(w, t, i)
      ensures h[i] == f[i]
    {
      assert Outside(w, t.right, i) && i != Slot(w, prev) + 1;
    }
  }

  lemma BackFromLeft(d: seq<nat>, w: nat, f: seq<nat>, h: seq<nat>, c: nat, maxBackward: nat, nodeLeft: nat,
                     nodeRight: nat,
                     prev: nat, t: Tree, l: Tree, r: Tree)
    requires Walkable(d, w, f, c, maxBackward, nodeLeft, nodeRight, prev, t) && t.Node? && |h| == 2 * w
    requires Walked(w, f[nodeRight := prev], h, c, nodeLeft, Slot(w, prev), t.left, l, r)
    ensures Walked(w, f, h, c, nodeLeft, nodeRight, t, l, Node(r, t.pos, t.right))
  {
    hide Slot;
    var g := f[nodeRight := prev];
    WalkNode(d, w, f, c, maxBackward, nodeLeft, nodeRight, prev, t);
    StepLeft(d, w, f, c, maxBackward, nodeLeft, nodeRight, prev, t);
    ReprLive(f, w, c, prev, t);
    assert t.pos in Pos(t) && Outside(w, t.left, nodeRight);
    assert h[nodeRight] == prev;
    ReprSibling(w, g, h, c, nodeLeft, Slot(w, prev), g[Slot(w, prev) + 1], t.right, t.left);
    assert h[Slot(w, prev) + 1] == g[Slot(w, prev) + 1];
    forall i | 0 <= i < 2 * w && i != nodeLeft && i != nodeRight && Outside(w, t, i)
      ensures h[i] == f[i]
    {
      assert Outside(w, t.left, i) && i != Slot(w, prev);
    }
  }

  /** A node with the same 128 bytes hands its children to the holes. */
  lemma StealChildren(d: seq<nat>, w: nat, f: seq<nat>, c: nat, maxBackward: nat, nodeLeft: nat, nodeRight: nat,
                      prev: nat, t: Tree)
    requires Walkable(d, w, f, c, maxBackward, nodeLeft, nodeRight, prev, t) && t.Node?
    ensures var g := f[nodeLeft := f[Slot(w, prev)]]; var h := g[nodeRight := g[Slot(w, prev) + 1]];
            Walked(w, f, h, c, nodeLeft, nodeRight, t, t.left, t.right)
  {
    hide Slot;
    WalkNode(d, w, f, c, maxBackward, nodeLeft, nodeRight, prev, t);
    var g := f[nodeLeft := f[Slot(w, prev)]];
    var h := g[nodeRight := g[Slot(w, prev) + 1]];
    ReprWrite(f, w, c, f[Slot(w, prev)], t.left, nodeLeft, f[Slot(w, prev)]);
    ReprWrite(g, w, c, f[Slot(w, prev)], t.left, nodeRight, g[Slot(w, prev) + 1]);
    ReprWrite(f, w, c, f[Slot(w, prev) + 1], t.right, nodeLeft, f[Slot(w, prev)]);
    ReprWrite(g, w, c, f[Slot(w, prev) + 1], t.right, nodeRight, g[Slot(w, prev) + 1]);
  }

  /** Where the walk stops, both holes are closed with the sentinel. */
  lemma CloseHoles(d: seq<nat>, w: nat, f: seq<nat>, c: nat, maxBackward: nat, nodeLeft: nat, nodeRight: nat, prev: nat,
                   t: Tree)
    requires Walkable(d, w, f, c, maxBackward, nodeLeft, nodeRight, prev, t)
    ensures Walked(w, f, f[nodeLeft := Invalid(w)][nodeRight := Invalid(w)], c, nodeLeft, nodeRight, t, Leaf, Leaf)
  {
  }

  /** The pointer walk implements the split, in place. */
  lemma {:induction false} WalkRefinesSplit(d: seq<nat>, w: nat, f: seq<nat>, c: nat, maxBackward: nat,
                                            nodeLeft: nat, nodeRight: nat, prev: nat, t: Tree, depth: nat)
    requires Walkable(d, w, f, c, maxBackward, nodeLeft, nodeRight, prev, t)
    ensures var (l, r) := Split(d, t, c, maxBackward, depth);
            Walked(w, f, Walk(d, w, f, c, maxBackward, nodeLeft, nodeRight, prev, depth), c, nodeLeft, nodeRight, t, l,
                   r)
    decreases depth
  {
    hide Slot, Lcp, Distinct, Walked, Outside, Walk;
    StopsAlike(f, w, c, maxBackward, prev, t, depth);
    if StopsAt(t, c, maxBackward, depth) {
      WalkStop(d, w, f, c, maxBackward, nodeLeft, nodeRight, prev, depth);
      CloseHoles(d, w, f, c, maxBackward, nodeLeft, nodeRight, prev, t);
    } else {
      var len := Lcp(d, c, prev, MAX_TREE_COMP_LENGTH);
      WalkStep(d, w, f, c, maxBackward, nodeLeft, nodeRight, prev, depth);
      if len == MAX_TREE_COMP_LENGTH {
        StealChildren(d, w, f, c, maxBackward, nodeLeft, nodeRight, prev, t);
      } else if d[c + len] > d[prev + len] {
        var g := f[nodeLeft := prev];
        var hole := Slot(w, prev) + 1;
        StepRight(d, w, f, c, maxBackward, nodeLeft, nodeRight, prev, t);
        WalkRefinesSplit(d, w, g, c, maxBackward, hole, nodeRight, g[hole], t.right, depth - 1);
        var (l, r) := Split(d, t.right, c, maxBackward, depth - 1);
        BackFromRight(d, w, f, Walk(d, w, g, c, maxBackward, hole, nodeRight, g[hole], depth - 1),
                      c, maxBackward, nodeLeft, nodeRight, prev, t, l, r);
      } else {
        var g := f[nodeRight := prev];
        var hole := Slot(w, prev);
        StepLeft(d, w, f, c, maxBackward, nodeLeft, nodeRight, prev, t);
        WalkRefinesSplit(d, w, g, c, maxBackward, nodeLeft, hole, g[hole], t.left, depth - 1);
        var (l, r) := Split(d, t.left, c, maxBackward, depth - 1);
        BackFromLeft(d, w, f, Walk(d, w, g, c, maxBackward, nodeLeft, hole, g[hole], depth - 1),
                     c, maxBackward, nodeLeft, nodeRight, prev, t, l, r);
      }
    }
  }

  // ---------- Skipping bytes is sound ----------

  /** The last node the search left on one side, if any. */
  datatype Bound = Unbounded | At(pos: nat)

  /** The search for c went right at lo: everything in t is above lo, and lo shares len bytes with c. */
  ghost predicate LeftBound(d: seq<nat>, c: nat, limit: nat, t: Tree, lo: Bound, len: nat)
    requires c + limit <= |d| && limit <= MAX_TREE_COMP_LENGTH && AllFull(d, Pos(t))
  {
    match lo
    case Unbounded => len == 0
    case At(a) =>
      Full(d, a) && Below(d, a, c, limit) && len == Lcp(d, c, a, limit) && forall q :: q in Pos(t) ==> Less(d, a, q)
  }

  ghost predicate RightBound(d: seq<nat>, c: nat, limit: nat, t: Tree, hi: Bound, len: nat)
    requires c + limit <= |d| && limit <= MAX_TREE_COMP_LENGTH && AllFull(d, Pos(t))
  {
    match hi
    case Unbounded => len == 0
    case At(b) =>
      Full(d, b) && Below(d, c, b, limit) && len == Lcp(d, c, b, limit) && forall q :: q in Pos(t) ==> Less(d, q, b)
  }

  /** A position between two bounds shares with c the bytes that both bounds share with c. */
  lemma Sandwich(d: seq<nat>, c: nat, a: nat, x: nat, b: nat, limit: nat, m: nat)
    requires c + limit <= |d| && m <= limit <= MAX_TREE_COMP_LENGTH && Full(d, a) && Full(d, x) && Full(d, b)
    requires Agree(d, c, a, m) && Agree(d, c, b, m) && Less(d, a, x) && Less(d, x, b)
    ensures Agree(d, c, x, m)
  {
    var n := MAX_TREE_COMP_LENGTH;
    var l := Lcp(d, c, x, m);
    if l < m {
      AgreeShorter(d, c, a, m, l);
      AgreeShorter(d, c, b, m, l);
      AgreeShorter(d, c, x, l, l);
      LcpTriangle(d, x, c, a, limit, l);
      LcpTriangle(d, b, c, x, limit, l);
      assert Same(d, c, a, l) && Same(d, c, b, l);
      LessAsymmetric(d, a, x);
      LessAsymmetric(d, x, b);
      if d[x + l] < d[c + l] {
        BelowIs(d, x, a, n, l);
      } else {
        BelowIs(d, b, x, n, l);
      }
    }
  }

  /** Hence the first min(bestLenLeft, bestLenRight) bytes need no comparison. */
  lemma SkipIsSound(d: seq<nat>, c: nat, limit: nat, t: Tree, lo: Bound, hi: Bound, bestLenLeft: nat, bestLenRight: nat,
                    x: nat)
    requires c + limit <= |d| && limit <= MAX_TREE_COMP_LENGTH && AllFull(d, Pos(t)) && x in Pos(t)
    requires LeftBound(d, c, limit, t, lo, bestLenLeft) && RightBound(d, c, limit, t, hi, bestLenRight)
    ensures Min(bestLenLeft, bestLenRight) < limit || limit == 0
    ensures Agree(d, c, x, Min(bestLenLeft, bestLenRight))
  {
    var m := Min(bestLenLeft, bestLenRight);
    if m > 0 {
      LcpSymmetric(d, c, lo.pos, limit);
      AgreeShorter(d, c, lo.pos, bestLenLeft, m);
      AgreeShorter(d, c, hi.pos, bestLenRight, m);
      Sandwich(d, c, lo.pos, x, hi.pos, limit, m);
    }
  }

  // ---------- What the search visits and reports ----------

  datatype Match = Match(distance: nat, length: nat)

  /** The nodes on the search path for c, when limit bytes at c take part in the order. */
  ghost function Visits(d: seq<nat>, t: Tree, c: nat, limit: nat, maxBackward: nat, depth: nat): seq<nat>
    requires c + limit <= |d| && limit <= MAX_TREE_COMP_LENGTH && AllFull(d, Pos(t))
    decreases t
  {
    if StopsAt(t, c, maxBackward, depth) then []
    else
      var len := Lcp(d, c, t.pos, limit);
      if len == limit then [t.pos]
      else if d[c + len] > d[t.pos + len] then [t.pos] + Visits(d, t.right, c, limit, maxBackward, depth - 1)
      else [t.pos] + Visits(d, t.left, c, limit, maxBackward, depth - 1)
  }

  /** The matches reported along a path: each one longer than everything before it. */
  ghost function Collect(d: seq<nat>, c: nat, path: seq<nat>, maxLength: nat, bestLen: nat): seq<Match>
    requires c + maxLength <= |d| && forall i :: 0 <= i < |path| ==> path[i] < c
    decreases |path|
  {
    if path == [] then []
    else
      var len := Lcp(d, c, path[0], maxLength);
      if len > bestLen then [Match(c - path[0], len)] + Collect(d, c, path[1..], maxLength, len)
      else Collect(d, c, path[1..], maxLength, bestLen)
  }

  /** Best length after a path. */
  ghost function BestLen(d: seq<nat>, c: nat, path: seq<nat>, maxLength: nat, bestLen: nat): nat
    requires c + maxLength <= |d| && forall i :: 0 <= i < |path| ==> path[i] < c
    decreases |path|
  {
    if path == [] then bestLen
    else
      var len := Lcp(d, c, path[0], maxLength);
      BestLen(d, c, path[1..], maxLength, if len > bestLen then len else bestLen)
  }

  ghost predicate Decreasing(path: seq<nat>) { forall i, j :: 0 <= i < j < |path| ==> path[j] < path[i] }

  ghost predicate PathIn(path: seq<nat>, t: Tree, c: nat, maxBackward: nat) {
    forall i :: 0 <= i < |path| ==> path[i] in Pos(t) && c <= path[i] + maxBackward
  }

  lemma {:induction false} VisitsInTree(d: seq<nat>, t: Tree, c: nat, limit: nat, maxBackward: nat, depth: nat)
    requires c + limit <= |d| && limit <= MAX_TREE_COMP_LENGTH && AllFull(d, Pos(t))
    ensures PathIn(Visits(d, t, c, limit, maxBackward, depth), t, c, maxBackward)
    decreases t
  {
    if !StopsAt(t, c, maxBackward, depth) {
      var len := Lcp(d, c, t.pos, limit);
      if len < limit {
        var s := if d[c + len] > d[t.pos + len] then t.right else t.left;
        VisitsInTree(d, s, c, limit, maxBackward, depth - 1);
        var v, u := Visits(d, t, c, limit, maxBackward, depth), Visits(d, s, c, limit, maxBackward, depth - 1);
        assert v == [t.pos] + u && Pos(s) <= Pos(t);
        forall i | 0 <= i < |v|
          ensures v[i] in Pos(t) && c <= v[i] + maxBackward
        {
          assert i > 0 ==> v[i] == u[i - 1];
        }
      }
    }
  }

  /** By the heap property the path runs from newer to older positions. */
  lemma {:induction false} VisitsDecrease(d: seq<nat>, t: Tree, c: nat, limit: nat, maxBackward: nat, depth: nat)
    requires c + limit <= |d| && limit <= MAX_TREE_COMP_LENGTH && AllFull(d, Pos(t)) && Heap(t)
    ensures Decreasing(Visits(d, t, c, limit, maxBackward, depth))
    decreases t
  {
    hide Lcp;
    if !StopsAt(t, c, maxBackward, depth) {
      var len := Lcp(d, c, t.pos, limit);
      if len < limit {
        var s := if d[c + len] > d[t.pos + len] then t.right else t.left;
        VisitsDecrease(d, s, c, limit, maxBackward, depth - 1);
        VisitsInTree(d, s, c, limit, maxBackward, depth - 1);
      }
    }
  }

  /** Every reported match is a true and maximal common prefix with an in-window position. */
  ghost predicate TrueMatch(d: seq<nat>, c: nat, m: Match, maxLength: nat, maxBackward: nat)
    requires c + maxLength <= |d|
  {
    1 <= m.distance <= c && m.distance <= maxBackward && m.length == Lcp(d, c, c - m.distance, maxLength)
  }

  /** All matches are true, longer than bestLen, and strictly increase in length and distance. */
  ghost predicate TrueMatches(d: seq<nat>, c: nat, ms: seq<Match>, maxLength: nat, maxBackward: nat, bestLen: nat)
    requires c + maxLength <= |d|
  {
    && (forall i :: 0 <= i < |ms| ==> TrueMatch(d, c, ms[i], maxLength, maxBackward) && ms[i].length > bestLen)
    && (forall i, j :: 0 <= i < j < |ms| ==> ms[i].length < ms[j].length && ms[i].distance < ms[j].distance)
  }

  ghost predicate Beyond(ms: seq<Match>, distance: nat) { forall i :: 0 <= i < |ms| ==> distance <= ms[i].distance }

  lemma {:induction false} CollectIsTrue(d: seq<nat>, c: nat, path: seq<nat>, maxLength: nat, bestLen: nat,
                                         maxBackward: nat)
    requires c + maxLength <= |d| && forall i :: 0 <= i < |path| ==> path[i] < c && c <= path[i] + maxBackward
    requires Decreasing(path)
    ensures TrueMatches(d, c, Collect(d, c, path, maxLength, bestLen), maxLength, maxBackward, bestLen)
    ensures path != [] ==> Beyond(Collect(d, c, path, maxLength, bestLen), c - path[0])
    decreases |path|
  {
    if path != [] {
      var len := Lcp(d, c, path[0], maxLength);
      var best := if len > bestLen then len else bestLen;
      var rest := path[1..];
      CollectIsTrue(d, c, rest, maxLength, best, maxBackward);
      var tail := Collect(d, c, rest, maxLength, best);
      CollectStep(d, c, path, maxLength, bestLen);
      assert Beyond(tail, c - path[0] + 1) by { assert rest != [] ==> rest[0] < path[0]; }
      if len > bestLen {
        PrependMatch(d, c, Match(c - path[0], len), tail, maxLength, maxBackward, bestLen);
      }
    }
  }

  lemma PrependMatch(d: seq<nat>, c: nat, m: Match, tail: seq<Match>, maxLength: nat, maxBackward: nat, bestLen: nat)
    requires c + maxLength <= |d| && TrueMatch(d, c, m, maxLength, maxBackward) && m.length > bestLen
    requires TrueMatches(d, c, tail, maxLength, maxBackward, m.length) && Beyond(tail, m.distance + 1)
    ensures TrueMatches(d, c, [m] + tail, maxLength, maxBackward, bestLen) && Beyond([m] + tail, m.distance)
  {
    hide TrueMatch;
  }

  /** Position q is no better than something reported, or than what was known before. */
  ghost predicate Dominated(ms: seq<Match>, bestLen: nat, distance: nat, length: nat) {
    length <= bestLen || exists i :: 0 <= i < |ms| && ms[i].length >= length && ms[i].distance <= distance
  }

  lemma {:induction false} CollectCovers(d: seq<nat>, c: nat, path: seq<nat>, maxLength: nat, bestLen: nat, k: nat)
    requires c + maxLength <= |d| && forall i :: 0 <= i < |path| ==> path[i] < c
    requires Decreasing(path) && k < |path|
    ensures Dominated(Collect(d, c, path, maxLength, bestLen), bestLen, c - path[k], Lcp(d, c, path[k], maxLength))
    decreases |path|
  {
    hide Lcp;
    var len := Lcp(d, c, path[0], maxLength);
    var best := if len > bestLen then len else bestLen;
    var rest := Collect(d, c, path[1..], maxLength, best);
    var all := Collect(d, c, path, maxLength, bestLen);
    if k == 0 {
      assert len > bestLen ==> all[0] == Match(c - path[0], len);
    } else {
      CollectCovers(d, c, path[1..], maxLength, best, k - 1);
      var length := Lcp(d, c, path[k], maxLength);
      if length > best {
        var i :| 0 <= i < |rest| && rest[i].length >= length && rest[i].distance <= c - path[k];
        assert len > bestLen ==> all[i + 1] == rest[i];
      } else if length > bestLen {
        assert all[0] == Match(c - path[0], len);
      }
    }
  }

  ghost function Height(t: Tree): nat {
    match t
    case Leaf => 0
    case Node(l, _, r) => 1 + if Height(l) <= Height(r) then Height(r) else Height(l)
  }

  /** The walk for c ends, at a leaf, at a position outside the window or at a full match, before it has
      used up its depth. */
  ghost predicate Uncut(d: seq<nat>, t: Tree, c: nat, limit: nat, maxBackward: nat, depth: nat)
    requires c + limit <= |d|
    decreases t
  {
    t.Leaf? || c > t.pos + maxBackward ||
    (depth > 0 && t.pos + limit <= |d| &&
     var len := Lcp(d, c, t.pos, limit);
     len == limit
       || Uncut(d, if d[c + len] > d[t.pos + len] then t.right else t.left, c, limit, maxBackward, depth - 1))
  }

  /** A tree that is not higher than the depth never cuts a walk. */
  lemma {:induction false} ShallowIsUncut(d: seq<nat>, t: Tree, c: nat, limit: nat, maxBackward: nat, depth: nat)
    requires c + limit <= |d| && limit <= MAX_TREE_COMP_LENGTH && AllFull(d, Pos(t)) && Height(t) <= depth
    ensures Uncut(d, t, c, limit, maxBackward, depth)
    decreases t
  {
    hide Lcp;
    if t.Node? {
      ShallowIsUncut(d, t.left, c, limit, maxBackward, depth - 1);
      ShallowIsUncut(d, t.right, c, limit, maxBackward, depth - 1);
      assert t.pos in Pos(t);
    }
  }

  /** Every in-window position of a search tree shares no more bytes with c than some newer or equal
      position on the search path does. */
  lemma {:induction false} PathDominates(d: seq<nat>, t: Tree, c: nat, limit: nat, maxBackward: nat, depth: nat, q: nat)
    returns (k: nat)
    requires c + limit <= |d| && limit <= MAX_TREE_COMP_LENGTH && AllFull(d, Pos(t)) && Bst(d, t) && Heap(t)
    requires Uncut(d, t, c, limit, maxBackward, depth) && q in Pos(t) && c <= q + maxBackward
    ensures var v := Visits(d, t, c, limit, maxBackward, depth);
            k < |v| && q <= v[k] && v[k] in Pos(t) && Lcp(d, c, q, limit) <= Lcp(d, c, v[k], limit)
    decreases t
  {
    hide Lcp, Less, Visits;
    var v := Visits(d, t, c, limit, maxBackward, depth);
    var p := t.pos;
    assert q <= p;
    VisitsStep(d, t, c, limit, maxBackward, depth);
    var len := Lcp(d, c, p, limit);
    k := 0;
    if len < limit && q != p {
      var right := d[c + len] > d[p + len];
      var s := if right then t.right else t.left;
      if q in Pos(s) {
        k := PathDominates(d, s, c, limit, maxBackward, depth - 1, q);
        k := k + 1;
      } else {
        OffPath(d, c, p, q, limit, right);
      }
    }
  }

  /** A position on the other side of a path node shares no more bytes with c than the node. */
  lemma OffPath(d: seq<nat>, c: nat, p: nat, q: nat, limit: nat, right: bool)
    requires c + limit <= |d| && limit <= MAX_TREE_COMP_LENGTH && Full(d, p) && Full(d, q)
    requires var len := Lcp(d, c, p, limit); len < limit && right == (d[c + len] > d[p + len])
    requires if right then Less(d, q, p) else Less(d, p, q)
    ensures Lcp(d, c, q, limit) <= Lcp(d, c, p, limit)
  {
    LcpSymmetric(d, c, p, limit);
    LcpSymmetric(d, c, q, limit);
    if right {
      BelowTransitive(d, q, p, c, limit, MAX_TREE_COMP_LENGTH);
    } else {
      AboveTransitive(d, c, p, q, limit, MAX_TREE_COMP_LENGTH);
    }
  }

  /** The search reports the Pareto front of the bucket: no in-window position of the tree has both a
      smaller distance and a longer common prefix (counted up to limit bytes) than the matches. */
  lemma SearchIsComplete(d: seq<nat>, t: Tree, c: nat, limit: nat, maxLength: nat, maxBackward: nat, bestLen: nat,
                         q: nat)
    requires limit <= maxLength && c + maxLength <= |d| && limit <= MAX_TREE_COMP_LENGTH
    requires AllFull(d, Pos(t)) && Bst(d, t) && Heap(t) && (forall p :: p in Pos(t) ==> p < c)
    requires Uncut(d, t, c, limit, maxBackward, MAX_TREE_SEARCH_DEPTH) && q in Pos(t) && c <= q + maxBackward
    ensures var v := Visits(d, t, c, limit, maxBackward, MAX_TREE_SEARCH_DEPTH);
            && (forall i :: 0 <= i < |v| ==> v[i] < c)
            && Dominated(Collect(d, c, v, maxLength, bestLen), bestLen, c - q, Lcp(d, c, q, limit))
  {
    hide Lcp;
    var v := Visits(d, t, c, limit, maxBackward, MAX_TREE_SEARCH_DEPTH);
    VisitsInTree(d, t, c, limit, maxBackward, MAX_TREE_SEARCH_DEPTH);
    VisitsDecrease(d, t, c, limit, maxBackward, MAX_TREE_SEARCH_DEPTH);
    var k := PathDominates(d, t, c, limit, maxBackward, MAX_TREE_SEARCH_DEPTH, q);
    CollectCovers(d, c, v, maxLength, bestLen, k);
    LcpLimits(d, c, v[k], limit, maxLength);
  }

  // ---------- The loops of the three walks ----------

  /** The state of a search in tree t: the bounds it has passed and their common prefixes with c. */
  ghost predicate Searching(d: seq<nat>, c: nat, limit: nat, t: Tree, lo: Bound, hi: Bound, bestLenLeft: nat,
                            bestLenRight: nat) {
    && limit <= MAX_TREE_COMP_LENGTH && c + limit <= |d| && AllFull(d, Pos(t)) && Bst(d, t)
    && LeftBound(d, c, limit, t, lo, bestLenLeft) && RightBound(d, c, limit, t, hi, bestLenRight)
  }

  /** Comparing from the skipped prefix on gives the true common prefix, for any longer length limit. */
  lemma SkippedCompare(d: seq<nat>, c: nat, limit: nat, t: Tree, lo: Bound, hi: Bound, bestLenLeft: nat,
                       bestLenRight: nat, maxLength: nat)
    requires Searching(d, c, limit, t, lo, hi, bestLenLeft, bestLenRight) && t.Node? && t.pos < c
    requires limit <= maxLength && c + maxLength <= |d|
    ensures var curLen := Min(bestLenLeft, bestLenRight);
            && curLen <= limit
            && curLen + Lcp(d, c + curLen, t.pos + curLen, maxLength - curLen) == Lcp(d, c, t.pos, maxLength)
            && Lcp(d, c, t.pos, limit) == Min(Lcp(d, c, t.pos, maxLength), limit)
  {
    hide Bst, Less, LeftBound, RightBound;
    var curLen := Min(bestLenLeft, bestLenRight);
    assert t.pos in Pos(t);
    SkipIsSound(d, c, limit, t, lo, hi, bestLenLeft, bestLenRight, t.pos);
    BoundsWithin(d, c, limit, t, lo, hi, bestLenLeft, bestLenRight);
    LcpSkip(d, c, t.pos, maxLength, curLen);
    LcpLimits(d, c, t.pos, limit, maxLength);
  }

  lemma BoundsWithin(d: seq<nat>, c: nat, limit: nat, t: Tree, lo: Bound, hi: Bound, bestLenLeft: nat,
                     bestLenRight: nat)
    requires Searching(d, c, limit, t, lo, hi, bestLenLeft, bestLenRight)
    ensures bestLenLeft <= limit && bestLenRight <= limit
  {
  }

  lemma SearchRight(d: seq<nat>, c: nat, limit: nat, t: Tree, lo: Bound, hi: Bound, bestLenLeft: nat, bestLenRight: nat)
    requires Searching(d, c, limit, t, lo, hi, bestLenLeft, bestLenRight) && t.Node?
    requires var len := Lcp(d, c, t.pos, limit); len < limit && d[c + len] > d[t.pos + len]
    ensures Searching(d, c, limit, t.right, At(t.pos), hi, Lcp(d, c, t.pos, limit), bestLenRight)
  {
    hide Less;
    LcpSymmetric(d, c, t.pos, limit);
    assert Pos(t.right) <= Pos(t);
  }

  lemma SearchLeft(d: seq<nat>, c: nat, limit: nat, t: Tree, lo: Bound, hi: Bound, bestLenLeft: nat, bestLenRight: nat)
    requires Searching(d, c, limit, t, lo, hi, bestLenLeft, bestLenRight) && t.Node?
    requires var len := Lcp(d, c, t.pos, limit); len < limit && d[c + len] <= d[t.pos + len]
    ensures Searching(d, c, limit, t.left, lo, At(t.pos), bestLenLeft, Lcp(d, c, t.pos, limit))
  {
    hide Less;
    LcpSymmetric(d, c, t.pos, limit);
    assert Pos(t.left) <= Pos(t);
  }

  /** One node of the walk. */
  lemma WalkStep(d: seq<nat>, w: nat, f: seq<nat>, c: nat, maxBackward: nat, nodeLeft: nat, nodeRight: nat, prev: nat,
                 depth: nat)
    requires WindowSize(w) && |f| == 2 * w && Pointers(f) && maxBackward < w
    requires Full(d, c) && c < ADDRESSES && prev < ADDRESSES && nodeLeft < 2 * w && nodeRight < 2 * w
    requires !StopsWalk(c, prev, maxBackward, depth)
    ensures var len := Lcp(d, c, prev, MAX_TREE_COMP_LENGTH);
            Walk(d, w, f, c, maxBackward, nodeLeft, nodeRight, prev, depth) ==
            if len == MAX_TREE_COMP_LENGTH then
              f[nodeLeft := f[Slot(w, prev)]][nodeRight := f[nodeLeft := f[Slot(w, prev)]][Slot(w, prev) + 1]]
            else if d[c + len] > d[prev + len] then
              Walk(d, w, f[nodeLeft := prev], c, maxBackward, Slot(w, prev) + 1, nodeRight,
                   f[nodeLeft := prev][Slot(w, prev) + 1], depth - 1)
            else
              Walk(d, w, f[nodeRight := prev], c, maxBackward, nodeLeft, Slot(w, prev),
                   f[nodeRight := prev][Slot(w, prev)], depth - 1)
  {
    hide Slot, Lcp;
  }

  lemma WalkStop(d: seq<nat>, w: nat, f: seq<nat>, c: nat, maxBackward: nat, nodeLeft: nat, nodeRight: nat, prev: nat,
                 depth: nat)
    requires WindowSize(w) && |f| == 2 * w && Pointers(f) && maxBackward < w
    requires Full(d, c) && c < ADDRESSES && prev < ADDRESSES && nodeLeft < 2 * w && nodeRight < 2 * w
    requires StopsWalk(c, prev, maxBackward, depth)
    ensures Walk(d, w, f, c, maxBackward, nodeLeft, nodeRight, prev, depth) ==
            f[nodeLeft := Invalid(w)][nodeRight := Invalid(w)]
  {
  }

  /** The loop of storeOnly. */
  method RerootOnly(d: seq<nat>, w: nat, forest: array<nat>, c: nat, maxBackward: nat, root: nat, ghost tree: Tree)
    requires w > 0 && Walkable(d, w, forest[..], c, maxBackward, Slot(w, c), Slot(w, c) + 1, root, tree) && Bst(d, tree)
    modifies forest
    ensures forest[..] ==
            Walk(d, w, old(forest[..]), c, maxBackward, Slot(w, c), Slot(w, c) + 1, root, MAX_TREE_SEARCH_DEPTH)
  {
    hide Bst, Less, LeftBound, RightBound, Repr, Slot, Outside, Distinct, Lcp, Walk;
    var nodeLeft: nat, nodeRight: nat := Slot(w, c), Slot(w, c) + 1;
    var prev: nat, depth: nat := root, MAX_TREE_SEARCH_DEPTH;
    var bestLenLeft: nat, bestLenRight: nat := 0, 0;
    ghost var t, lo, hi := tree, Unbounded, Unbounded;
    ghost var goal := Walk(d, w, forest[..], c, maxBackward, nodeLeft, nodeRight, prev, depth);
    StartSearch(d, c, MAX_TREE_COMP_LENGTH, t);
    while true
      invariant Walkable(d, w, forest[..], c, maxBackward, nodeLeft, nodeRight, prev, t)
      invariant Searching(d, c, MAX_TREE_COMP_LENGTH, t, lo, hi, bestLenLeft, bestLenRight)
      invariant Walk(d, w, forest[..], c, maxBackward, nodeLeft, nodeRight, prev, depth) == goal
      decreases depth
    {
      ghost var f := forest[..];
      var backward := Backward(c, prev);
      StopsAlike(f, w, c, maxBackward, prev, t, depth);
      if backward == 0 || backward > maxBackward || depth == 0 {
        WalkStop(d, w, f, c, maxBackward, nodeLeft, nodeRight, prev, depth);
        forest[nodeLeft] := Invalid(w);
        forest[nodeRight] := Invalid(w);
        assert forest[..] == goal;
        break;
      }
      RootOf(f, w, c, prev, t);
      WalkStep(d, w, f, c, maxBackward, nodeLeft, nodeRight, prev, depth);
      SkippedCompare(d, c, MAX_TREE_COMP_LENGTH, t, lo, hi, bestLenLeft, bestLenRight, MAX_TREE_COMP_LENGTH);
      var curLen := Min(bestLenLeft, bestLenRight);
      var rest := MatchLenAt(d, c + curLen, prev + curLen, MAX_TREE_COMP_LENGTH - curLen);
      var length := curLen + rest;
      if length >= MAX_TREE_COMP_LENGTH {
        forest[nodeLeft] := forest[Slot(w, prev)];
        forest[nodeRight] := forest[Slot(w, prev) + 1];
        assert forest[..] == goal;
        break;
      }
      if d[c + length] > d[prev + length] {
        StepRight(d, w, f, c, maxBackward, nodeLeft, nodeRight, prev, t);
        SearchRight(d, c, MAX_TREE_COMP_LENGTH, t, lo, hi, bestLenLeft, bestLenRight);
        bestLenLeft := length;
        forest[nodeLeft] := prev;
        assert forest[..] == f[nodeLeft := prev];
        nodeLeft := Slot(w, prev) + 1;
        lo, t := At(prev), t.right;
        prev := forest[nodeLeft];
      } else {
        StepLeft(d, w, f, c, maxBackward, nodeLeft, nodeRight, prev, t);
        SearchLeft(d, c, MAX_TREE_COMP_LENGTH, t, lo, hi, bestLenLeft, bestLenRight);
        bestLenRight := length;
        forest[nodeRight] := prev;
        assert forest[..] == f[nodeRight := prev];
        nodeRight := Slot(w, prev);
        hi, t := At(prev), t.left;
        prev := forest[nodeRight];
      }
      depth := depth - 1;
    }
  }

  lemma StartSearch(d: seq<nat>, c: nat, limit: nat, t: Tree)
    requires limit <= MAX_TREE_COMP_LENGTH && c + limit <= |d| && AllFull(d, Pos(t)) && Bst(d, t)
    ensures Searching(d, c, limit, t, Unbounded, Unbounded, 0, 0)
  {
  }

  lemma RootOf(f: seq<nat>, w: nat, c: nat, prev: nat, t: Tree)
    requires WindowSize(w) && |f| == 2 * w && Repr(f, w, c, prev, t) && t.Node?
    ensures t.pos == prev < c
  {
  }

  lemma VisitsStep(d: seq<nat>, t: Tree, c: nat, limit: nat, maxBackward: nat, depth: nat)
    requires c + limit <= |d| && limit <= MAX_TREE_COMP_LENGTH && AllFull(d, Pos(t))
             && !StopsAt(t, c, maxBackward, depth)
    ensures var len := Lcp(d, c, t.pos, limit);
            Visits(d, t, c, limit, maxBackward, depth) ==
            [t.pos] + if len == limit then []
                      else if d[c + len] > d[t.pos + len] then Visits(d, t.right, c, limit, maxBackward, depth - 1)
                      else Visits(d, t.left, c, limit, maxBackward, depth - 1)
  {
    hide Lcp;
  }

  lemma CollectStep(d: seq<nat>, c: nat, path: seq<nat>, maxLength: nat, bestLen: nat)
    requires c + maxLength <= |d| && (forall i :: 0 <= i < |path| ==> path[i] < c) && |path| > 0
    ensures var len := Lcp(d, c, path[0], maxLength);
            Collect(d, c, path, maxLength, bestLen) ==
            (if len > bestLen then [Match(c - path[0], len)] else []) +
            Collect(d, c, path[1..], maxLength, if len > bestLen then len else bestLen)
    ensures |path| == 1 ==>
            Collect(d, c, path[1..], maxLength,
                    if Lcp(d, c, path[0], maxLength) > bestLen then Lcp(d, c, path[0], maxLength) else bestLen) == []
  {
    hide Lcp;
  }

  /** The matches that a search of tree t reports. */
  ghost function Report(d: seq<nat>, t: Tree, c: nat, limit: nat, maxLength: nat, maxBackward: nat, depth: nat,
                        bestLen: nat): seq<Match>
    requires limit <= MAX_TREE_COMP_LENGTH && limit <= maxLength && c + maxLength <= |d| && AllFull(d, Pos(t))
    requires forall q :: q in Pos(t) ==> q < c
  {
    VisitsInTree(d, t, c, limit, maxBackward, depth);
    Collect(d, c, Visits(d, t, c, limit, maxBackward, depth), maxLength, bestLen)
  }

  /** What is reported below the root of t. */
  ghost function NextReport(d: seq<nat>, t: Tree, c: nat, limit: nat, maxLength: nat, maxBackward: nat, depth: nat,
                            best: nat): seq<Match>
    requires limit <= MAX_TREE_COMP_LENGTH && limit <= maxLength && c + maxLength <= |d| && AllFull(d, Pos(t))
    requires (forall q :: q in Pos(t) ==> q < c) && t.Node? && depth > 0
  {
    assert Pos(t.left) <= Pos(t) && Pos(t.right) <= Pos(t) && t.pos in Pos(t);
    var len := Lcp(d, c, t.pos, maxLength);
    if len >= limit then []
    else if d[c + len] > d[t.pos + len] then Report(d, t.right, c, limit, maxLength, maxBackward, depth - 1, best)
    else Report(d, t.left, c, limit, maxLength, maxBackward, depth - 1, best)
  }

  /** One node of the search: what it reports and where the rest of the report comes from. */
  lemma ReportStep(d: seq<nat>, t: Tree, c: nat, limit: nat, maxLength: nat, maxBackward: nat, depth: nat, bestLen: nat)
    requires limit <= MAX_TREE_COMP_LENGTH && limit <= maxLength && c + maxLength <= |d| && AllFull(d, Pos(t))
    requires (forall q :: q in Pos(t) ==> q < c) && !StopsAt(t, c, maxBackward, depth)
    requires Lcp(d, c, t.pos, limit) == Min(Lcp(d, c, t.pos, maxLength), limit)
    ensures Pos(t.left) <= Pos(t) && Pos(t.right) <= Pos(t)
    ensures var len := Lcp(d, c, t.pos, maxLength);
            var head := if len > bestLen then [Match(c - t.pos, len)] else [];
            var best := if len > bestLen then len else bestLen;
            Report(d, t, c, limit, maxLength, maxBackward, depth, bestLen) ==
            head + NextReport(d, t, c, limit, maxLength, maxBackward, depth, best)
  {
    hide Lcp, Visits, Collect;
    assert t.pos in Pos(t);
    var v := Visits(d, t, c, limit, maxBackward, depth);
    VisitsInTree(d, t, c, limit, maxBackward, depth);
    VisitsStep(d, t, c, limit, maxBackward, depth);
    CollectStep(d, c, v, maxLength, bestLen);
    var len := Lcp(d, c, t.pos, maxLength);
    if len < limit {
      var s := if d[c + len] > d[t.pos + len] then t.right else t.left;
      VisitsInTree(d, s, c, limit, maxBackward, depth - 1);
      assert v[1..] == Visits(d, s, c, limit, maxBackward, depth - 1);
    } else {
      assert v[1..] == [];
    }
  }

  lemma BelowCurrent(f: seq<nat>, w: nat, c: nat, prev: nat, t: Tree)
    requires WindowSize(w) && |f| == 2 * w && Repr(f, w, c, prev, t)
    ensures forall q :: q in Pos(t) ==> q < c
  {
    ReprLive(f, w, c, prev, t);
  }

  ghost function LastLength(ms: seq<Match>, bestLen: nat): nat {
    if ms == [] then bestLen else ms[|ms| - 1].length
  }

  /** Compares c with one node, skipping the known bytes, and reports a longer match. */
  method Probe(d: seq<nat>, c: nat, prev: nat, limit: nat, maxLength: nat, bestLenLeft: nat, bestLenRight: nat,
               best: nat, matches: seq<Match>,
               ghost t: Tree, ghost lo: Bound, ghost hi: Bound, ghost maxBackward: nat, ghost depth: nat,
                 ghost report: seq<Match>, ghost bestLen: nat)
    returns (length: nat, newBest: nat, newMatches: seq<Match>)
    requires Searching(d, c, limit, t, lo, hi, bestLenLeft, bestLenRight) && limit <= maxLength && c + maxLength <= |d|
    requires t.Node? && t.pos == prev < c && !StopsAt(t, c, maxBackward, depth) && forall q :: q in Pos(t) ==> q < c
    requires report == matches + Report(d, t, c, limit, maxLength, maxBackward, depth, best)
    requires best == LastLength(matches, bestLen)
    ensures length == Lcp(d, c, prev, maxLength) && Lcp(d, c, prev, limit) == Min(length, limit)
    ensures report == newMatches + NextReport(d, t, c, limit, maxLength, maxBackward, depth, newBest)
    ensures newBest == LastLength(newMatches, bestLen)
  {
    hide Bst, LeftBound, RightBound, Lcp, Report, NextReport;
    SkippedCompare(d, c, limit, t, lo, hi, bestLenLeft, bestLenRight, maxLength);
    ReportStep(d, t, c, limit, maxLength, maxBackward, depth, best);
    var curLen := Min(bestLenLeft, bestLenRight);
    var rest := MatchLenAt(d, c + curLen, prev + curLen, maxLength - curLen);
    length := curLen + rest;
    newBest, newMatches := best, matches;
    if length > best {
      newBest := length;
      newMatches := matches + [Match(c - prev, length)];
    }
  }

  /** The loop of storeAndFindMatches: it leaves the forest of storeOnly and reports matches. */
  method RerootAndFind(d: seq<nat>, w: nat, forest: array<nat>, c: nat, maxLength: nat, maxBackward: nat, root: nat,
                       bestLen: nat, ghost tree: Tree) returns (matches: seq<Match>, best: nat)
    requires w > 0 && Walkable(d, w, forest[..], c, maxBackward, Slot(w, c), Slot(w, c) + 1, root, tree) && Bst(d, tree)
    requires MAX_TREE_COMP_LENGTH <= maxLength && c + maxLength <= |d|
    modifies forest
    ensures forest[..] ==
            Walk(d, w, old(forest[..]), c, maxBackward, Slot(w, c), Slot(w, c) + 1, root, MAX_TREE_SEARCH_DEPTH)
    ensures forall q :: q in Pos(tree) ==> q < c
    ensures matches == Report(d, tree, c, MAX_TREE_COMP_LENGTH, maxLength, maxBackward, MAX_TREE_SEARCH_DEPTH, bestLen)
    ensures best == LastLength(matches, bestLen)
  {
    hide Bst, Less, LeftBound, RightBound, Repr, Slot, Outside, Distinct, Lcp, Report, Walk, Searching, AllFull;
    var nodeLeft: nat, nodeRight: nat := Slot(w, c), Slot(w, c) + 1;
    var prev: nat, depth: nat := root, MAX_TREE_SEARCH_DEPTH;
    var bestLenLeft: nat, bestLenRight: nat := 0, 0;
    ghost var t, lo, hi := tree, Unbounded, Unbounded;
    ghost var goal := Walk(d, w, forest[..], c, maxBackward, nodeLeft, nodeRight, prev, depth);
    StartSearch(d, c, MAX_TREE_COMP_LENGTH, t);
    BelowCurrent(forest[..], w, c, prev, t);
    ghost var report := Report(d, t, c, MAX_TREE_COMP_LENGTH, maxLength, maxBackward, depth, bestLen);
    matches, best := [], bestLen;
    while true
      invariant Walkable(d, w, forest[..], c, maxBackward, nodeLeft, nodeRight, prev, t)
      invariant Searching(d, c, MAX_TREE_COMP_LENGTH, t, lo, hi, bestLenLeft, bestLenRight)
      invariant Walk(d, w, forest[..], c, maxBackward, nodeLeft, nodeRight, prev, depth) == goal
      invariant forall q :: q in Pos(t) ==> q < c
      invariant matches + Report(d, t, c, MAX_TREE_COMP_LENGTH, maxLength, maxBackward, depth, best) == report
      invariant best == LastLength(matches, bestLen)
      decreases depth
    {
      ghost var f := forest[..];
      var backward := Backward(c, prev);
      StopsAlike(f, w, c, maxBackward, prev, t, depth);
      if backward == 0 || backward > maxBackward || depth == 0 {
        ReportNothing(d, t, c, MAX_TREE_COMP_LENGTH, maxLength, maxBackward, depth, best);
        WalkStop(d, w, f, c, maxBackward, nodeLeft, nodeRight, prev, depth);
        forest[nodeLeft] := Invalid(w);
        forest[nodeRight] := Invalid(w);
        assert forest[..] == goal;
        break;
      }
      RootOf(f, w, c, prev, t);
      WalkStep(d, w, f, c, maxBackward, nodeLeft, nodeRight, prev, depth);
      var length: nat;
      length, best, matches :=
        Probe(d, c, prev, MAX_TREE_COMP_LENGTH, maxLength, bestLenLeft, bestLenRight, best, matches,
                                     t, lo, hi, maxBackward, depth, report, bestLen);
      if length >= MAX_TREE_COMP_LENGTH {
        forest[nodeLeft] := forest[Slot(w, prev)];
        forest[nodeRight] := forest[Slot(w, prev) + 1];
        assert forest[..] == goal;
        break;
      }
      if d[c + length] > d[prev + length] {
        StepRight(d, w, f, c, maxBackward, nodeLeft, nodeRight, prev, t);
        SearchRight(d, c, MAX_TREE_COMP_LENGTH, t, lo, hi, bestLenLeft, bestLenRight);
        bestLenLeft := length;
        forest[nodeLeft] := prev;
        assert forest[..] == f[nodeLeft := prev];
        nodeLeft := Slot(w, prev) + 1;
        lo, t := At(prev), t.right;
        prev := forest[nodeLeft];
      } else {
        StepLeft(d, w, f, c, maxBackward, nodeLeft, nodeRight, prev, t);
        SearchLeft(d, c, MAX_TREE_COMP_LENGTH, t, lo, hi, bestLenLeft, bestLenRight);
        bestLenRight := length;
        forest[nodeRight] := prev;
        assert forest[..] == f[nodeRight := prev];
        nodeRight := Slot(w, prev);
        hi, t := At(prev), t.left;
        prev := forest[nodeRight];
      }
      depth := depth - 1;
    }
  }

  lemma ReportNothing(d: seq<nat>, t: Tree, c: nat, limit: nat, maxLength: nat, maxBackward: nat, depth: nat,
                      bestLen: nat)
    requires limit <= MAX_TREE_COMP_LENGTH && limit <= maxLength && c + maxLength <= |d| && AllFull(d, Pos(t))
    requires (forall q :: q in Pos(t) ==> q < c) && StopsAt(t, c, maxBackward, depth)
    ensures Report(d, t, c, limit, maxLength, maxBackward, depth, bestLen) == []
  {
  }

  /** The loop of findMatchesNoStore: the tree is only read, and the few bytes at c bound the order. */
  method FindOnly(d: seq<nat>, w: nat, forest: array<nat>, c: nat, maxLength: nat, maxBackward: nat, root: nat,
                  bestLen: nat, ghost tree: Tree) returns (matches: seq<Match>, best: nat)
    requires WindowSize(w) && forest.Length == 2 * w && Pointers(forest[..]) && maxBackward < w && c < Invalid(w)
             && root < ADDRESSES
    requires Repr(forest[..], w, c, root, tree) && AllFull(d, Pos(tree)) && Bst(d, tree)
    requires maxLength < MAX_TREE_COMP_LENGTH && c + maxLength <= |d|
    ensures forall q :: q in Pos(tree) ==> q < c
    ensures matches == Report(d, tree, c, maxLength, maxLength, maxBackward, MAX_TREE_SEARCH_DEPTH, bestLen)
    ensures best == LastLength(matches, bestLen)
  {
    hide Bst, Less, LeftBound, RightBound, Slot, Lcp, Report;
    var prev: nat, depth: nat := root, MAX_TREE_SEARCH_DEPTH;
    var bestLenLeft: nat, bestLenRight: nat := 0, 0;
    ghost var t, lo, hi := tree, Unbounded, Unbounded;
    StartSearch(d, c, maxLength, t);
    BelowCurrent(forest[..], w, c, prev, t);
    ghost var report := Report(d, t, c, maxLength, maxLength, maxBackward, depth, bestLen);
    matches, best := [], bestLen;
    while true
      invariant prev < ADDRESSES && Repr(forest[..], w, c, prev, t)
      invariant Searching(d, c, maxLength, t, lo, hi, bestLenLeft, bestLenRight)
      invariant forall q :: q in Pos(t) ==> q < c
      invariant matches + Report(d, t, c, maxLength, maxLength, maxBackward, depth, best) == report
      invariant best == LastLength(matches, bestLen)
      decreases depth
    {
      var backward := Backward(c, prev);
      StopsAlike(forest[..], w, c, maxBackward, prev, t, depth);
      if backward == 0 || backward > maxBackward || depth == 0 {
        ReportNothing(d, t, c, maxLength, maxLength, maxBackward, depth, best);
        break;
      }
      RootOf(forest[..], w, c, prev, t);
      var length: nat;
      length, best, matches := Probe(d, c, prev, maxLength, maxLength, bestLenLeft, bestLenRight, best, matches,
                                     t, lo, hi, maxBackward, depth, report, bestLen);
      if length >= maxLength {
        break;
      }
      if d[c + length] > d[prev + length] {
        SearchRight(d, c, maxLength, t, lo, hi, bestLenLeft, bestLenRight);
        bestLenLeft := length;
        lo, t := At(prev), t.right;
        prev := forest[Slot(w, prev) + 1];
      } else {
        SearchLeft(d, c, maxLength, t, lo, hi, bestLenLeft, bestLenRight);
        bestLenRight := length;
        hi, t := At(prev), t.left;
        prev := forest[Slot(w, prev)];
      }
      depth := depth - 1;
    }
  }

  // ---------- All buckets together ----------

  /** Bucket k holds a search tree and heap of positions that hash to k. */
  ghost predicate BucketOk(d: seq<nat>, hash: seq<nat> -> nat, w: nat, f: seq<nat>, cur: nat, k: nat, root: nat,
                           t: Tree)
    requires WindowSize(w) && |f| == 2 * w
  {
    && root < ADDRESSES && Repr(f, w, cur, root, t)
    && AllFull(d, Pos(t)) && Bst(d, t) && Heap(t)
    && forall q :: q in Pos(t) ==> hash(d[q..q + 4]) == k
  }

  lemma BucketPruned(d: seq<nat>, hash: seq<nat> -> nat, w: nat, f: seq<nat>, cur: nat, later: nat, k: nat, root: nat,
                     t: Tree)
    requires WindowSize(w) && |f| == 2 * w && BucketOk(d, hash, w, f, cur, k, root, t) && cur <= later
    ensures BucketOk(d, hash, w, f, later, k, root, Prune(t, w, later))
  {
    hide Bst, Slot;
    PruneRepr(f, w, cur, later, root, t);
    PruneKeeps(d, t, w, later);
  }

  /** The slots of c are outside every tree of positions live before c. */
  lemma CurrentOutside(f: seq<nat>, w: nat, c: nat, root: nat, t: Tree)
    requires WindowSize(w) && |f| == 2 * w && Repr(f, w, c, root, t)
    ensures Outside(w, t, Slot(w, c)) && Outside(w, t, Slot(w, c) + 1)
  {
    ReprLive(f, w, c, root, t);
    forall q | q in Pos(t)
      ensures c % w != q % w
    {
      SlotsDiffer(w, c, c, q);
    }
  }

  /** A bucket is ready for the walk of position c. */
  lemma BucketWalkable(d: seq<nat>, hash: seq<nat> -> nat, w: nat, f: seq<nat>, c: nat, maxBackward: nat, k: nat,
                       root: nat, t: Tree)
    requires WindowSize(w) && |f| == 2 * w && Pointers(f) && BucketOk(d, hash, w, f, c, k, root, t)
    requires maxBackward < w && Full(d, c) && c < Invalid(w)
    ensures Walkable(d, w, f, c, maxBackward, Slot(w, c), Slot(w, c) + 1, root, t)
  {
    hide Slot, Bst;
    BstIsDistinct(d, t);
    CurrentOutside(f, w, c, root, t);
  }

  /** The tree of the bucket of c after c has been stored. */
  ghost function Stored(d: seq<nat>, t: Tree, w: nat, c: nat, maxBackward: nat): Tree
    requires Full(d, c) && AllFull(d, Pos(t))
  {
    Prune(Inserted(d, t, c, maxBackward), w, c + 1)
  }

  /** The forest after the walk holds the re-rooted tree. */
  lemma StoredRepr(d: seq<nat>, w: nat, f: seq<nat>, c: nat, maxBackward: nat, root: nat, t: Tree)
    requires WindowSize(w) && Walkable(d, w, f, c, maxBackward, Slot(w, c), Slot(w, c) + 1, root, t)
    ensures var g := Walk(d, w, f, c, maxBackward, Slot(w, c), Slot(w, c) + 1, root, MAX_TREE_SEARCH_DEPTH);
            Repr(g, w, c + 1, c, Stored(d, t, w, c, maxBackward))
  {
    hide Slot, Walk, Split, Outside;
    var g := Walk(d, w, f, c, maxBackward, Slot(w, c), Slot(w, c) + 1, root, MAX_TREE_SEARCH_DEPTH);
    WalkRefinesSplit(d, w, f, c, maxBackward, Slot(w, c), Slot(w, c) + 1, root, t, MAX_TREE_SEARCH_DEPTH);
    var (l, r) := Split(d, t, c, maxBackward, MAX_TREE_SEARCH_DEPTH);
    PruneRepr(g, w, c, c + 1, g[Slot(w, c)], l);
    PruneRepr(g, w, c, c + 1, g[Slot(w, c) + 1], r);
    assert Stored(d, t, w, c, maxBackward) == Node(Prune(l, w, c + 1), c, Prune(r, w, c + 1));
  }

  /** Storing c leaves its bucket a search tree and heap, represented in the new forest. */
  lemma StoredBucket(d: seq<nat>, hash: seq<nat> -> nat, w: nat, f: seq<nat>, c: nat, maxBackward: nat, root: nat,
                     t: Tree)
    requires WindowSize(w) && |f| == 2 * w && Pointers(f) && maxBackward < w && Full(d, c) && c < Invalid(w)
    requires BucketOk(d, hash, w, f, c, hash(d[c..c + 4]), root, t)
    ensures var g := Walk(d, w, f, c, maxBackward, Slot(w, c), Slot(w, c) + 1, root, MAX_TREE_SEARCH_DEPTH);
            BucketOk(d, hash, w, g, c + 1, hash(d[c..c + 4]), c, Stored(d, t, w, c, maxBackward))
  {
    hide Slot, Bst, Heap, Repr, Inserted, Prune, Walk;
    BucketWalkable(d, hash, w, f, c, maxBackward, hash(d[c..c + 4]), root, t);
    StoredRepr(d, w, f, c, maxBackward, root, t);
    BelowCurrent(f, w, c, root, t);
    InsertedIsSearchTreeAndHeap(d, t, c, maxBackward);
    PruneKeeps(d, Inserted(d, t, c, maxBackward), w, c + 1);
  }

  lemma BucketsDisjoint(d: seq<nat>, hash: seq<nat> -> nat, s: set<nat>, t: set<nat>, j: nat, k: nat)
    requires AllFull(d, s) && AllFull(d, t) && j != k
    requires forall q :: q in s ==> hash(d[q..q + 4]) == j
    requires forall q :: q in t ==> hash(d[q..q + 4]) == k
    ensures s !! t
  {
  }

  /** Storing c does not disturb the other buckets. */
  lemma OtherBucket(d: seq<nat>, hash: seq<nat> -> nat, w: nat, f: seq<nat>, c: nat, maxBackward: nat, root: nat,
                    t: Tree,
                    k: nat, otherRoot: nat, other: Tree)
    requires WindowSize(w) && |f| == 2 * w && Pointers(f) && maxBackward < w && Full(d, c) && c < Invalid(w)
    requires BucketOk(d, hash, w, f, c, hash(d[c..c + 4]), root, t)
    requires BucketOk(d, hash, w, f, c, k, otherRoot, other) && k != hash(d[c..c + 4])
    ensures var g := Walk(d, w, f, c, maxBackward, Slot(w, c), Slot(w, c) + 1, root, MAX_TREE_SEARCH_DEPTH);
            BucketOk(d, hash, w, g, c + 1, k, otherRoot, Prune(other, w, c + 1))
  {
    hide Slot, Bst, Heap, Repr, Walk, Split, Prune, Outside;
    var g := Walk(d, w, f, c, maxBackward, Slot(w, c), Slot(w, c) + 1, root, MAX_TREE_SEARCH_DEPTH);
    BucketWalkable(d, hash, w, f, c, maxBackward, hash(d[c..c + 4]), root, t);
    WalkRefinesSplit(d, w, f, c, maxBackward, Slot(w, c), Slot(w, c) + 1, root, t, MAX_TREE_SEARCH_DEPTH);
    ReprLive(f, w, c, root, t);
    CurrentOutside(f, w, c, otherRoot, other);
    BucketsDisjoint(d, hash, Pos(other), Pos(t), k, hash(d[c..c + 4]));
    ReprSibling(w, f, g, c, Slot(w, c), Slot(w, c) + 1, otherRoot, other, t);
    BucketPruned(d, hash, w, g, c, c + 1, k, otherRoot, other);
  }

  /** Every bucket of the table. */
  ghost predicate BucketsOk(d: seq<nat>, hash: seq<nat> -> nat, w: nat, f: seq<nat>, cur: nat, roots: seq<nat>,
                            trees: seq<Tree>)
    requires WindowSize(w) && |f| == 2 * w
  {
    |roots| == |trees| && forall k :: 0 <= k < |roots| ==> BucketOk(d, hash, w, f, cur, k, roots[k], trees[k])
  }

  /** Tree of bucket k after c has been stored. */
  ghost function StoredTree(d: seq<nat>, hash: seq<nat> -> nat, w: nat, c: nat, maxBackward: nat, k: nat, t: Tree): Tree
    requires Full(d, c) && AllFull(d, Pos(t))
  {
    PruneKeeps(d, t, w, c);
    assert AllFull(d, Pos(Prune(t, w, c)));
    if k == hash(d[c..c + 4]) then Stored(d, Prune(t, w, c), w, c, maxBackward) else Prune(Prune(t, w, c), w, c + 1)
  }

  ghost predicate StoredTrees(d: seq<nat>, hash: seq<nat> -> nat, w: nat, c: nat, maxBackward: nat, before: seq<Tree>,
                              after: seq<Tree>) {
    && Full(d, c) && |before| == |after|
    && forall k :: 0 <= k < |before| ==>
       AllFull(d, Pos(before[k])) && after[k] == StoredTree(d, hash, w, c, maxBackward, k, before[k])
  }

  /** Storing position c keeps every bucket a search tree and a heap. */
  lemma StoreKeepsBuckets(d: seq<nat>, hash: seq<nat> -> nat, w: nat, f: seq<nat>, cur: nat, c: nat, maxBackward: nat,
                          roots: seq<nat>, before: seq<Tree>, after: seq<Tree>)
    requires WindowSize(w) && |f| == 2 * w && Pointers(f) && maxBackward < w && Full(d, c) && cur <= c < Invalid(w)
    requires BucketsOk(d, hash, w, f, cur, roots, before) && hash(d[c..c + 4]) < |roots|
    requires StoredTrees(d, hash, w, c, maxBackward, before, after)
    ensures var k := hash(d[c..c + 4]);
            var g := Walk(d, w, f, c, maxBackward, Slot(w, c), Slot(w, c) + 1, roots[k], MAX_TREE_SEARCH_DEPTH);
            BucketsOk(d, hash, w, g, c + 1, roots[k := c], after)
  {
    hide Slot, Bst, Walk, Repr, Stored, Heap, Prune;
    var k := hash(d[c..c + 4]);
    var g := Walk(d, w, f, c, maxBackward, Slot(w, c), Slot(w, c) + 1, roots[k], MAX_TREE_SEARCH_DEPTH);
    forall i | 0 <= i < |roots|
      ensures BucketOk(d, hash, w, g, c + 1, i, roots[k := c][i], after[i])
    {
      BucketPruned(d, hash, w, f, cur, c, i, roots[i], before[i]);
      BucketPruned(d, hash, w, f, cur, c, k, roots[k], before[k]);
      if i == k {
        StoredBucket(d, hash, w, f, c, maxBackward, roots[k], Prune(before[k], w, c));
      } else {
        OtherBucket(d, hash, w, f, c, maxBackward, roots[k], Prune(before[k], w, c), i, roots[i],
                    Prune(before[i], w, c));
      }
    }
  }

  // ---------- The hasher ----------

  class H10 {
    const data: seq<nat>
    const hash: seq<nat> -> nat
    const w: nat
    const forest: array<nat>
    const buckets: array<nat>
    ghost var trees: seq<Tree>  // the tree of each bucket
    ghost var next: nat         // all stored positions are below next

    /** Every bucket is a search tree on 128-byte prefixes and a max-heap on position. */
    ghost predicate Valid() reads this, forest, buckets {
      && WindowSize(w) && forest.Length == 2 * w && forest != buckets && Pointers(forest[..])
      && (forall p :: 0 <= p && Full(data, p) ==> hash(data[p..p + 4]) < buckets.Length)
      && BucketsOk(data, hash, w, forest[..], next, buckets[..], trees)
    }

    function Key(c: nat): nat requires Full(data, c) { hash(data[c..c + 4]) }

    constructor (data: seq<nat>, hash: seq<nat> -> nat, w: nat, numBuckets: nat)
      requires WindowSize(w) && forall p :: 0 <= p && Full(data, p) ==> hash(data[p..p + 4]) < numBuckets
      ensures Valid() && fresh(forest) && fresh(buckets) && this.data == data && this.hash == hash && this.w == w
      ensures next == 0 && forall k :: 0 <= k < |trees| ==> trees[k] == Leaf
    {
      this.data, this.hash, this.w := data, hash, w;
      var f := new nat[2 * w](_ => 0);
      var b := new nat[numBuckets](_ => Invalid(w));
      forest, buckets := f, b;
      trees := seq(numBuckets, _ => Leaf);
      next := 0;
    }

    /** Stores c: its bucket is re-rooted at c, all buckets keep their order, and nothing else changes. */
    method StoreOnly(c: nat, maxBackward: nat)
      requires Valid() && next <= c && Full(data, c) && c < Invalid(w) && maxBackward < w
      modifies this, forest, buckets
      ensures Valid() && next == c + 1
      ensures StoredTrees(data, hash, w, c, maxBackward, old(trees), trees)
      ensures buckets[..] == old(buckets[..])[Key(c) := c]
      ensures forest[..] ==
              Walk(data, w, old(forest[..]), c, maxBackward, Slot(w, c), Slot(w, c) + 1, old(buckets[Key(c)]),
                   MAX_TREE_SEARCH_DEPTH)
    {
      hide Slot, Walk, BucketOk, StoredTree;
      var key := hash(data[c..c + 4]);
      ghost var f, roots, before := forest[..], buckets[..], trees;
      var prev := buckets[key];
      buckets[key] := c;
      ghost var t := BeginStore(data, hash, w, f, next, c, maxBackward, key, prev, before[key]);
      RerootOnly(data, w, forest, c, maxBackward, prev, t);
      trees := AfterStore(data, hash, w, f, next, c, maxBackward, roots, before);
      next := c + 1;
      assert buckets[..] == roots[key := c];
    }

    /** Stores c exactly as StoreOnly does, and reports matches: each is a maximal common prefix with an
        in-window position, lengths and distances strictly increase, and, when the tree is not deeper than
        the search may go, every in-window position of the bucket is dominated by a reported match. */
    method StoreAndFindMatches(c: nat, maxLength: nat, maxBackward: nat, bestLen: nat)
      returns (matches: seq<Match>, best: nat)
      requires Valid() && next <= c && Full(data, c) && c < Invalid(w) && maxBackward < w
      requires MAX_TREE_COMP_LENGTH <= maxLength && c + maxLength <= |data|
      modifies this, forest, buckets
      ensures Valid() && next == c + 1
      ensures StoredTrees(data, hash, w, c, maxBackward, old(trees), trees)
      ensures buckets[..] == old(buckets[..])[Key(c) := c]
      ensures forest[..] ==
              Walk(data, w, old(forest[..]), c, maxBackward, Slot(w, c), Slot(w, c) + 1, old(buckets[Key(c)]),
                   MAX_TREE_SEARCH_DEPTH)
      ensures TrueMatches(data, c, matches, maxLength, maxBackward, bestLen)
      ensures best == LastLength(matches, bestLen)
      ensures Complete(data, old(trees)[Key(c)], c, w, MAX_TREE_COMP_LENGTH, maxBackward, bestLen, matches)
    {
      hide Slot, Walk, BucketOk, StoredTree, TrueMatches, Complete;
      var key := hash(data[c..c + 4]);
      ghost var f, roots, before := forest[..], buckets[..], trees;
      var prev := buckets[key];
      buckets[key] := c;
      ghost var t := BeginStore(data, hash, w, f, next, c, maxBackward, key, prev, before[key]);
      matches, best := RerootAndFind(data, w, forest, c, maxLength, maxBackward, prev, bestLen, t);
      ReportIsTrueAndComplete(data, before[key], w, c, MAX_TREE_COMP_LENGTH, maxLength, maxBackward, bestLen);
      trees := AfterStore(data, hash, w, f, next, c, maxBackward, roots, before);
      next := c + 1;
      assert buckets[..] == roots[key := c];
    }

    /** Searches without storing, for the last positions of the input. */
    method FindMatchesNoStore(c: nat, maxLength: nat, maxBackward: nat, bestLen: nat)
      returns (matches: seq<Match>, best: nat)
      requires Valid() && next <= c && c < Invalid(w) && maxBackward < w
      requires 4 <= maxLength < MAX_TREE_COMP_LENGTH && c + maxLength <= |data| && hash(data[c..c + 4]) < buckets.Length
      ensures TrueMatches(data, c, matches, maxLength, maxBackward, bestLen)
      ensures best == LastLength(matches, bestLen)
      ensures Complete(data, trees[hash(data[c..c + 4])], c, w, maxLength, maxBackward, bestLen, matches)
    {
      hide Slot, TrueMatches, Complete;
      var key := hash(data[c..c + 4]);
      var prev := buckets[key];
      BucketPruned(data, hash, w, forest[..], next, c, key, prev, trees[key]);
      matches, best := FindOnly(data, w, forest, c, maxLength, maxBackward, prev, bestLen, Prune(trees[key], w, c));
      ReportIsTrueAndComplete(data, trees[key], w, c, maxLength, maxLength, maxBackward, bestLen);
    }
  }

  /** Every position of the bucket that is still in the window is dominated by what was reported. */
  ghost predicate Complete(d: seq<nat>, t: Tree, c: nat, w: nat, limit: nat, maxBackward: nat, bestLen: nat,
                           ms: seq<Match>)
    requires c + limit <= |d|
  {
    Uncut(d, Prune(t, w, c), c, limit, maxBackward, MAX_TREE_SEARCH_DEPTH) ==>
      forall q :: q in Pos(t) && Live(w, c, q) && c <= q + maxBackward ==>
        Dominated(ms, bestLen, c - q, Lcp(d, c, q, limit))
  }

  /** In particular for every bucket that is not higher than the depth. */
  lemma ShallowIsComplete(d: seq<nat>, t: Tree, w: nat, c: nat, limit: nat, maxBackward: nat)
    requires c + limit <= |d| && limit <= MAX_TREE_COMP_LENGTH && AllFull(d, Pos(t))
             && Height(t) <= MAX_TREE_SEARCH_DEPTH
    ensures Uncut(d, Prune(t, w, c), c, limit, maxBackward, MAX_TREE_SEARCH_DEPTH)
  {
    hide Uncut;
    PruneHeight(t, w, c);
    PrunePositions(t, w, c);
    ShallowIsUncut(d, Prune(t, w, c), c, limit, maxBackward, MAX_TREE_SEARCH_DEPTH);
  }

  lemma {:induction false} PrunePositions(t: Tree, w: nat, cur: nat)
    ensures Pos(Prune(t, w, cur)) <= Pos(t)
  {
    if t.Node? {
      PrunePositions(t.left, w, cur);
      PrunePositions(t.right, w, cur);
    }
  }

  lemma {:induction false} PruneHeight(t: Tree, w: nat, cur: nat)
    ensures Height(Prune(t, w, cur)) <= Height(t)
  {
    match t
    case Leaf =>
    case Node(l, p, r) =>
      PruneHeight(l, w, cur);
      PruneHeight(r, w, cur);
  }

  lemma ReportIsTrueAndComplete(d: seq<nat>, t: Tree, w: nat, c: nat, limit: nat, maxLength: nat, maxBackward: nat,
                                bestLen: nat)
    requires limit <= MAX_TREE_COMP_LENGTH && limit <= maxLength && c + maxLength <= |d| && maxBackward < w
    requires AllFull(d, Pos(t)) && Bst(d, t) && Heap(t) && (forall q :: q in Pos(Prune(t, w, c)) ==> q < c)
    ensures AllFull(d, Pos(Prune(t, w, c)))
    ensures var ms := Report(d, Prune(t, w, c), c, limit, maxLength, maxBackward, MAX_TREE_SEARCH_DEPTH, bestLen);
            TrueMatches(d, c, ms, maxLength, maxBackward, bestLen)
              && Complete(d, t, c, w, limit, maxBackward, bestLen, ms)
  {
    hide Bst, Lcp, Visits, Collect, Dominated, Uncut;
    var p := Prune(t, w, c);
    PruneKeeps(d, t, w, c);
    var v := Visits(d, p, c, limit, maxBackward, MAX_TREE_SEARCH_DEPTH);
    VisitsInTree(d, p, c, limit, maxBackward, MAX_TREE_SEARCH_DEPTH);
    VisitsDecrease(d, p, c, limit, maxBackward, MAX_TREE_SEARCH_DEPTH);
    CollectIsTrue(d, c, v, maxLength, bestLen, maxBackward);
    var ms := Report(d, p, c, limit, maxLength, maxBackward, MAX_TREE_SEARCH_DEPTH, bestLen);
    if Uncut(d, p, c, limit, maxBackward, MAX_TREE_SEARCH_DEPTH) {
      forall q | q in Pos(t) && Live(w, c, q) && c <= q + maxBackward
        ensures Dominated(ms, bestLen, c - q, Lcp(d, c, q, limit))
      {
        SearchIsComplete(d, p, c, limit, maxLength, maxBackward, bestLen, q);
      }
    }
  }

  /** The pruned tree on which the walk of c starts. */
  lemma BeginStore(d: seq<nat>, hash: seq<nat> -> nat, w: nat, f: seq<nat>, cur: nat, c: nat, maxBackward: nat,
                   key: nat, root: nat, before: Tree) returns (t: Tree)
    requires WindowSize(w) && |f| == 2 * w && Pointers(f) && maxBackward < w && Full(d, c) && cur <= c < Invalid(w)
    requires BucketOk(d, hash, w, f, cur, key, root, before)
    ensures t == Prune(before, w, c) && Bst(d, t) && AllFull(d, Pos(before)) && Bst(d, before) && Heap(before)
    ensures Walkable(d, w, f, c, maxBackward, Slot(w, c), Slot(w, c) + 1, root, t)
  {
    t := Prune(before, w, c);
    BucketPruned(d, hash, w, f, cur, c, key, root, before);
    BucketWalkable(d, hash, w, f, c, maxBackward, key, root, t);
  }

  lemma AfterStore(d: seq<nat>, hash: seq<nat> -> nat, w: nat, f: seq<nat>, cur: nat, c: nat, maxBackward: nat,
                   roots: seq<nat>, before: seq<Tree>) returns (after: seq<Tree>)
    requires WindowSize(w) && |f| == 2 * w && Pointers(f) && maxBackward < w && Full(d, c) && cur <= c < Invalid(w)
    requires BucketsOk(d, hash, w, f, cur, roots, before) && hash(d[c..c + 4]) < |roots|
    ensures StoredTrees(d, hash, w, c, maxBackward, before, after)
    ensures var k := hash(d[c..c + 4]);
            BucketsOk(d, hash, w,
                      Walk(d, w, f, c, maxBackward, Slot(w, c), Slot(w, c) + 1, roots[k], MAX_TREE_SEARCH_DEPTH), c + 1,
                        roots[k := c], after)
  {
    hide Slot, Walk, Bst, Repr, StoredTree;
    assert forall k :: 0 <= k < |before| ==> BucketOk(d, hash, w, f, cur, k, roots[k], before[k]);
    after := seq(|before|, k requires 0 <= k < |before|
      && AllFull(d, Pos(before[k])) => StoredTree(d, hash, w, c, maxBackward, k, before[k]));
    StoreKeepsBuckets(d, hash, w, f, cur, c, maxBackward, roots, before, after);
  }
}
