/** The shape and contents of the pointer heap of gps/utils/LocHeap.cpp as values: what push, pop and
    remove do to a tree, and what a client of the heap may rely on. */
module HeapTree {
  import opened Options

  datatype Tree<+T> = Empty | Node(size: int, data: T, left: Tree<T>, right: Tree<T>)

  // LocRankable::outRanks
  predicate OutRanks<T(!new)>(ranks: (T, T) -> int, a: T, b: T) {
    ranks(a, b) > 0
  }

  ghost predicate TotalPreorder<T(!new)>(ranks: (T, T) -> int) {
    (forall a, b :: OutRanks(ranks, a, b) ==> !OutRanks(ranks, b, a)) &&
    (forall a, b, c :: !OutRanks(ranks, a, b) && !OutRanks(ranks, b, c) ==> !OutRanks(ranks, a, c))
  }

  // ---------- The operations ----------

  function Push<T(!new)>(ranks: (T, T) -> int, t: Tree<T>, d: T): (r: Tree<T>)
    ensures r.Node? && r.data == (if t.Empty? || OutRanks(ranks, d, t.data) then d else t.data)
    ensures r.size == if t.Empty? then 1 else t.size + 1
  {
    match t
    case Empty => Node(1, d, Empty, Empty)
    case Node(size, data, left, right) =>
      var hi, lo := if OutRanks(ranks, d, data) then d else data, if OutRanks(ranks, d, data) then data else d;
      if left.Node? && (right.Empty? || right.size < left.size)
      then Node(size + 1, hi, left, Push(ranks, right, lo))
      else Node(size + 1, hi, Push(ranks, left, lo), right)
  }

  // Does pop refill the top from the left subtree?
  predicate TakesLeft<T(!new)>(ranks: (T, T) -> int, left: Tree<T>, right: Tree<T>) {
    left.Node? && (right.Empty? || OutRanks(ranks, left.data, right.data))
  }

  // What pop leaves of a tree.
  function Pop<T(!new)>(ranks: (T, T) -> int, t: Tree<T>): (r: Tree<T>)
    requires t.Node?
    ensures r.Node? ==> r.size == t.size - 1
  {
    if TakesLeft(ranks, t.left, t.right) then
      Node(t.size - 1, t.left.data, Pop(ranks, t.left), t.right)
    else if t.right.Node? then
      Node(t.size - 1, t.right.data, t.left, Pop(ranks, t.right))
    else
      Empty
  }

  // What remove leaves of a tree, or None when it does not find d.
  function Remove<T(!new, ==)>(ranks: (T, T) -> int, t: Tree<T>, d: T): Option<Tree<T>> {
    match t
    case Empty => None
    case Node(size, data, left, right) =>
      if d == data then Some(Pop(ranks, t))
      else if OutRanks(ranks, d, data) then None
      else match Remove(ranks, left, d)
        case Some(left') => Some(Node(size - 1, data, left', right))
        case None =>
          match Remove(ranks, right, d)
          case Some(right') => Some(Node(size - 1, data, left, right'))
          case None => None
  }

  // ---------- What they keep ----------

  ghost function Elems<T>(t: Tree<T>): multiset<T> {
    match t
    case Empty => multiset{}
    case Node(_, d, l, r) => multiset{d} + Elems(l) + Elems(r)
  }

  ghost function Count<T>(t: Tree<T>): nat {
    if t.Empty? then 0 else 1 + Count(t.left) + Count(t.right)
  }

  lemma {:induction false} CountIsCardinality<T>(t: Tree<T>)
    ensures Count(t) == |Elems(t)|
  {
    if t.Node? {
      CountIsCardinality(t.left);
      CountIsCardinality(t.right);
    }
  }

  // Every size field is the number of nodes of its subtree.
  ghost predicate SizesExact<T>(t: Tree<T>) {
    t.Node? ==> t.size == Count(t) && SizesExact(t.left) && SizesExact(t.right)
  }

  // No child outranks its parent.
  ghost predicate Ordered<T(!new)>(ranks: (T, T) -> int, t: Tree<T>) {
    t.Node? ==>
      (t.left.Node? ==> !OutRanks(ranks, t.left.data, t.data)) &&
      (t.right.Node? ==> !OutRanks(ranks, t.right.data, t.data)) &&
      Ordered(ranks, t.left) && Ordered(ranks, t.right)
  }

  ghost predicate IsHeap<T(!new)>(ranks: (T, T) -> int, t: Tree<T>) {
    Ordered(ranks, t) && SizesExact(t)
  }

  lemma {:induction false} RootIsHighest<T(!new)>(ranks: (T, T) -> int, t: Tree<T>, x: T)
    requires TotalPreorder(ranks) && Ordered(ranks, t) && x in Elems(t)
    ensures !OutRanks(ranks, x, t.data)
  {
    if x in Elems(t.left) {
      RootIsHighest(ranks, t.left, x);
    } else if x in Elems(t.right) {
      RootIsHighest(ranks, t.right, x);
    }
  }

  // ---------- Push ----------

  lemma {:induction false} PushOccurrences<T(!new)>(ranks: (T, T) -> int, t: Tree<T>, d: T, x: T)
    ensures Elems(Push(ranks, t, d))[x] == Elems(t)[x] + multiset{d}[x]
  {
    if t.Node? {
      var lo := if OutRanks(ranks, d, t.data) then t.data else d;
      if t.left.Node? && (t.right.Empty? || t.right.size < t.left.size) {
        PushOccurrences(ranks, t.right, lo, x);
      } else {
        PushOccurrences(ranks, t.left, lo, x);
      }
    }
  }

  lemma PushElems<T(!new)>(ranks: (T, T) -> int, t: Tree<T>, d: T)
    ensures Elems(Push(ranks, t, d)) == Elems(t) + multiset{d}
  {
    forall x { PushOccurrences(ranks, t, d, x); }
  }

  lemma {:induction false} PushSizes<T(!new)>(ranks: (T, T) -> int, t: Tree<T>, d: T)
    requires SizesExact(t)
    ensures SizesExact(Push(ranks, t, d)) && Count(Push(ranks, t, d)) == Count(t) + 1
  {
    if t.Node? {
      var lo := if OutRanks(ranks, d, t.data) then t.data else d;
      PushSizes(ranks, t.left, lo);
      PushSizes(ranks, t.right, lo);
    }
  }

  lemma {:induction false} PushOrdered<T(!new)>(ranks: (T, T) -> int, t: Tree<T>, d: T)
    requires TotalPreorder(ranks) && Ordered(ranks, t)
    ensures Ordered(ranks, Push(ranks, t, d))
  {
    if t.Node? {
      var lo := if OutRanks(ranks, d, t.data) then t.data else d;
      PushOrdered(ranks, t.left, lo);
      PushOrdered(ranks, t.right, lo);
    }
  }

  lemma PushRefines<T(!new)>(ranks: (T, T) -> int, t: Tree<T>, d: T)
    requires TotalPreorder(ranks) && IsHeap(ranks, t)
    ensures IsHeap(ranks, Push(ranks, t, d))
    ensures Elems(Push(ranks, t, d)) == Elems(t) + multiset{d}
  {
    PushElems(ranks, t, d);
    PushSizes(ranks, t, d);
    PushOrdered(ranks, t, d);
  }

  // The new element goes to the smaller subtree, to the left one if they are equal; the other stays.
  lemma PushFillsSmaller<T(!new)>(ranks: (T, T) -> int, t: Tree<T>, d: T)
    requires SizesExact(t) && t.Node?
    ensures var r := Push(ranks, t, d);
      if Count(t.left) <= Count(t.right)
      then r.right == t.right && Count(r.left) == Count(t.left) + 1
      else r.left == t.left && Count(r.right) == Count(t.right) + 1
  {
    var lo := if OutRanks(ranks, d, t.data) then t.data else d;
    PushSizes(ranks, t.left, lo);
    PushSizes(ranks, t.right, lo);
  }

  // ---------- Pop ----------

  lemma {:induction false} PopContents<T(!new)>(ranks: (T, T) -> int, t: Tree<T>)
    requires t.Node?
    ensures Elems(t) == Elems(Pop(ranks, t)) + multiset{t.data}
  {
    if TakesLeft(ranks, t.left, t.right) {
      PopContents(ranks, t.left);
    } else if t.right.Node? {
      PopContents(ranks, t.right);
    }
  }

  lemma {:induction false} PopSizes<T(!new)>(ranks: (T, T) -> int, t: Tree<T>)
    requires t.Node?
    ensures Count(t) == Count(Pop(ranks, t)) + 1
    ensures SizesExact(t) ==> SizesExact(Pop(ranks, t))
  {
    if TakesLeft(ranks, t.left, t.right) {
      PopSizes(ranks, t.left);
    } else if t.right.Node? {
      PopSizes(ranks, t.right);
    }
  }

  lemma PopElems<T(!new)>(ranks: (T, T) -> int, t: Tree<T>)
    requires t.Node?
    ensures Elems(t) == Elems(Pop(ranks, t)) + multiset{t.data}
    ensures Count(t) == Count(Pop(ranks, t)) + 1
    ensures SizesExact(t) ==> SizesExact(Pop(ranks, t))
  {
    PopContents(ranks, t);
    PopSizes(ranks, t);
  }

  lemma {:induction false} PopOrdered<T(!new)>(ranks: (T, T) -> int, t: Tree<T>)
    requires TotalPreorder(ranks) && Ordered(ranks, t) && t.Node?
    ensures Ordered(ranks, Pop(ranks, t))
    ensures Pop(ranks, t).Node? ==> !OutRanks(ranks, Pop(ranks, t).data, t.data)
  {
    if TakesLeft(ranks, t.left, t.right) {
      PopOrdered(ranks, t.left);
    } else if t.right.Node? {
      PopOrdered(ranks, t.right);
    }
  }

  // The higher of the two subtrees' tops comes up, the right one if they rank the same; the other
  // subtree stays.
  lemma PopPromotesHigher<T(!new)>(ranks: (T, T) -> int, t: Tree<T>)
    requires TotalPreorder(ranks) && t.Node? && t.left.Node? && t.right.Node?
    ensures var r := Pop(ranks, t);
      r.Node? && (r.data == t.left.data || r.data == t.right.data) &&
      !OutRanks(ranks, t.left.data, r.data) && !OutRanks(ranks, t.right.data, r.data) &&
      (OutRanks(ranks, t.left.data, t.right.data) ==> r.data == t.left.data && r.right == t.right) &&
      (!OutRanks(ranks, t.left.data, t.right.data) ==> r.data == t.right.data && r.left == t.left)
  {
    assert !OutRanks(ranks, t.left.data, t.left.data) && !OutRanks(ranks, t.right.data, t.right.data);
  }

  lemma PopRefines<T(!new)>(ranks: (T, T) -> int, t: Tree<T>)
    requires TotalPreorder(ranks) && IsHeap(ranks, t) && t.Node?
    ensures IsHeap(ranks, Pop(ranks, t))
    ensures Elems(t) == Elems(Pop(ranks, t)) + multiset{t.data}
    ensures forall x :: x in Elems(t) ==> !OutRanks(ranks, x, t.data)
  {
    PopElems(ranks, t);
    PopOrdered(ranks, t);
    forall x | x in Elems(t) ensures !OutRanks(ranks, x, t.data) {
      RootIsHighest(ranks, t, x);
    }
  }

  // ---------- Remove ----------

  lemma {:induction false} RemoveOccurrences<T(!new)>(ranks: (T, T) -> int, t: Tree<T>, d: T, r: Tree<T>, x: T)
    requires Remove(ranks, t, d) == Some(r)
    ensures Elems(t)[x] == Elems(r)[x] + multiset{d}[x]
  {
    if t.data == d {
      PopElems(ranks, t);
    } else if Remove(ranks, t.left, d).Some? {
      RemoveOccurrences(ranks, t.left, d, r.left, x);
    } else {
      RemoveOccurrences(ranks, t.right, d, r.right, x);
    }
  }

  lemma RemoveElems<T(!new)>(ranks: (T, T) -> int, t: Tree<T>, d: T, r: Tree<T>)
    requires Remove(ranks, t, d) == Some(r)
    ensures Elems(t) == Elems(r) + multiset{d}
  {
    forall x { RemoveOccurrences(ranks, t, d, r, x); }
  }

  lemma {:induction false} RemoveSizes<T(!new)>(ranks: (T, T) -> int, t: Tree<T>, d: T, r: Tree<T>)
    requires Remove(ranks, t, d) == Some(r) && SizesExact(t)
    ensures SizesExact(r) && Count(t) == Count(r) + 1
  {
    if t.data == d {
      PopElems(ranks, t);
    } else if Remove(ranks, t.left, d).Some? {
      RemoveSizes(ranks, t.left, d, r.left);
    } else {
      RemoveSizes(ranks, t.right, d, r.right);
    }
  }

  // The pruning of whole subtrees by rank never loses the element searched for.
  lemma {:induction false} RemoveFinds<T(!new)>(ranks: (T, T) -> int, t: Tree<T>, d: T)
    requires TotalPreorder(ranks) && Ordered(ranks, t)
    ensures Remove(ranks, t, d).Some? <==> d in Elems(t)
  {
    if t.Node? {
      RemoveFinds(ranks, t.left, d);
      RemoveFinds(ranks, t.right, d);
      if d in Elems(t) {
        RootIsHighest(ranks, t, d);
      }
    }
  }

  ghost predicate HoldsRank<T(!new)>(ranks: (T, T) -> int, t: Tree<T>, d: T) {
    exists x :: x in Elems(t) && !OutRanks(ranks, x, d) && !OutRanks(ranks, d, x)
  }

  // LocHeap.h says that remove finds a node that ranks the same as its argument. It does so exactly
  // when the heap holds the argument itself, or nothing of its rank.
  lemma RemoveFindsRankIff<T(!new)>(ranks: (T, T) -> int, t: Tree<T>, d: T)
    requires TotalPreorder(ranks) && Ordered(ranks, t)
    ensures (Remove(ranks, t, d).Some? <==> HoldsRank(ranks, t, d)) <==> d in Elems(t) || !HoldsRank(ranks, t, d)
  {
    RemoveFinds(ranks, t, d);
    assert OutRanks(ranks, d, d) ==> !OutRanks(ranks, d, d);
  }

  lemma {:induction false} RemoveOrdered<T(!new)>(ranks: (T, T) -> int, t: Tree<T>, d: T, r: Tree<T>)
    requires TotalPreorder(ranks) && Ordered(ranks, t) && Remove(ranks, t, d) == Some(r)
    ensures Ordered(ranks, r) && (r.Node? ==> !OutRanks(ranks, r.data, t.data))
  {
    if t.data == d {
      PopOrdered(ranks, t);
    } else if Remove(ranks, t.left, d).Some? {
      RemoveOrdered(ranks, t.left, d, r.left);
    } else {
      RemoveOrdered(ranks, t.right, d, r.right);
    }
  }

  // Below the top, only the subtree in which the object is found changes, the left one if it is in both.
  lemma RemoveFromOneSide<T(!new)>(ranks: (T, T) -> int, t: Tree<T>, d: T, r: Tree<T>)
    requires TotalPreorder(ranks) && Ordered(ranks, t) && Remove(ranks, t, d) == Some(r) && t.data != d
    ensures r.Node? && if d in Elems(t.left) then r.right == t.right else r.left == t.left
  {
    RemoveFinds(ranks, t.left, d);
  }

  lemma RemoveKeepsRoot<T(!new)>(ranks: (T, T) -> int, t: Tree<T>, d: T, r: Tree<T>)
    requires Remove(ranks, t, d) == Some(r) && t.data != d
    ensures r.Node? && r.data == t.data
  {
  }

  // With RemoveFinds: remove takes out exactly the object asked for, and finds it whenever it is there.
  lemma RemoveRefines<T(!new)>(ranks: (T, T) -> int, t: Tree<T>, d: T, r: Tree<T>)
    requires TotalPreorder(ranks) && IsHeap(ranks, t) && Remove(ranks, t, d) == Some(r)
    ensures IsHeap(ranks, r) && Elems(t) == Elems(r) + multiset{d}
  {
    RemoveElems(ranks, t, d, r);
    RemoveSizes(ranks, t, d, r);
    RemoveOrdered(ranks, t, d, r);
  }

  // ---------- Whole runs ----------

  datatype Op<+T> = PushOp(d: T) | PopOp | RemoveOp(d: T)

  // The tree, and everything that was put in and taken out so far.
  datatype History<T> = History(tree: Tree<T>, pushed: multiset<T>, taken: multiset<T>)

  ghost predicate Conserves<T(!new)>(ranks: (T, T) -> int, h: History<T>) {
    IsHeap(ranks, h.tree) && Elems(h.tree) + h.taken == h.pushed
  }

  ghost function Step<T(!new)>(ranks: (T, T) -> int, h: History<T>, op: Op<T>): History<T> {
    match op
    case PushOp(d) => h.(tree := Push(ranks, h.tree, d), pushed := h.pushed + multiset{d})
    case PopOp =>
      if h.tree.Empty? then h
      else h.(tree := Pop(ranks, h.tree), taken := h.taken + multiset{h.tree.data})
    case RemoveOp(d) =>
      match Remove(ranks, h.tree, d)
      case Some(t') => h.(tree := t', taken := h.taken + multiset{d})
      case None => h
  }

  lemma StepConserves<T(!new)>(ranks: (T, T) -> int, h: History<T>, op: Op<T>)
    requires TotalPreorder(ranks) && Conserves(ranks, h)
    ensures Conserves(ranks, Step(ranks, h, op))
  {
    match op
    case PushOp(d) => PushRefines(ranks, h.tree, d);
    case PopOp => if h.tree.Node? { PopRefines(ranks, h.tree); }
    case RemoveOp(d) =>
      match Remove(ranks, h.tree, d)
      case Some(t') => RemoveRefines(ranks, h.tree, d, t');
      case None =>
  }

  ghost function Run<T(!new)>(ranks: (T, T) -> int, ops: seq<Op<T>>): History<T> {
    if ops == [] then History(Empty, multiset{}, multiset{})
    else Step(ranks, Run(ranks, ops[..|ops| - 1]), ops[|ops| - 1])
  }

  // After any sequence of operations the heap is a heap, and nothing was lost or invented.
  lemma {:induction false} RunConserves<T(!new)>(ranks: (T, T) -> int, ops: seq<Op<T>>)
    requires TotalPreorder(ranks)
    ensures Conserves(ranks, Run(ranks, ops))
  {
    if ops != [] {
      RunConserves(ranks, ops[..|ops| - 1]);
      StepConserves(ranks, Run(ranks, ops[..|ops| - 1]), ops[|ops| - 1]);
    }
  }

  // LocHeap::getTreeSize
  function TreeSize<T>(t: Tree<T>): int {
    if t.Empty? then 0 else t.size
  }

  // The size kept at the top is the number of elements put in less the number taken out.
  lemma RunSize<T(!new)>(ranks: (T, T) -> int, ops: seq<Op<T>>)
    requires TotalPreorder(ranks)
    ensures var h := Run(ranks, ops); TreeSize(h.tree) == |h.pushed| - |h.taken|
  {
    var h := Run(ranks, ops);
    RunConserves(ranks, ops);
    CountIsCardinality(h.tree);
    assert |Elems(h.tree) + h.taken| == |Elems(h.tree)| + |h.taken|;
  }

  // The elements in the order in which repeated pops deliver them.
  ghost function Drain<T(!new)>(ranks: (T, T) -> int, t: Tree<T>): seq<T>
    decreases Count(t)
  {
    if t.Empty? then [] else
    PopElems(ranks, t);
    [t.data] + Drain(ranks, Pop(ranks, t))
  }

  lemma {:induction false} DrainKeeps<T(!new)>(ranks: (T, T) -> int, t: Tree<T>)
    ensures multiset(Drain(ranks, t)) == Elems(t)
    decreases Count(t)
  {
    if t.Node? {
      PopElems(ranks, t);
      DrainKeeps(ranks, Pop(ranks, t));
    }
  }

  // What is delivered later was below the top.
  lemma DrainedBelowTop<T(!new)>(ranks: (T, T) -> int, t: Tree<T>, j: nat)
    requires TotalPreorder(ranks) && Ordered(ranks, t) && t.Node? && j < |Drain(ranks, Pop(ranks, t))|
    ensures !OutRanks(ranks, Drain(ranks, Pop(ranks, t))[j], t.data)
  {
    var rest := Drain(ranks, Pop(ranks, t));
    DrainKeeps(ranks, Pop(ranks, t));
    PopContents(ranks, t);
    assert rest[j] in multiset(rest);
    RootIsHighest(ranks, t, rest[j]);
  }

  // Popping until the heap is empty delivers its contents in rank order.
  lemma {:induction false} DrainSorts<T(!new)>(ranks: (T, T) -> int, t: Tree<T>, i: nat, j: nat)
    requires TotalPreorder(ranks) && Ordered(ranks, t) && i < j < |Drain(ranks, t)|
    ensures !OutRanks(ranks, Drain(ranks, t)[j], Drain(ranks, t)[i])
    decreases i
  {
    assert Drain(ranks, t) == [t.data] + Drain(ranks, Pop(ranks, t));
    if i == 0 {
      DrainedBelowTop(ranks, t, j - 1);
    } else {
      PopOrdered(ranks, t);
      DrainSorts(ranks, Pop(ranks, t), i - 1, j - 1);
    }
  }

  // ---------- Balance ----------

  ghost function Height<T>(t: Tree<T>): nat {
    if t.Empty? then 0
    else 1 + if Height(t.left) > Height(t.right) then Height(t.left) else Height(t.right)
  }

  ghost predicate Balanced<T>(t: Tree<T>) {
    t.Node? ==> 0 <= Count(t.left) - Count(t.right) <= 1 && Balanced(t.left) && Balanced(t.right)
  }

  ghost function PushAll<T(!new)>(ranks: (T, T) -> int, ds: seq<T>): Tree<T> {
    if ds == [] then Empty else Push(ranks, PushAll(ranks, ds[..|ds| - 1]), ds[|ds| - 1])
  }

  lemma {:induction false} PushBalanced<T(!new)>(ranks: (T, T) -> int, t: Tree<T>, d: T)
    requires SizesExact(t) && Balanced(t)
    ensures Balanced(Push(ranks, t, d))
  {
    if t.Node? {
      var lo := if OutRanks(ranks, d, t.data) then t.data else d;
      if t.left.Node? && (t.right.Empty? || t.right.size < t.left.size) {
        PushSizes(ranks, t.right, lo);
        PushBalanced(ranks, t.right, lo);
      } else {
        PushSizes(ranks, t.left, lo);
        PushBalanced(ranks, t.left, lo);
      }
    }
  }

  ghost function Pow2(n: nat): nat {
    if n == 0 then 1 else 2 * Pow2(n - 1)
  }

  lemma {:induction false} Pow2Monotone(m: nat, n: nat)
    requires m <= n
    ensures Pow2(m) <= Pow2(n)
    decreases n - m
  {
    if m < n { Pow2Monotone(m + 1, n); }
  }

  // With l nodes below height hl and r or r + 1 of them, the right subtree is no higher.
  lemma LeftIsHigher(l: nat, hl: nat, r: nat, hr: nat)
    requires r <= l < Pow2(hl) && (hr > 0 ==> Pow2(hr - 1) <= r)
    ensures hr <= hl
  {
    if hr > hl {
      Pow2Monotone(hl, hr - 1);
      assert false;
    }
  }

  lemma {:induction false} BalancedHeight<T>(t: Tree<T>)
    requires Balanced(t)
    ensures Count(t) < Pow2(Height(t)) && (t.Node? ==> Pow2(Height(t) - 1) <= Count(t))
  {
    if t.Node? {
      var l, r, hl, hr := Count(t.left), Count(t.right), Height(t.left), Height(t.right);
      BalancedHeight(t.left);
      BalancedHeight(t.right);
      LeftIsHigher(l, hl, r, hr);
      Pow2Monotone(hr, hl);
      assert Height(t) == 1 + hl && Pow2(1 + hl) == 2 * Pow2(hl);
      assert hl > 0 ==> Pow2(hl) == 2 * Pow2(hl - 1);
    }
  }

  lemma {:induction false} PushesBuildBalanced<T(!new)>(ranks: (T, T) -> int, ds: seq<T>)
    ensures var t := PushAll(ranks, ds); SizesExact(t) && Balanced(t) && Count(t) == |ds|
  {
    if ds != [] {
      PushesBuildBalanced(ranks, ds[..|ds| - 1]);
      var t := PushAll(ranks, ds[..|ds| - 1]);
      PushSizes(ranks, t, ds[|ds| - 1]);
      PushBalanced(ranks, t, ds[|ds| - 1]);
    }
  }

  // A heap built by pushes alone is as low as a binary tree of its size can be.
  lemma PushesBuildLow<T(!new)>(ranks: (T, T) -> int, ds: seq<T>)
    requires ds != []
    ensures var h := Height(PushAll(ranks, ds)); h >= 1 && Pow2(h - 1) <= |ds| < Pow2(h)
  {
    PushesBuildBalanced(ranks, ds);
    BalancedHeight(PushAll(ranks, ds));
  }
}
