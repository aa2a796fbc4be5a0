/** The pointer heap itself: nodes that swap data, updated in place, as in gps/utils/LocHeap.cpp.
    Each method is proved against the tree function of the same name. */
module LocHeap {
  import opened Options
  import opened HeapTree

  class LocHeapNode<T(!new, ==)> {
    var mSize: int
    var mLeft: LocHeapNode?<T>
    var mRight: LocHeapNode?<T>
    var mData: T

    ghost var Repr: set<LocHeapNode<T>>
    ghost var Model: Tree<T>

    ghost predicate Valid()
      reads this, Repr
      ensures Valid() ==> this in Repr && Model.Node? && Model.data == mData && Model.size == mSize
    {
      this in Repr &&
      (mLeft != null ==> mLeft in Repr && mLeft.Repr <= Repr - {this} && mLeft.Valid()) &&
      (mRight != null ==> mRight in Repr && mRight.Repr <= Repr - {this} && mRight.Valid()) &&
      (mLeft != null && mRight != null ==> mLeft.Repr !! mRight.Repr) &&
      Model == Node(mSize, mData, ModelOf(mLeft), ModelOf(mRight))
    }

    constructor (data: T)
      ensures Valid() && IsSingle() && mData == data
    {
      mSize, mLeft, mRight, mData := 1, null, null, data;
      Repr, Model := {this}, Node(1, data, Empty, Empty);
    }

    ghost predicate IsSingle()
      reads this
    {
      mLeft == null && mRight == null && mSize == 1 && Repr == {this} && Model == Node(1, mData, Empty, Empty)
    }

    // Exchanges the data of a tree's top and of a node outside the tree; no link changes.
    method Swap(node: LocHeapNode<T>)
      requires Valid() && node.IsSingle() && node !in Repr
      modifies this`mData, this`Model, node`mData, node`Model
      ensures Valid() && node.IsSingle()
      ensures Model == old(Model).(data := old(node.mData)) && node.mData == old(mData)
    {
      mData, node.mData := node.mData, mData;
      Model, node.Model := Model.(data := mData), node.Model.(data := node.mData);
    }

    method Push(ranks: (T, T) -> int, node: LocHeapNode<T>)
      requires Valid() && node.IsSingle() && node !in Repr
      modifies Repr, node
      ensures Valid() && Repr == old(Repr) + {node}
      ensures Model == HeapTree.Push(ranks, old(Model), old(node.mData))
      decreases Repr, 1
    {
      if OutRanks(ranks, node.mData, mData) {
        Swap(node);
      }
      if mLeft == null {
        AttachLeft(node);
      } else if mRight == null {
        AttachRight(node);
      } else if mLeft.mSize <= mRight.mSize {
        PushLeft(ranks, node);
      } else {
        PushRight(ranks, node);
      }
    }

    method AttachLeft(node: LocHeapNode<T>)
      requires Valid() && node.IsSingle() && node !in Repr && mLeft == null
      modifies this
      ensures Valid() && Repr == old(Repr) + {node}
      ensures Model == Node(old(mSize) + 1, old(mData), Node(1, node.mData, Empty, Empty), old(Model.right))
    {
      mLeft, mSize := node, mSize + 1;
      Repr, Model := Repr + {node}, Node(mSize, mData, node.Model, ModelOf(mRight));
    }

    method AttachRight(node: LocHeapNode<T>)
      requires Valid() && node.IsSingle() && node !in Repr && mRight == null
      modifies this
      ensures Valid() && Repr == old(Repr) + {node}
      ensures Model == Node(old(mSize) + 1, old(mData), old(Model.left), Node(1, node.mData, Empty, Empty))
    {
      mRight, mSize := node, mSize + 1;
      Repr, Model := Repr + {node}, Node(mSize, mData, ModelOf(mLeft), node.Model);
    }

    method PushLeft(ranks: (T, T) -> int, node: LocHeapNode<T>)
      requires Valid() && node.IsSingle() && node !in Repr && mLeft != null
      modifies Repr, node
      ensures Valid() && Repr == old(Repr) + {node}
      ensures Model == Node(old(mSize) + 1, old(mData),
        HeapTree.Push(ranks, old(Model.left), old(node.mData)), old(Model.right))
      decreases Repr, 0
    {
      mLeft.Push(ranks, node);
      mSize := mSize + 1;
      Repr, Model := Repr + {node}, Node(mSize, mData, mLeft.Model, ModelOf(mRight));
    }

    method PushRight(ranks: (T, T) -> int, node: LocHeapNode<T>)
      requires Valid() && node.IsSingle() && node !in Repr && mRight != null
      modifies Repr, node
      ensures Valid() && Repr == old(Repr) + {node}
      ensures Model == Node(old(mSize) + 1, old(mData),
        old(Model.left), HeapTree.Push(ranks, old(Model.right), old(node.mData)))
      decreases Repr, 0
    {
      mRight.Push(ranks, node);
      mSize := mSize + 1;
      Repr, Model := Repr + {node}, Node(mSize, mData, ModelOf(mLeft), mRight.Model);
    }

    // The popped node is always a leaf, whose deletion takes nothing else with it; rest is what the
    // caller's pointer to top becomes.
    static method Pop(ranks: (T, T) -> int, top: LocHeapNode<T>)
      returns (popped: LocHeapNode<T>, rest: LocHeapNode?<T>)
      requires top.Valid()
      modifies top.Repr
      ensures popped in old(top.Repr) && popped.mLeft == null && popped.mRight == null
      ensures popped.mData == old(top.mData)
      ensures ModelOf(rest) == HeapTree.Pop(ranks, old(top.Model))
      ensures rest != null ==> rest == top && top.Valid() && top.Repr == old(top.Repr) - {popped}
      decreases top.Repr, 1
    {
      if top.mLeft == null && top.mRight == null {
        top.mSize := top.mSize - 1;
        return top, null;
      }
      if top.mLeft != null && (top.mRight == null || OutRanks(ranks, top.mLeft.mData, top.mRight.mData)) {
        popped := top.PopLeft(ranks);
      } else {
        popped := top.PopRight(ranks);
      }
      rest := top;
    }

    method SwapWithLeft()
      requires Valid() && mLeft != null
      modifies this, mLeft
      ensures Valid() && mLeft == old(mLeft) && mRight == old(mRight) && Repr == old(Repr)
      ensures mLeft.mData == old(mData)
      ensures Model == old(Model).(data := old(Model.left.data), left := old(Model.left).(data := old(mData)))
    {
      mData, mLeft.mData := mLeft.mData, mData;
      mLeft.Model := mLeft.Model.(data := mLeft.mData);
      Model := Model.(data := mData, left := mLeft.Model);
    }

    method SwapWithRight()
      requires Valid() && mRight != null
      modifies this, mRight
      ensures Valid() && mLeft == old(mLeft) && mRight == old(mRight) && Repr == old(Repr)
      ensures mRight.mData == old(mData)
      ensures Model == old(Model).(data := old(Model.right.data), right := old(Model.right).(data := old(mData)))
    {
      mData, mRight.mData := mRight.mData, mData;
      mRight.Model := mRight.Model.(data := mRight.mData);
      Model := Model.(data := mData, right := mRight.Model);
    }

    // The left child's data comes up, the old data goes all the way down to the popped leaf.
    method PopLeft(ranks: (T, T) -> int) returns (popped: LocHeapNode<T>)
      requires Valid() && mLeft != null
      modifies Repr
      ensures popped in old(Repr) && popped.mLeft == null && popped.mRight == null && popped.mData == old(mData)
      ensures Valid() && Repr == old(Repr) - {popped}
      ensures Model ==
        Node(old(mSize) - 1, old(Model.left.data), HeapTree.Pop(ranks, old(Model.left)), old(Model.right))
      decreases Repr, 0
    {
      SwapWithLeft();
      popped, mLeft := Pop(ranks, mLeft);
      mSize := mSize - 1;
      Repr, Model := Repr - {popped}, Node(mSize, mData, ModelOf(mLeft), ModelOf(mRight));
    }

    method PopRight(ranks: (T, T) -> int) returns (popped: LocHeapNode<T>)
      requires Valid() && mRight != null
      modifies Repr
      ensures popped in old(Repr) && popped.mLeft == null && popped.mRight == null && popped.mData == old(mData)
      ensures Valid() && Repr == old(Repr) - {popped}
      ensures Model ==
        Node(old(mSize) - 1, old(Model.right.data), old(Model.left), HeapTree.Pop(ranks, old(Model.right)))
      decreases Repr, 0
    {
      SwapWithRight();
      popped, mRight := Pop(ranks, mRight);
      mSize := mSize - 1;
      Repr, Model := Repr - {popped}, Node(mSize, mData, ModelOf(mLeft), ModelOf(mRight));
    }

    static method Remove(ranks: (T, T) -> int, top: LocHeapNode<T>, data: T)
      returns (removed: LocHeapNode?<T>, rest: LocHeapNode?<T>)
      requires top.Valid()
      modifies top.Repr
      ensures removed == null ==> rest == top && top.Valid() && top.Repr == old(top.Repr)
      ensures removed == null ==> top.Model == old(top.Model) && HeapTree.Remove(ranks, old(top.Model), data) == None
      ensures removed != null ==> removed in old(top.Repr) && removed.mLeft == null && removed.mRight == null
      ensures removed != null ==> removed.mData == data
      ensures removed != null ==> HeapTree.Remove(ranks, old(top.Model), data) == Some(ModelOf(rest))
      ensures removed != null && rest != null ==> rest == top && top.Valid() && top.Repr == old(top.Repr) - {removed}
      decreases top.Repr, 1
    {
      removed, rest := null, top;
      if data == top.mData {
        removed, rest := Pop(ranks, top);
      } else if !OutRanks(ranks, data, top.mData) {
        if top.mLeft != null {
          removed := top.RemoveFromLeft(ranks, data);
        }
        if removed == null && top.mRight != null {
          removed := top.RemoveFromRight(ranks, data);
        }
        if removed != null {
          top.mSize := top.mSize - 1;
          top.Model := top.Model.(size := top.mSize);
        }
      }
    }

    // The link to the left subtree is updated; the caller still has to adjust mSize.
    method RemoveFromLeft(ranks: (T, T) -> int, data: T) returns (removed: LocHeapNode?<T>)
      requires Valid() && mLeft != null
      modifies Repr
      ensures Valid() && Repr == old(Repr) - (if removed == null then {} else {removed})
      ensures removed == null ==> Model == old(Model) && HeapTree.Remove(ranks, old(Model.left), data) == None
      ensures removed != null ==> removed in old(Repr) && removed.mLeft == null && removed.mRight == null
      ensures removed != null ==> removed != this && removed.mData == data
      ensures removed != null ==> HeapTree.Remove(ranks, old(Model.left), data) == Some(Model.left)
      ensures Model == old(Model).(left := Model.left)
      decreases Repr, 0
    {
      removed, mLeft := Remove(ranks, mLeft, data);
      if removed != null {
        Repr, Model := Repr - {removed}, Node(mSize, mData, ModelOf(mLeft), ModelOf(mRight));
      }
    }

    method RemoveFromRight(ranks: (T, T) -> int, data: T) returns (removed: LocHeapNode?<T>)
      requires Valid() && mRight != null
      modifies Repr
      ensures Valid() && Repr == old(Repr) - (if removed == null then {} else {removed})
      ensures removed == null ==> Model == old(Model) && HeapTree.Remove(ranks, old(Model.right), data) == None
      ensures removed != null ==> removed in old(Repr) && removed.mLeft == null && removed.mRight == null
      ensures removed != null ==> removed != this && removed.mData == data
      ensures removed != null ==> HeapTree.Remove(ranks, old(Model.right), data) == Some(Model.right)
      ensures Model == old(Model).(right := Model.right)
      decreases Repr, 0
    {
      removed, mRight := Remove(ranks, mRight, data);
      if removed != null {
        Repr, Model := Repr - {removed}, Node(mSize, mData, ModelOf(mLeft), ModelOf(mRight));
      }
    }

    // True exactly when every size field is right and no child outranks its parent.
    method CheckNodes(ranks: (T, T) -> int) returns (ok: bool)
      requires Valid()
      ensures ok <==> IsHeap(ranks, Model)
      decreases Repr
    {
      var totalSize := mSize;
      if mLeft != null {
        if OutRanks(ranks, mLeft.mData, mData) { return false; }
        var leftOk := mLeft.CheckNodes(ranks);
        if !leftOk { return false; }
        totalSize := totalSize - mLeft.mSize;
      }
      if mRight != null {
        if OutRanks(ranks, mRight.mData, mData) { return false; }
        var rightOk := mRight.CheckNodes(ranks);
        if !rightOk { return false; }
        totalSize := totalSize - mRight.mSize;
      }
      assert IsHeap(ranks, Model.left) && IsHeap(ranks, Model.right);
      assert totalSize == mSize - Count(Model.left) - Count(Model.right);
      return totalSize == 1;
    }
  }

  ghost function ModelOf<T(!new)>(node: LocHeapNode?<T>): Tree<T>
    reads node
  {
    if node == null then Empty else node.Model
  }

  class LocHeap<T(!new, ==)> {
    const ranks: (T, T) -> int
    var mTree: LocHeapNode?<T>

    ghost predicate Valid()
      reads this, mTree, if mTree == null then {} else mTree.Repr
    {
      mTree != null ==> mTree.Valid()
    }

    ghost function Repr(): set<object>
      reads this, mTree
    {
      {this} + if mTree == null then {} else mTree.Repr
    }

    ghost function Tree(): Tree<T>
      reads this, mTree
    {
      ModelOf(mTree)
    }

    constructor (ranks: (T, T) -> int)
      ensures Valid() && fresh(Repr()) && Tree() == Empty && this.ranks == ranks
    {
      this.ranks := ranks;
      mTree := null;
    }

    method Push(data: T)
      requires Valid()
      modifies Repr()
      ensures Valid() && fresh(Repr() - old(Repr()))
      ensures Tree() == HeapTree.Push(ranks, old(Tree()), data)
    {
      var heapNode := new LocHeapNode(data);
      if mTree == null {
        mTree := heapNode;
      } else {
        mTree.Push(ranks, heapNode);
      }
    }

    method Peek() returns (top: Option<T>)
      requires Valid()
      ensures top == if Tree().Empty? then None else Some(Tree().data)
    {
      top := if mTree == null then None else Some(mTree.mData);
    }

    method Pop() returns (data: Option<T>)
      requires Valid()
      modifies Repr()
      ensures Valid() && Repr() <= old(Repr())
      ensures old(Tree()).Empty? ==> data == None && Tree() == Empty
      ensures old(Tree()).Node? ==> data == Some(old(Tree()).data) && Tree() == HeapTree.Pop(ranks, old(Tree()))
    {
      data := None;
      if mTree != null {
        var heapNode;
        heapNode, mTree := LocHeapNode.Pop(ranks, mTree);
        data := Some(heapNode.mData);
      }
    }

    method Remove(data: T) returns (removed: Option<T>)
      requires Valid()
      modifies Repr()
      ensures Valid() && Repr() <= old(Repr())
      ensures match HeapTree.Remove(ranks, old(Tree()), data)
              case Some(t) => removed == Some(data) && Tree() == t
              case None => removed == None && Tree() == old(Tree())
    {
      removed := None;
      if mTree != null {
        var heapNode, rest := LocHeapNode.Remove(ranks, mTree, data);
        mTree := rest;
        if heapNode != null {
          removed := Some(heapNode.mData);
        }
      }
    }
  }
}
