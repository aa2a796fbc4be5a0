/** The doubly linked list of gps/utils/linked_list.c, relinked in place. */
module LinkedList {
  // A data pointer; 0 is NULL.
  type Pointer = nat
  const NULL: Pointer := 0

  datatype ListError = Success | FailureGeneral | InvalidParameter | UnavailableResource

  // What an element carries: its data and whether a dealloc function came with it.
  datatype Item = Item(data: Pointer, dealloc: bool)

  class ListElement {
    var next: ListElement?
    var prev: ListElement?
    var dataPtr: Pointer
    var dealloc: bool
    ghost var Freed: bool

    constructor (data: Pointer, dealloc: bool)
      ensures next == null && prev == null && Payload() == Item(data, dealloc) && !Freed
    {
      next, prev, dataPtr, this.dealloc, Freed := null, null, data, dealloc, false;
    }

    function Payload(): Item
      reads this
    {
      Item(dataPtr, dealloc)
    }

    // A use of the pointer: never after free().
    function Deref(): ListElement
      requires !Freed
      reads this`Freed
    {
      this
    }

    method Dispose()
      requires !Freed
      modifies this`prev, this`next, this`Freed
      ensures Freed
    {
      Deref().prev, Deref().next := null, null;
      Free();
    }

    // free(): only once.
    ghost method Free()
      requires !Freed
      modifies this`Freed
      ensures Freed
    {
      Freed := true;
    }
  }

  // Index of the first item that satisfies equal, or the length of the list.
  function FirstMatch(s: seq<Item>, equal: Pointer -> bool): (k: nat)
    ensures k <= |s| && (k < |s| ==> equal(s[k].data))
    ensures forall i :: 0 <= i < k ==> !equal(s[i].data)
  {
    if s == [] || equal(s[0].data) then 0 else 1 + FirstMatch(s[1..], equal)
  }

  lemma {:induction false} FirstMatchIs(s: seq<Item>, equal: Pointer -> bool, k: nat)
    requires k <= |s| && (k < |s| ==> equal(s[k].data))
    requires forall i :: 0 <= i < k ==> !equal(s[i].data)
    ensures FirstMatch(s, equal) == k
  {
    if k > 0 {
      FirstMatchIs(s[1..], equal, k - 1);
    }
  }

  // The data pointers that come with a dealloc function, in order.
  function WithDealloc(s: seq<Item>): seq<Pointer> {
    if s == [] then []
    else (if s[0].dealloc then [s[0].data] else []) + WithDealloc(s[1..])
  }

  // Exactly the data of the items that came with a dealloc function, item by item in order.
  lemma {:induction false} WithDeallocIs(s: seq<Item>, x: Item)
    ensures WithDealloc([]) == []
    ensures WithDealloc(s + [x]) == WithDealloc(s) + if x.dealloc then [x.data] else []
  {
    var last := if x.dealloc then [x.data] else [];
    if s == [] {
      assert [] + [x] == [x] && WithDealloc([x][1..]) == [];
    } else {
      var head, rest := if s[0].dealloc then [s[0].data] else [], WithDealloc(s[1..]);
      assert (s + [x])[1..] == s[1..] + [x];
      WithDeallocIs(s[1..], x);
      assert head + (rest + last) == (head + rest) + last;
    }
  }

  lemma DischargeStep(done: seq<Pointer>, all: seq<Item>, k: nat)
    requires k < |all|
    ensures done + WithDealloc(all[k..]) ==
      (done + if all[k].dealloc then [all[k].data] else []) + WithDealloc(all[k + 1..])
  {
    assert all[k..][1..] == all[k + 1..];
    assert done + ([all[k].data] + WithDealloc(all[k + 1..])) == (done + [all[k].data]) + WithDealloc(all[k + 1..]);
  }

  ghost predicate NextChain(ns: seq<ListElement>)
    reads ns`next
  {
    forall i {:trigger ns[i].next} :: 0 <= i < |ns| ==> ns[i].next == if i + 1 < |ns| then ns[i + 1] else null
  }

  ghost predicate PrevChain(ns: seq<ListElement>)
    reads ns`prev
  {
    forall i {:trigger ns[i].prev} :: 0 <= i < |ns| ==> ns[i].prev == if i > 0 then ns[i - 1] else null
  }

  ghost predicate Distinct(ns: seq<ListElement>) {
    forall i, j :: 0 <= i < j < |ns| ==> ns[i] != ns[j]
  }

  ghost function Without(ns: seq<ListElement>, k: nat): seq<ListElement>
    requires k < |ns|
  {
    ns[..k] + ns[k + 1..]
  }

  lemma WithoutIsDistinct(ns: seq<ListElement>, k: nat)
    requires k < |ns| && Distinct(ns)
    ensures Distinct(Without(ns, k)) && ns[k] !in Without(ns, k)
    ensures forall n :: n in Without(ns, k) ==> n in ns
  {
  }

  class List {
    var pHead: ListElement?
    var pTail: ListElement?
    ghost var Nodes: seq<ListElement>

    ghost predicate Valid()
      reads this, Nodes
    {
      pHead == (if Nodes == [] then null else Nodes[0]) &&
      pTail == (if Nodes == [] then null else Nodes[|Nodes| - 1]) &&
      NextChain(Nodes) && PrevChain(Nodes) && Distinct(Nodes) &&
      forall i :: 0 <= i < |Nodes| ==> !Nodes[i].Freed
    }

    // From head to tail.
    ghost function Contents(): (s: seq<Item>)
      reads this, Nodes
      ensures |s| == |Nodes|
    {
      seq(|Nodes|, i requires 0 <= i < |Nodes| reads this, Nodes => Nodes[i].Payload())
    }

    constructor ()
      ensures Valid() && Contents() == [] && Nodes == []
    {
      pHead, pTail, Nodes := null, null, [];
    }

    // linked_list_add; mallocOk says whether malloc succeeds.
    method Add(data: Pointer, dealloc: bool, mallocOk: bool) returns (rv: ListError)
      requires Valid()
      modifies this, Nodes
      ensures Valid() && fresh(set n | n in Nodes && n !in old(Nodes))
      ensures rv == if data == NULL then InvalidParameter else if !mallocOk then FailureGeneral else Success
      ensures Contents() == if rv.Success? then [Item(data, dealloc)] + old(Contents()) else old(Contents())
    {
      if data == NULL {
        return InvalidParameter;
      }
      if !mallocOk {
        return FailureGeneral;
      }
      var elem := new ListElement(data, dealloc);
      var tmp := pHead;
      pHead := elem;
      pHead.next := tmp;
      if tmp != null {
        tmp.Deref().prev := pHead;
      } else {
        pTail := pHead;
      }
      ghost var older := Nodes;
      Nodes := [elem] + older;
      assert forall i :: 1 <= i < |Nodes| ==> Nodes[i] == older[i - 1];
      assert NextChain(Nodes);
      assert PrevChain(Nodes);
      return Success;
    }

    // linked_list_remove: takes the tail, the oldest element.
    method Remove() returns (rv: ListError, data: Pointer)
      requires Valid()
      modifies this, Nodes
      ensures Valid() && (old(Nodes) != [] ==>
        Nodes == old(Nodes)[..|old(Nodes)| - 1] && old(Nodes)[|old(Nodes)| - 1].Freed)
      ensures old(Contents()) == [] ==> rv == UnavailableResource && data == NULL && Contents() == []
      ensures old(Contents()) != [] ==>
        rv == Success && data == old(Contents())[|old(Contents())| - 1].data &&
        Contents() == old(Contents())[..|old(Contents())| - 1]
    {
      data := NULL;
      if pTail == null {
        return UnavailableResource, data;
      }
      var tmp := pTail;
      pTail := tmp.Deref().prev;
      if pTail != null {
        pTail.Deref().next := null;
      } else {
        pHead := pTail;
      }
      data := tmp.Deref().dataPtr;
      tmp.Free();
      Nodes := Nodes[..|Nodes| - 1];
      return Success, data;
    }

    method Empty() returns (e: bool)
      requires Valid()
      ensures e <==> Contents() == []
    {
      return pHead == null;
    }

    // linked_list_flush: discharged lists the data handed to dealloc functions, newest first.
    method Flush() returns (discharged: seq<Pointer>)
      requires Valid()
      modifies this, Nodes
      ensures Valid() && Contents() == [] && discharged == WithDealloc(old(Contents()))
      ensures forall n :: n in old(Nodes) ==> n.Freed
    {
      ghost var all := Contents();
      discharged := FlushElements(all);
      pTail := null;
      Nodes := [];
    }

    // The loop of linked_list_flush.
    method FlushElements(ghost all: seq<Item>) returns (discharged: seq<Pointer>)
      requires |Nodes| == |all| && HeldFrom(0, all)
      modifies this`pHead, Nodes`Freed
      ensures discharged == WithDealloc(all) && pHead == null
      ensures forall i :: 0 <= i < |Nodes| ==> Nodes[i].Freed
    {
      discharged := [];
      ghost var k := 0;
      while pHead != null
        invariant 0 <= k <= |Nodes| && HeldFrom(k, all)
        invariant forall i :: 0 <= i < k ==> Nodes[i].Freed
        invariant discharged + WithDealloc(all[k..]) == WithDealloc(all)
        decreases |Nodes| - k
      {
        DischargeStep(discharged, all, k);
        var one := FlushHead(k, all);
        discharged := discharged + one;
        k := k + 1;
      }
    }

    // One iteration: the head is discharged and freed, and its successor becomes the head.
    method FlushHead(ghost k: nat, ghost all: seq<Item>) returns (discharged: seq<Pointer>)
      requires k < |Nodes| == |all| && HeldFrom(k, all)
      modifies this`pHead, Nodes[k..k + 1]`Freed
      ensures HeldFrom(k + 1, all) && Nodes[k].Freed
      ensures discharged == if all[k].dealloc then [all[k].data] else []
    {
      var tmp := pHead.Deref().next;
      assert pHead.Payload() == all[k];
      discharged := [];
      if pHead.Deref().dealloc {
        discharged := [pHead.Deref().dataPtr];
      }
      pHead.Free();
      pHead := tmp;
    }

    // The elements from k on are linked and hold the items of all; the head is the first of them.
    ghost predicate HeldFrom(k: nat, all: seq<Item>)
      requires k <= |Nodes| == |all|
      reads this`pHead, this`Nodes, Nodes
    {
      pHead == (if k < |Nodes| then Nodes[k] else null) && Distinct(Nodes) &&
      (forall i :: k <= i < |Nodes| ==> !Nodes[i].Freed && Nodes[i].Payload() == all[i]) &&
      forall i {:trigger Nodes[i].next} :: k <= i < |Nodes| ==>
        Nodes[i].next == if i + 1 < |Nodes| then Nodes[i + 1] else null
    }

    // linked_list_search; wanted says whether the caller passed a data_p, whose value is then data.
    method Search(equal: Pointer -> bool, wanted: bool, rmIfFound: bool)
      returns (rv: ListError, data: Pointer, discharged: seq<Pointer>)
      requires Valid()
      modifies this, Nodes
      ensures Valid()
      ensures var s, k := old(Contents()), FirstMatch(old(Contents()), equal);
        (rv == if s == [] then UnavailableResource else Success) &&
        (data == if wanted && k < |s| then s[k].data else NULL) &&
        Contents() == (if rmIfFound && k < |s| then s[..k] + s[k + 1..] else s) &&
        discharged == (if rmIfFound && k < |s| && !wanted && s[k].dealloc then [s[k].data] else []) &&
        Nodes == (if rmIfFound && k < |s| then Without(old(Nodes), k) else old(Nodes)) &&
        (rmIfFound && k < |s| ==> old(Nodes)[k].Freed)
    {
      data, discharged := NULL, [];
      if pTail == null {
        return UnavailableResource, data, discharged;
      }
      var tmp := pHead;
      ghost var i := 0;
      while tmp != null
        invariant Valid() && Nodes == old(Nodes) && Contents() == old(Contents())
        invariant 0 <= i <= |Nodes| && tmp == if i < |Nodes| then Nodes[i] else null
        invariant forall j :: 0 <= j < i ==> !equal(Contents()[j].data)
        decreases |Nodes| - i
      {
        if equal(tmp.Deref().dataPtr) {
          FirstMatchIs(Contents(), equal, i);
          data, discharged := HandOut(tmp, i, wanted, rmIfFound);
          return Success, data, discharged;
        }
        tmp := tmp.Deref().next;
        i := i + 1;
      }
      FirstMatchIs(Contents(), equal, |Nodes|);
      return Success, data, discharged;
    }

    // What linked_list_search does with the element it has found.
    method HandOut(tmp: ListElement, ghost k: nat, wanted: bool, rmIfFound: bool)
      returns (data: Pointer, discharged: seq<Pointer>)
      requires Valid() && k < |Nodes| && Nodes[k] == tmp
      modifies this, Nodes
      ensures Valid() && data == if wanted then old(tmp.dataPtr) else NULL
      ensures discharged == if rmIfFound && !wanted && old(tmp.dealloc) then [old(tmp.dataPtr)] else []
      ensures Nodes == if rmIfFound then Without(old(Nodes), k) else old(Nodes)
      ensures Contents() == if rmIfFound then old(Contents()[..k] + Contents()[k + 1..]) else old(Contents())
      ensures rmIfFound ==> tmp.Freed
    {
      data, discharged := NULL, [];
      if wanted {
        data := tmp.Deref().dataPtr;
      }
      if rmIfFound {
        if !wanted && tmp.Deref().dealloc {
          discharged := [tmp.Deref().dataPtr];
        }
        Unlink(tmp, k);
        assert Contents() == old(Contents())[..k] + old(Contents())[k + 1..];
      }
    }

    // The relinking in linked_list_search, and the end of the element.
    method Unlink(tmp: ListElement, ghost k: nat)
      requires Valid() && k < |Nodes| && Nodes[k] == tmp
      modifies this, Nodes
      ensures Valid() && Nodes == Without(old(Nodes), k) && tmp.Freed
      ensures forall n :: n in old(Nodes) ==> n.dataPtr == old(n.dataPtr) && n.dealloc == old(n.dealloc)
    {
      ghost var rest := Without(Nodes, k);
      WithoutIsDistinct(Nodes, k);
      assert forall i :: 0 <= i < |rest| ==> !rest[i].Freed;
      Bypass(tmp, k);
      Nodes := rest;
      tmp.Dispose();
    }

    method Bypass(tmp: ListElement, ghost k: nat)
      requires Valid() && k < |Nodes| && Nodes[k] == tmp
      modifies this`pHead, this`pTail, Nodes`next, Nodes`prev
      ensures NextChain(Without(Nodes, k)) && PrevChain(Without(Nodes, k))
      ensures pHead == if |Nodes| == 1 then null else Without(Nodes, k)[0]
      ensures pTail == if |Nodes| == 1 then null else Without(Nodes, k)[|Nodes| - 2]
    {
      BypassForward(tmp, k);
      BypassBackward(tmp, k);
    }

    // The predecessor of tmp, or the head pointer, moves on to tmp's successor.
    method BypassForward(tmp: ListElement, ghost k: nat)
      requires Valid() && k < |Nodes| && Nodes[k] == tmp
      modifies this`pHead, Nodes`next
      ensures tmp.next == old(tmp.next) && NextChain(Without(Nodes, k))
      ensures pHead == if |Nodes| == 1 then null else Without(Nodes, k)[0]
    {
      if tmp.Deref().prev == null {
        pHead := tmp.Deref().next;
      } else {
        tmp.Deref().prev.Deref().next := tmp.Deref().next;
      }
    }

    // The successor of tmp, or the tail pointer, moves back to tmp's predecessor.
    method BypassBackward(tmp: ListElement, ghost k: nat)
      requires k < |Nodes| && Nodes[k] == tmp && PrevChain(Nodes) && Distinct(Nodes)
      requires tmp.next == if k + 1 < |Nodes| then Nodes[k + 1] else null
      requires pTail == Nodes[|Nodes| - 1] && forall i :: 0 <= i < |Nodes| ==> !Nodes[i].Freed
      modifies this`pTail, Nodes`prev
      ensures PrevChain(Without(Nodes, k))
      ensures pTail == if |Nodes| == 1 then null else Without(Nodes, k)[|Nodes| - 2]
    {
      if tmp.Deref().next == null {
        pTail := tmp.Deref().prev;
      } else {
        tmp.Deref().next.Deref().prev := tmp.Deref().prev;
      }
    }
  }
}
