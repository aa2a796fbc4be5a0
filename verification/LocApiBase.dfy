/** The adapter table of gps/core/LocApiBase.cpp. */
module LocApiBase {
  const MAX_ADAPTERS := 10

  // An event mask, as the set of its bits.
  type Mask = set<nat>

  // A LocAdapterBase: the table knows it by reference, and its mask may change while it is registered.
  class Adapter {
    var mEvtMask: Mask

    constructor (mask: Mask)
      ensures mEvtMask == mask
    {
      mEvtMask := mask;
    }

    // The part of LocAdapterBase::updateEvtMask on the adapter; the modem API then gets a new mask.
    method UpdateEvtMask(event: Mask, enabled: bool, mLocApi: LocApi) returns (requests: seq<Request>)
      requires mLocApi.Valid()
      modifies this
      ensures mEvtMask == if enabled then old(mEvtMask) + event else old(mEvtMask) - event
      ensures mLocApi.Valid() && requests == [Open(Union(mLocApi.Table) - mLocApi.mExcludedMask)]
    {
      mEvtMask := if enabled then mEvtMask + event else mEvtMask - event;
      requests := mLocApi.UpdateEvtMask();
    }
  }

  // What the table operations ask of the modem API.
  datatype Request = Open(mask: Mask) | Close

  // ---------- Specification: the table as a sequence ----------

  function Added(s: seq<Adapter>, a: Adapter): seq<Adapter> {
    if a in s || |s| >= MAX_ADAPTERS then s else s + [a]
  }

  function IndexOf(s: seq<Adapter>, a: Adapter): (i: nat)
    requires a in s
    ensures i < |s| && s[i] == a && a !in s[..i]
  {
    if s[0] == a then 0 else 1 + IndexOf(s[1..], a)
  }

  // The last adapter takes the place of the removed one.
  function Removed(s: seq<Adapter>, a: Adapter): seq<Adapter> {
    if a !in s then s else s[IndexOf(s, a) := s[|s| - 1]][..|s| - 1]
  }

  function Union(s: seq<Adapter>): Mask
    reads s
  {
    if s == [] then {} else Union(s[..|s| - 1]) + s[|s| - 1].mEvtMask
  }

  ghost predicate Distinct(s: seq<Adapter>) {
    forall i, j :: 0 <= i < j < |s| ==> s[i] != s[j]
  }

  lemma AddedIs(s: seq<Adapter>, a: Adapter)
    requires Distinct(s) && |s| <= MAX_ADAPTERS
    ensures Distinct(Added(s, a)) && |Added(s, a)| <= MAX_ADAPTERS
    ensures forall x :: x in Added(s, a) <==> x in s || (x == a && |s| < MAX_ADAPTERS)
    ensures s <= Added(s, a)
  {
  }

  // Removal takes out exactly its argument.
  lemma RemovedIs(s: seq<Adapter>, a: Adapter)
    requires Distinct(s)
    ensures Distinct(Removed(s, a)) && (forall x :: x in Removed(s, a) <==> x in s && x != a)
    ensures |Removed(s, a)| == |s| - if a in s then 1 else 0
  {
    if a in s {
      var k, n, r := IndexOf(s, a), |s| - 1, Removed(s, a);
      assert forall i :: 0 <= i < n ==> r[i] == if i == k then s[n] else s[i];
      forall x | x in s && x != a ensures x in r {
        var i :| 0 <= i < |s| && s[i] == x;
        assert r[if i == n then k else i] == x;
      }
    }
  }

  // An event is asked for exactly when some adapter asks for it.
  lemma {:induction false} UnionIs(s: seq<Adapter>, bit: nat)
    ensures bit in Union(s) <==> exists a :: a in s && bit in a.mEvtMask
  {
    if s != [] {
      var n := |s| - 1;
      UnionIs(s[..n], bit);
      assert s == s[..n] + [s[n]];
    }
  }

  // ---------- The class ----------

  class LocApi {
    const mLocAdapters: array<Adapter?>
    const mExcludedMask: Mask
    ghost var Table: seq<Adapter>

    // The adapters are a prefix of the array without holes or duplicates.
    ghost predicate Valid()
      reads this, mLocAdapters
    {
      mLocAdapters.Length == MAX_ADAPTERS && |Table| <= MAX_ADAPTERS && Distinct(Table) &&
      forall i :: 0 <= i < MAX_ADAPTERS ==> mLocAdapters[i] == if i < |Table| then Table[i] else null
    }

    constructor (excludedMask: Mask)
      ensures Valid() && Table == [] && mExcludedMask == excludedMask && fresh(mLocAdapters)
    {
      mLocAdapters := new Adapter?[MAX_ADAPTERS](_ => null);
      mExcludedMask := excludedMask;
      Table := [];
    }

    method GetEvtMask() returns (mask: Mask)
      requires Valid()
      ensures mask == Union(Table) - mExcludedMask
    {
      mask := {};
      var i := 0;
      while i < MAX_ADAPTERS && mLocAdapters[i] != null
        invariant 0 <= i <= |Table| && mask == Union(Table[..i])
      {
        assert Table[..i + 1][..i] == Table[..i];
        mask := mask + mLocAdapters[i].mEvtMask;
        i := i + 1;
      }
      assert Table[..i] == Table;
      mask := mask - mExcludedMask;
    }

    // A broadcast loop: the adapters called, in order.
    method Broadcast() returns (called: seq<Adapter>)
      requires Valid()
      ensures called == Table
    {
      called := [];
      var i := 0;
      while i < MAX_ADAPTERS && mLocAdapters[i] != null
        invariant 0 <= i <= |Table| && called == Table[..i]
      {
        called := called + [mLocAdapters[i]];
        i := i + 1;
      }
    }

    method UpdateEvtMask() returns (requests: seq<Request>)
      requires Valid()
      ensures requests == [Open(Union(Table) - mExcludedMask)]
    {
      var mask := GetEvtMask();
      requests := [Open(mask)];
    }

    method AddAdapter(adapter: Adapter?) returns (requests: seq<Request>)
      requires Valid()
      modifies this, mLocAdapters
      ensures Valid()
      ensures adapter == null ==> Table == old(Table) && requests == []
      ensures adapter != null ==> Table == Added(old(Table), adapter)
      ensures adapter != null ==> requests == if Table == old(Table) then [] else [Open(adapter.mEvtMask)]
    {
      requests := [];
      var i := 0;
      while i < MAX_ADAPTERS && mLocAdapters[i] != adapter
        invariant 0 <= i <= |Table| && Valid() && Table == old(Table) && requests == []
        invariant forall k :: 0 <= k < i ==> Table[k] != adapter
      {
        if mLocAdapters[i] == null {
          mLocAdapters[i] := adapter;
          Table := Table + [adapter];
          requests := [Open(adapter.mEvtMask)];
          return;
        }
        i := i + 1;
      }
    }

    method RemoveAdapter(adapter: Adapter?) returns (requests: seq<Request>)
      requires Valid()
      modifies this, mLocAdapters
      ensures Valid()
      ensures adapter == null ==> Table == old(Table) && requests == []
      ensures adapter != null ==> Table == Removed(old(Table), adapter)
      ensures adapter != null ==>
        requests == if adapter !in old(Table) then []
                    else if Table == [] then [Close] else [Open(Union(Table) - mExcludedMask)]
    {
      requests := [];
      ghost var found := false;
      var i := 0;
      while i < MAX_ADAPTERS && mLocAdapters[i] != null
        invariant 0 <= i <= MAX_ADAPTERS && Valid()
        invariant !found ==> Table == old(Table) && requests == [] && i <= |Table|
        invariant !found ==> forall k :: 0 <= k < i ==> Table[k] != adapter
        invariant found ==> adapter != null && adapter in old(Table) && i == |Table| + 1
        invariant found ==> Table == Removed(old(Table), adapter)
        invariant found ==> requests == if Table == [] then [Close] else [Open(Union(Table) - mExcludedMask)]
        decreases MAX_ADAPTERS - i
      {
        if mLocAdapters[i] == adapter {
          found := true;
          var last := MoveLastTo(i);
          i := last;
          if i == 0 {
            requests := [Close];
          } else {
            var mask := GetEvtMask();
            requests := [Open(mask)];
          }
        }
        i := i + 1;
      }
    }

    // The shift that keeps the array free of holes; the result is where the last adapter was.
    method MoveLastTo(j: nat) returns (i: nat)
      requires Valid() && j < |Table|
      modifies this, mLocAdapters
      ensures Valid() && i == |old(Table)| - 1 && Table == Removed(old(Table), old(Table)[j])
    {
      mLocAdapters[j] := null;
      i := j + 1;
      while i < MAX_ADAPTERS && mLocAdapters[i] != null
        invariant j < i <= |Table| && Table == old(Table)
        invariant forall k :: 0 <= k < MAX_ADAPTERS && k != j ==> mLocAdapters[k] == old(mLocAdapters[k])
      {
        i := i + 1;
      }
      i := i - 1;
      // When the adapter was the last one, this copies the NULL just stored.
      mLocAdapters[j] := mLocAdapters[i];
      mLocAdapters[i] := null;
      RemovedAt(Table, j);
      Table := Removed(Table, Table[j]);
    }
  }

  // The last adapter takes the place of the one removed; the others stay where they are.
  lemma RemovedAt(s: seq<Adapter>, j: nat)
    requires Distinct(s) && j < |s|
    ensures var n, r := |s| - 1, Removed(s, s[j]);
      |r| == n && Distinct(r) && forall k :: 0 <= k < n ==> r[k] == if k == j then s[n] else s[k]
  {
    RemovedIs(s, s[j]);
    IndexIsUnique(s, j);
  }

  lemma IndexIsUnique(s: seq<Adapter>, j: nat)
    requires Distinct(s) && j < |s|
    ensures IndexOf(s, s[j]) == j
  {
  }

  // ---------- Whole runs ----------

  datatype Op = Add(a: Adapter) | Remove(a: Adapter)

  function TableAfter(ops: seq<Op>): seq<Adapter> {
    if ops == [] then [] else
    var s := TableAfter(ops[..|ops| - 1]);
    match ops[|ops| - 1]
    case Add(a) => Added(s, a)
    case Remove(a) => Removed(s, a)
  }

  lemma {:induction false} TableStaysDistinct(ops: seq<Op>)
    ensures Distinct(TableAfter(ops)) && |TableAfter(ops)| <= MAX_ADAPTERS
  {
    if ops != [] {
      var s := TableAfter(ops[..|ops| - 1]);
      TableStaysDistinct(ops[..|ops| - 1]);
      match ops[|ops| - 1]
      case Add(a) => AddedIs(s, a);
      case Remove(a) => RemovedIs(s, a);
    }
  }
}
