// bip32.c: hdnode_private_ckd_cached, a ten-slot cache of derived parents that agrees with plain
// derivation over every sequence of calls.

module Bip32Cache {
  import opened Options
  import opened Words
  import opened Bip32Spec

  const CACHE_SIZE: int := 10
  const MAX_DEPTH: int := 8

  // A node with the identity of its curve, all of which memcmp compares.
  datatype Item = Item(node: Node, curve: nat)

  // hdnode_private_ckd: any function of node and index; None is its 0, which leaves the node alone.
  type Ckd = (Item, uint32) -> Option<Item>

  // Plain derivation along a path: whether every step succeeded, and the last node reached.
  function Fold(ckd: Ckd, x: Item, path: seq<uint32>): (bool, Item) {
    if path == [] then (true, x)
    else
      var (ok, y) := Fold(ckd, x, path[..|path| - 1]);
      if !ok then (false, y)
      else match ckd(y, path[|path| - 1])
           case None => (false, y)
           case Some(z) => (true, z)
  }

  lemma {:induction false} FoldFails(ckd: Ckd, x: Item, path: seq<uint32>, k: nat)
    requires k <= |path| && !Fold(ckd, x, path[..k]).0
    ensures Fold(ckd, x, path) == Fold(ckd, x, path[..k])
  {
    if k < |path| {
      assert path[..|path| - 1][..k] == path[..k];
      FoldFails(ckd, x, path[..|path| - 1], k);
    } else {
      assert path[..k] == path;
    }
  }

  // Plain derivation step by step: either every step gives the next item, or some step fails after
  // those before it and the item stays.
  lemma {:induction false} FoldRuns(ckd: Ckd, x: Item, path: seq<uint32>, xs: seq<Item>, k: nat)
    requires |xs| == k + 1 && k <= |path| && xs[0] == x
    requires forall j :: 0 <= j < k ==> ckd(xs[j], path[j]) == Some(xs[j + 1])
    requires k < |path| ==> ckd(xs[k], path[k]) == None
    ensures Fold(ckd, x, path) == (k == |path|, xs[k])
  {
    FoldSteps(ckd, x, path, xs, k);
    if k < |path| {
      var front := path[..k + 1];
      assert front[..|front| - 1] == path[..k] && front[|front| - 1] == path[k];
      assert Fold(ckd, x, front) == (false, xs[k]);
      FoldFails(ckd, x, path, k + 1);
    } else {
      assert path[..k] == path;
    }
  }

  lemma {:induction false} FoldSteps(ckd: Ckd, x: Item, path: seq<uint32>, xs: seq<Item>, k: nat)
    requires |xs| > k && k <= |path| && xs[0] == x
    requires forall j :: 0 <= j < k ==> ckd(xs[j], path[j]) == Some(xs[j + 1])
    ensures Fold(ckd, x, path[..k]) == (true, xs[k])
  {
    if k > 0 {
      FoldSteps(ckd, x, path, xs, k - 1);
      assert path[..k][..k - 1] == path[..k - 1] && path[..k][k - 1] == path[k - 1];
      assert ckd(xs[k - 1], path[k - 1]) == Some(xs[k - 1 + 1]);
    }
  }

  datatype Slot = Slot(set_: bool, depth: nat, i: seq<uint32>, item: Item)

  // A slot that is set holds the derivation of its stored prefix from the root.
  ghost predicate SlotHolds(ckd: Ckd, rootSet: bool, root: Item, s: Slot) {
    s.set_ ==> rootSet && s.depth <= |s.i| == MAX_DEPTH && Fold(ckd, root, s.i[..s.depth]) == (true, s.item)
  }

  // The inout parameter.
  class Cell {
    var item: Item

    constructor (item: Item)
      ensures this.item == item
    {
      this.item := item;
    }
  }

  // The static variables of the cache.
  class Cache {
    var rootSet: bool
    var root: Item
    var index: nat
    var slots: seq<Slot>

    ghost predicate Valid(ckd: Ckd)
      reads this
    {
      |slots| == CACHE_SIZE && index < CACHE_SIZE && forall j :: 0 <= j < CACHE_SIZE ==> SlotHolds(ckd, rootSet, root, slots[j])
    }

    constructor (blank: Item)
      ensures forall ckd :: Valid(ckd)
    {
      rootSet, root, index := false, blank, 0;
      slots := seq(CACHE_SIZE, _ => Slot(false, 0, seq(MAX_DEPTH, _ => 0), blank));
    }

    // "if root is not set or not the same": the cache is cleared.
    method Reset(x: Item, ghost ckd: Ckd)
      modifies this
      ensures Valid(ckd) && rootSet && root == x
    {
      index := 0;
      slots := seq(CACHE_SIZE, _ => Slot(false, 0, seq(MAX_DEPTH, _ => 0), x));
      root, rootSet := x, true;
    }

    // "try to find parent"
    method Find(x: Item, parent: seq<uint32>, ghost ckd: Ckd) returns (r: Option<Item>)
      requires Valid(ckd) && rootSet && root == x
      ensures r.Some? ==> Fold(ckd, x, parent) == (true, r.value)
    {
      var j := 0;
      while j < CACHE_SIZE
        invariant 0 <= j <= CACHE_SIZE
      {
        var s := slots[j];
        assert SlotHolds(ckd, rootSet, root, s);
        if s.set_ && s.depth == |parent| && s.i[..s.depth] == parent && s.item.curve == x.curve {
          return Some(s.item);
        }
        j := j + 1;
      }
      r := None;
    }

    // "and save it": the next slot in turn is overwritten.
    method Save(parent: seq<uint32>, item: Item, ghost ckd: Ckd)
      requires Valid(ckd) && rootSet && |parent| <= MAX_DEPTH && Fold(ckd, root, parent) == (true, item)
      modifies this`slots, this`index
      ensures Valid(ckd)
    {
      var i := parent + seq(MAX_DEPTH - |parent|, _ => 0);
      assert i[..|parent|] == parent;
      slots := slots[index := Slot(true, |parent|, i, item)];
      index := (index + 1) % CACHE_SIZE;
      IndexInRange(index);
    }

    // The result is that of plain derivation, whatever the cache holds; at most nine indices.
    method PrivateCkdCached(inout: Cell, path: seq<uint32>, ckd: Ckd) returns (ok: bool)
      requires Valid(ckd) && |path| <= MAX_DEPTH + 1
      modifies this, inout
      ensures Valid(ckd) && (ok, inout.item) == Fold(ckd, old(inout.item), path)
    {
      ghost var x := inout.item;
      hide SlotHolds;
      if |path| == 0 {
        return true;
      }
      var n := |path| - 1;
      var parent := path[..n];
      if |path| == 1 {
        assert parent == [];
        ok := Last(inout, path, ckd, x);
        return;
      }
      var found: Option<Item> := None;
      if !rootSet || root != inout.item {
        Reset(inout.item, ckd);
      } else {
        found := Find(inout.item, parent, ckd);
      }
      if found.Some? {
        inout.item := found.value;
      } else {
        ok := Derive(inout, parent, ckd);
        if !ok {
          FoldFails(ckd, x, path, n);
          return;
        }
        Save(parent, inout.item, ckd);
      }
      ok := Last(inout, path, ckd, x);
    }
  }

  lemma IndexInRange(i: nat)
    ensures (i + 1) % CACHE_SIZE < CACHE_SIZE
  {
  }

  // The loop that derives a parent step by step.
  method Derive(inout: Cell, parent: seq<uint32>, ckd: Ckd) returns (ok: bool)
    modifies inout
    ensures (ok, inout.item) == Fold(ckd, old(inout.item), parent)
  {
    ghost var x := inout.item;
    var k := 0;
    assert parent[..0] == [];
    while k < |parent|
      invariant 0 <= k <= |parent| && Fold(ckd, x, parent[..k]) == (true, inout.item)
    {
      assert parent[..k + 1][..k] == parent[..k];
      var r := ckd(inout.item, parent[k]);
      if r.None? {
        assert Fold(ckd, x, parent[..k + 1]) == (false, inout.item);
        FoldFails(ckd, x, parent, k + 1);
        return false;
      }
      inout.item := r.value;
      k := k + 1;
    }
    assert parent[..k] == parent;
    ok := true;
  }

  // The last step, from the parent.
  method Last(inout: Cell, path: seq<uint32>, ckd: Ckd, ghost x: Item) returns (ok: bool)
    requires |path| > 0 && Fold(ckd, x, path[..|path| - 1]) == (true, inout.item)
    modifies inout
    ensures (ok, inout.item) == Fold(ckd, x, path)
  {
    var r := ckd(inout.item, path[|path| - 1]);
    if r.None? {
      return false;
    }
    inout.item := r.value;
    ok := true;
  }

  // Any sequence of calls, from a fresh cache, with any roots and any paths of at most nine indices.
  method AnyCalls(calls: seq<(Item, seq<uint32>)>, blank: Item, ckd: Ckd) returns (results: seq<(bool, Item)>)
    requires forall k :: 0 <= k < |calls| ==> |calls[k].1| <= MAX_DEPTH + 1
    ensures |results| == |calls| && forall k :: 0 <= k < |calls| ==> results[k] == Fold(ckd, calls[k].0, calls[k].1)
  {
    var cache := new Cache(blank);
    results := [];
    while |results| < |calls|
      invariant |results| <= |calls| && cache.Valid(ckd) && fresh(cache)
      invariant forall k :: 0 <= k < |results| ==> results[k] == Fold(ckd, calls[k].0, calls[k].1)
    {
      var call := calls[|results|];
      var cell := new Cell(call.0);
      var ok := cache.PrivateCkdCached(cell, call.1, ckd);
      results := results + [(ok, cell.item)];
    }
  }
}
