/**
 * Symmetry expansion of the accumulated upper-triangular co-occurrence table
 * (the first half of `finalizeMatrix`).
 */
module Expansion {
  import opened Tables

  /** The keys a cell enumeration visits. */
  function Visited(cells: seq<Key>): (visited: set<Key>) {
    set k | k in cells
  }

  /** `cells` is an iteration order over exactly the keys of `t` (a `cellSet` traversal). */
  ghost predicate IsEnumeration<V>(cells: seq<Key>, t: Table<V>) {
    forall k :: k in t <==> k in cells
  }

  /** One loop iteration: store the cell, and its transpose when it is off the diagonal. */
  function PutCell<V>(acc: Table<V>, k: Key, v: V): (r: Table<V>)
    ensures r.Keys == acc.Keys + {k} + (if IsDiagonal(k) then {} else {Mirror(k)})
    ensures k in r && r[k] == v && Mirror(k) in r && r[Mirror(k)] == v
    ensures forall j | j in acc && j != k && j != Mirror(k) :: j in r && r[j] == acc[j]
  {
    var stored := acc[k := v];
    if !IsDiagonal(k) then stored[Mirror(k) := v] else stored
  }

  /**
   * The copy loop run over the cells of `t` in the order `cells`, starting from an
   * empty result table. The key set it produces does not depend on the order.
   */
  function ExpandInOrder<V>(t: Table<V>, cells: seq<Key>): (r: Table<V>)
    requires forall i | 0 <= i < |cells| :: cells[i] in t
    ensures r.Keys == ExpandedKeys(Visited(cells))
    decreases |cells|
  {
    if cells == [] then map[]
    else
      var k := cells[|cells| - 1];
      var before := ExpandInOrder(t, cells[..|cells| - 1]);
      assert Visited(cells) == Visited(cells[..|cells| - 1]) + {k} by {
        assert cells == cells[..|cells| - 1] + [k];
      }
      ExpandedKeysAdd(Visited(cells[..|cells| - 1]), k);
      PutCell(before, k, t[k])
  }

  /** Adding one key adds it, and its transpose when it is off the diagonal. */
  lemma ExpandedKeysAdd(s: set<Key>, k: Key)
    ensures ExpandedKeys(s + {k}) == ExpandedKeys(s) + {k} + (if IsDiagonal(k) then {} else {Mirror(k)})
  {
    assert OffDiagonal(s + {k}) == OffDiagonal(s) + (if IsDiagonal(k) then {} else {k});
  }

  /**
   * The order-free meaning of symmetry expansion: every stored cell keeps its value,
   * and on an upper-triangular table every off-diagonal cell is mirrored with its
   * value and the result is symmetric.
   */
  function Expand<V>(t: Table<V>): (r: Table<V>)
    ensures r.Keys == ExpandedKeys(t.Keys)
    ensures forall k | k in t :: k in r && r[k] == t[k]
    ensures UpperTriangular(t) ==>
              forall k | k in t && !IsDiagonal(k) :: Mirror(k) in r && r[Mirror(k)] == t[k]
    ensures UpperTriangular(t) ==> Symmetric(r)
  {
    map k | k in ExpandedKeys(t.Keys) ::
      if k in t then t[k]
      else
        MirrorsMember(OffDiagonal(t.Keys), k);
        t[Mirror(k)]
  }

  /**
   * Over an upper-triangular table each result cell holds the value of the
   * input cell it was copied from, whatever the iteration order.
   */
  lemma {:induction false} ExpandInOrderValues<V>(t: Table<V>, cells: seq<Key>)
    requires UpperTriangular(t)
    requires forall i | 0 <= i < |cells| :: cells[i] in t
    ensures forall k | k in ExpandInOrder(t, cells) ::
              k in Expand(t) && ExpandInOrder(t, cells)[k] == Expand(t)[k]
    decreases |cells|
  {
    if cells != [] {
      var prefix := cells[..|cells| - 1];
      var k := cells[|cells| - 1];
      ExpandInOrderValues(t, prefix);
      var r := ExpandInOrder(t, cells);
      assert r == PutCell(ExpandInOrder(t, prefix), k, t[k]);
      if !IsDiagonal(k) {
        assert Mirror(k) !in t;
        MirrorsMember(OffDiagonal(t.Keys), Mirror(k));
      }
    }
  }

  /**
   * On an upper-triangular table, the copy loop yields the order-free expansion
   * for every iteration order of the cells.
   */
  lemma ExpandInOrderIsExpand<V>(t: Table<V>, cells: seq<Key>)
    requires IsEnumeration(cells, t)
    ensures UpperTriangular(t) ==> ExpandInOrder(t, cells) == Expand(t)
  {
    if UpperTriangular(t) {
      assert Visited(cells) == t.Keys;
      ExpandInOrderValues(t, cells);
    }
  }

  /**
   * The expanded cell count is the input count plus the number of off-diagonal
   * input cells.
   */
  lemma ExpandCardinality<V>(t: Table<V>)
    requires UpperTriangular(t)
    ensures |Expand(t)| == |t| + |OffDiagonal(t.Keys)|
  {
    ExpandedKeysCardinality(t.Keys);
    assert |Expand(t)| == |Expand(t).Keys|;
  }

  /** The last visited cell writes its value at its own key and at its transpose. */
  lemma LastCellWrites<V>(t: Table<V>, cells: seq<Key>, k: Key)
    requires forall i | 0 <= i < |cells| :: cells[i] in t
    requires |cells| > 0 && (cells[|cells| - 1] == k || cells[|cells| - 1] == Mirror(k))
    ensures k in ExpandInOrder(t, cells) && ExpandInOrder(t, cells)[k] == t[cells[|cells| - 1]]
  {
    var n := |cells| - 1;
    var last := cells[n];
    assert ExpandInOrder(t, cells) == PutCell(ExpandInOrder(t, cells[..n]), last, t[last]);
    if last == Mirror(k) {
      assert Mirror(last) == k;
    }
  }

  /** A last visited cell that is neither `k` nor its transpose leaves `k` as it was. */
  lemma OtherCellKeeps<V>(t: Table<V>, cells: seq<Key>, k: Key)
    requires forall i | 0 <= i < |cells| :: cells[i] in t
    requires |cells| > 0
    requires cells[|cells| - 1] != k && cells[|cells| - 1] != Mirror(k)
    ensures k in ExpandInOrder(t, cells[..|cells| - 1]) ==>
              k in ExpandInOrder(t, cells) &&
              ExpandInOrder(t, cells)[k] == ExpandInOrder(t, cells[..|cells| - 1])[k]
  {
    var n := |cells| - 1;
    var last := cells[n];
    assert ExpandInOrder(t, cells) == PutCell(ExpandInOrder(t, cells[..n]), last, t[last]);
    assert Mirror(last) != k;
  }

  /**
   * For any input, the value the loop leaves at key `k` comes from the last visited
   * cell that writes `k`: the later of `k` and its transpose in the visiting order.
   */
  lemma {:induction false} LaterWriteWins<V>(t: Table<V>, cells: seq<Key>, k: Key, j: int)
    requires forall i | 0 <= i < |cells| :: cells[i] in t
    requires 0 <= j < |cells| && (cells[j] == k || cells[j] == Mirror(k))
    requires forall i | j < i < |cells| :: cells[i] != k && cells[i] != Mirror(k)
    ensures k in ExpandInOrder(t, cells) && ExpandInOrder(t, cells)[k] == t[cells[j]]
    decreases |cells|, 1
  {
    var n := |cells| - 1;
    if j == n {
      LastCellWrites(t, cells, k);
    } else {
      EarlierWriteSurvives(t, cells, k, j);
    }
  }

  /** The inductive step of `LaterWriteWins`: the writing cell is not the last one visited. */
  lemma {:induction false} EarlierWriteSurvives<V>(t: Table<V>, cells: seq<Key>, k: Key, j: int)
    requires forall i | 0 <= i < |cells| :: cells[i] in t
    requires 0 <= j < |cells| - 1 && (cells[j] == k || cells[j] == Mirror(k))
    requires forall i | j < i < |cells| :: cells[i] != k && cells[i] != Mirror(k)
    ensures k in ExpandInOrder(t, cells) && ExpandInOrder(t, cells)[k] == t[cells[j]]
    decreases |cells|, 0
  {
    var n := |cells| - 1;
    var prefix := cells[..n];
    assert cells[n] != k && cells[n] != Mirror(k);
    forall i | 0 <= i < |prefix|
      ensures prefix[i] == cells[i]
    {
    }
    LaterWriteWins(t, prefix, k, j);
    OtherCellKeeps(t, cells, k);
  }

  /**
   * Without upper triangularity the loop's result depends on the iteration order:
   * on the table {(1, 2): 10, (2, 1): 20} the two visiting orders leave different
   * values at (1, 2).
   */
  lemma OrderMattersWithoutTriangularity()
    ensures var t := map[(1, 2) := 10, (2, 1) := 20];
            ExpandInOrder(t, [(1, 2), (2, 1)])[(1, 2)] == 20 &&
            ExpandInOrder(t, [(2, 1), (1, 2)])[(1, 2)] == 10
  {
    var t := map[(1, 2) := 10, (2, 1) := 20];
    var a: seq<Key> := [(1, 2), (2, 1)];
    var b: seq<Key> := [(2, 1), (1, 2)];
    assert a[..1] == [(1, 2)] && a[..1][..0] == [];
    assert b[..1] == [(2, 1)] && b[..1][..0] == [];
  }
}
