/**
 * Sparse item-item tables: a Guava `Table<Long,Long,Double>` is modelled as an
 * immutable map from (row, column) keys to cell values.
 */
module Tables {

  const MinLong: int := -0x8000_0000_0000_0000
  const MaxLong: int := 0x7FFF_FFFF_FFFF_FFFF

  /** An item identifier: a Java `long`. */
  type Item = x: int | MinLong <= x <= MaxLong

  /** A cell address (row item, column item). */
  type Key = (Item, Item)

  /** A sparse table; absent keys are absent cells. */
  type Table<V> = map<Key, V>

  /** The transposed address of a cell. */
  function Mirror(k: Key): (m: Key) {
    (k.1, k.0)
  }

  predicate IsDiagonal(k: Key) {
    k.0 == k.1
  }

  /** Every stored cell lies on or above the diagonal (row <= column). */
  ghost predicate UpperTriangular<V>(t: Table<V>) {
    forall k | k in t :: k.0 <= k.1
  }

  /** Every stored cell has its transpose stored with the same value. */
  ghost predicate Symmetric<V>(t: Table<V>) {
    forall k | k in t :: Mirror(k) in t && t[Mirror(k)] == t[k]
  }

  /** The off-diagonal keys among `s`. */
  function OffDiagonal(s: set<Key>): (off: set<Key>) {
    set k | k in s && !IsDiagonal(k)
  }

  /** The transposes of the keys in `s`. */
  function Mirrors(s: set<Key>): (mirrored: set<Key>) {
    set k | k in s :: Mirror(k)
  }

  /** The key set of a table after symmetry expansion of the keys `s`. */
  function ExpandedKeys(s: set<Key>): (expanded: set<Key>) {
    s + Mirrors(OffDiagonal(s))
  }

  lemma MirrorsMember(s: set<Key>, k: Key)
    ensures k in Mirrors(s) <==> Mirror(k) in s
  {
  }

  /** Transposition is injective, so it preserves the number of keys. */
  lemma {:induction false} MirrorsCardinality(s: set<Key>)
    ensures |Mirrors(s)| == |s|
    decreases |s|
  {
    if s != {} {
      var x :| x in s;
      var rest := s - {x};
      MirrorsCardinality(rest);
      forall k | true
        ensures k in Mirrors(s) <==> k in Mirrors(rest) + {Mirror(x)}
      {
        MirrorsMember(s, k);
        MirrorsMember(rest, k);
      }
      assert Mirrors(s) == Mirrors(rest) + {Mirror(x)};
      MirrorsMember(rest, Mirror(x));
      assert Mirror(x) !in Mirrors(rest);
    }
  }

  /**
   * For upper-triangular keys, the expanded key set is the original keys plus
   * one fresh transpose per off-diagonal key.
   */
  lemma ExpandedKeysCardinality(s: set<Key>)
    requires forall k | k in s :: k.0 <= k.1
    ensures |ExpandedKeys(s)| == |s| + |OffDiagonal(s)|
  {
    var m := Mirrors(OffDiagonal(s));
    forall k | k in m
      ensures k !in s
    {
      MirrorsMember(OffDiagonal(s), k);
    }
    assert s !! m;
    MirrorsCardinality(OffDiagonal(s));
  }
}
