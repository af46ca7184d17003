/**
 * `finalizeMatrix`: symmetry expansion of the accumulated table, then the cosine
 * transform, then row normalisation when the filter asks for it. The two
 * transforms are opaque collaborators passed in as functions.
 */
module Pipeline {
  import opened Tables
  import opened Expansion
  import opened Config

  /** A transform applied after expansion. */
  datatype Stage = Cosine | RowNormalize

  /** The transforms run after expansion, in order, for a given row-normalisation flag. */
  function Plan(rowNorm: bool): (p: seq<Stage>)
    ensures |p| > 0 && p[0] == Cosine
    ensures multiset(p)[Cosine] == 1
    ensures RowNormalize in p <==> rowNorm
    ensures multiset(p)[RowNormalize] <= 1
  {
    if rowNorm then [Cosine, RowNormalize] else [Cosine]
  }

  /** Runs the stages `p` left to right on the table `m`. */
  function RunPlan<V>(p: seq<Stage>, m: Table<V>, cosine: Table<V> -> Table<V>, rowNormalize: Table<V> -> Table<V>): (r: Table<V>)
    decreases |p|
  {
    if p == [] then m
    else
      var next := match p[0] case Cosine => cosine(m) case RowNormalize => rowNormalize(m);
      RunPlan(p[1..], next, cosine, rowNormalize)
  }

  /**
   * `finalizeMatrix` over the cells of `t` visited in the order `cells`: the
   * expanded table goes through exactly the planned stages. On an upper-triangular
   * table the iteration order does not matter.
   */
  function FinalizeMatrix<V>(cf: CollaborativeFilter, t: Table<V>, cells: seq<Key>,
                                cosine: Table<V> -> Table<V>, rowNormalize: Table<V> -> Table<V>): (r: Table<V>)
    requires IsEnumeration(cells, t)
    ensures r == RunPlan(Plan(cf.rowNorm), ExpandInOrder(t, cells), cosine, rowNormalize)
    ensures UpperTriangular(t) ==> r == RunPlan(Plan(cf.rowNorm), Expand(t), cosine, rowNormalize)
  {
    assert forall i | 0 <= i < |cells| :: cells[i] in t;
    var result := ExpandInOrder(t, cells);
    ExpandInOrderIsExpand(t, cells);
    var result := cosine(result);
    assert [Cosine, RowNormalize][1..] == [RowNormalize] && [RowNormalize][1..] == [];
    if cf.rowNorm then rowNormalize(result) else result
  }
}
