/**
  The UAI (PASCAL) MRF input adapter of LP_MP: the parse actions that build
  function tables while keeping the announced entry count at the back of the
  table, and `build_mrf`, which feeds the parsed cliques into an
  `MrfConstructor`. The text grammar itself is not modelled: the numbers the
  grammar recognises arrive as parameters.
 */
module UaiMrfInput {
  import opened Wrappers
  import opened MrfConstruction

  // ---------------------------------------------------------------------------
  // The function-table buffer: the count sentinel stays at the back

  /** `function_table_entry`: push the value, then swap it with the sentinel before it. */
  function EntryStep(table: seq<real>, v: real): (r: seq<real>)
    requires |table| > 0
    ensures |r| == |table| + 1 && r[|r| - 1] == table[|table| - 1] && r[|r| - 2] == v
    ensures r[..|table| - 1] == table[..|table| - 1]
  {
    table[..|table| - 1] + [v, table[|table| - 1]]
  }

  /** The table after `function_table_entry` for each of `vs` in order. */
  function AfterEntries(table: seq<real>, vs: seq<real>): seq<real>
    requires |table| > 0
    decreases |vs|
  {
    if vs == [] then table else AfterEntries(EntryStep(table, vs[0]), vs[1..])
  }

  /** Entries land in order before the sentinel. */
  lemma {:induction false} AfterEntriesKeepsSentinel(prefix: seq<real>, c: real, vs: seq<real>)
    ensures AfterEntries(prefix + [c], vs) == prefix + vs + [c]
    decreases |vs|
  {
    if vs != [] {
      assert EntryStep(prefix + [c], vs[0]) == (prefix + [vs[0]]) + [c];
      AfterEntriesKeepsSentinel(prefix + [vs[0]], c, vs[1..]);
      assert (prefix + [vs[0]]) + vs[1..] == prefix + vs;
    }
  }

  /** `function_table_end` on a table begun with count `n`: after `k` entries it matches
      exactly when `k == n`, and dropping the sentinel leaves the entries in order. */
  lemma TableEndAfterEntries(n: nat, vs: seq<real>)
    ensures var t := AfterEntries([n as real], vs);
            && |t| == |vs| + 1 && t[..|vs|] == vs
            && (t[|t| - 1] + 1.0 == |t| as real <==> |vs| == n)
  {
    AfterEntriesKeepsSentinel([], n as real, vs);
    assert [] + vs + [n as real] == vs + [n as real];
  }

  /** One `function_table_entry` on the open table `vs[..c] + [sentinel]`, the last of `tables`. */
  lemma OpenTableStep(prior: seq<seq<real>>, vs: seq<real>, c: nat, sentinel: real)
    requires c < |vs|
    ensures var tables := prior + [vs[..c] + [sentinel]];
            && tables[..|tables| - 1] + [EntryStep(tables[|tables| - 1], vs[c])] == prior + [vs[..c + 1] + [sentinel]]
  {
    var tables := prior + [vs[..c] + [sentinel]];
    assert tables[..|tables| - 1] == prior;
    assert tables[|tables| - 1] == vs[..c] + [sentinel];
    assert vs[..c] + [vs[c]] == vs[..c + 1];
    assert EntryStep(vs[..c] + [sentinel], vs[c]) == vs[..c + 1] + [sentinel];
  }

  /** `function_table_end` on the open table `vs + [n]`, the last of `tables`: it matches
      exactly when `|vs| == n`, leaving `vs`. */
  lemma OpenTableEnd(prior: seq<seq<real>>, vs: seq<real>, n: nat)
    ensures var tables := prior + [vs + [n as real]]; var t := tables[|tables| - 1];
            && |t| > 0 && (t[|t| - 1] + 1.0 == |t| as real <==> |vs| == n)
            && tables[..|tables| - 1] + [t[..|t| - 1]] == prior + [vs]
  {
    var tables := prior + [vs + [n as real]];
    assert tables[..|tables| - 1] == prior;
    assert (vs + [n as real])[..|vs|] == vs;
  }

  // ---------------------------------------------------------------------------
  // Pairwise tables: the file lists the second variable fastest, the builder the first

  /** Where the builder's flat index `k` finds its entry in the file's table. */
  function FileIndexOf(k: nat, dim1: nat, dim2: nat): (j: nat)
    requires k < dim1 * dim2
    ensures j < dim1 * dim2
  {
    FlatIndexCover(k, dim1, dim2);
    FileIndexBound(k % dim1, k / dim1, dim1, dim2);
    (k % dim1) * dim2 + k / dim1
  }

  /** A pairwise table rearranged into the builder's layout: entry `(l1, l2)` of the file,
      at `l1 * dim2 + l2`, moves to `l1 + l2 * dim1`. */
  function Transposed(table: seq<real>, dim1: nat, dim2: nat): (r: seq<real>)
    requires |table| == dim1 * dim2
    ensures |r| == |table|
  {
    seq(dim1 * dim2, k requires 0 <= k < dim1 * dim2 => table[FileIndexOf(k, dim1, dim2)])
  }

  /** Each label pair of the rearranged table holds the file's entry for that pair. */
  lemma TransposedAt(table: seq<real>, dim1: nat, dim2: nat, l1: nat, l2: nat)
    requires |table| == dim1 * dim2 && l1 < dim1 && l2 < dim2
    ensures FlatIndex(l1, l2, dim1) < |table| && l1 * dim2 + l2 < |table|
    ensures Transposed(table, dim1, dim2)[FlatIndex(l1, l2, dim1)] == table[l1 * dim2 + l2]
  {
    FlatIndexBound(l1, l2, dim1, dim2);
    FlatIndexSplit(l1, l2, dim1);
    FileIndexBound(l1, l2, dim1, dim2);
  }

  /** Every flat index below `dim1 * dim2` is the flat index of its remainder and quotient. */
  lemma FlatIndexCover(k: nat, dim1: nat, dim2: nat)
    requires k < dim1 * dim2
    ensures dim1 > 0 && k % dim1 < dim1 && k / dim1 < dim2 && FlatIndex(k % dim1, k / dim1, dim1) == k
  {
    if dim1 == 0 {
      assert false;
    }
    var q := k / dim1;
    assert k == q * dim1 + k % dim1;
    if q >= dim2 {
      assert false;
    }
  }

  /** The file's index of labels `(l1, l2)` is inside the table. */
  lemma FileIndexBound(l1: nat, l2: nat, dim1: nat, dim2: nat)
    requires l1 < dim1 && l2 < dim2
    ensures l1 * dim2 + l2 < dim1 * dim2
  {
    assert l1 * dim2 <= (dim1 - 1) * dim2;
    assert (dim1 - 1) * dim2 == dim1 * dim2 - dim2;
  }

  /** The table `[0, 1, 2, 3, 4, 5]` over cardinalities `(2, 3)` is not its own
      rearrangement: labels `(1, 0)` sit at position 3 of the file but at position 1
      of the builder's layout. */
  lemma CopyIsNotTransposition()
    ensures Transposed([0.0, 1.0, 2.0, 3.0, 4.0, 5.0], 2, 3) != [0.0, 1.0, 2.0, 3.0, 4.0, 5.0]
  {
    var t := [0.0, 1.0, 2.0, 3.0, 4.0, 5.0];
    assert FileIndexOf(1, 2, 3) == 3 by {
      assert 1 % 2 == 1 && 1 / 2 == 0;
    }
    assert Transposed(t, 2, 3)[1] == t[FileIndexOf(1, 2, 3)];
  }

  /** Rows `0 .. l1 - 1` of `s` agree with `target` in the builder's layout. */
  ghost predicate RowsMatch(s: seq<real>, target: seq<real>, dim1: nat, dim2: nat, l1: nat)
  {
    forall a, b :: 0 <= a < l1 && a < dim1 && 0 <= b < dim2 ==>
      FlatIndex(a, b, dim1) < |s| && FlatIndex(a, b, dim1) < |target|
      && s[FlatIndex(a, b, dim1)] == target[FlatIndex(a, b, dim1)]
  }

  /** The first `l2` entries of row `l1` of `s` agree with `target`. */
  ghost predicate RowPrefixMatch(s: seq<real>, target: seq<real>, dim1: nat, l1: nat, l2: nat)
  {
    forall b :: 0 <= b < l2 ==>
      FlatIndex(l1, b, dim1) < |s| && FlatIndex(l1, b, dim1) < |target|
      && s[FlatIndex(l1, b, dim1)] == target[FlatIndex(l1, b, dim1)]
  }

  /** Writing entry `(l1, l2)` of the target extends the row without disturbing the rows before. */
  lemma WriteExtendsRow(s: seq<real>, target: seq<real>, dim1: nat, dim2: nat, l1: nat, l2: nat)
    requires |s| == |target| == dim1 * dim2 && l1 < dim1 && l2 < dim2
    requires RowsMatch(s, target, dim1, dim2, l1) && RowPrefixMatch(s, target, dim1, l1, l2)
    ensures FlatIndex(l1, l2, dim1) < |s|
    ensures RowsMatch(s[FlatIndex(l1, l2, dim1) := target[FlatIndex(l1, l2, dim1)]], target, dim1, dim2, l1)
    ensures RowPrefixMatch(s[FlatIndex(l1, l2, dim1) := target[FlatIndex(l1, l2, dim1)]], target, dim1, l1, l2 + 1)
  {
    FlatIndexBound(l1, l2, dim1, dim2);
    FlatIndexSplit(l1, l2, dim1);
    RowIndicesIncrease(l1, l2, dim1);
    forall a, b | 0 <= a < l1 && 0 <= b < dim2 ensures FlatIndex(a, b, dim1) != FlatIndex(l1, l2, dim1) {
      FlatIndexSplit(a, b, dim1);
    }
  }

  /** A finished row joins the finished rows. */
  lemma RowDone(s: seq<real>, target: seq<real>, dim1: nat, dim2: nat, l1: nat)
    requires l1 < dim1
    requires RowsMatch(s, target, dim1, dim2, l1) && RowPrefixMatch(s, target, dim1, l1, dim2)
    ensures RowsMatch(s, target, dim1, dim2, l1 + 1)
  {
  }

  /** All rows finished: `s` is the target. */
  lemma AllRowsMatch(s: seq<real>, target: seq<real>, dim1: nat, dim2: nat)
    requires |s| == |target| == dim1 * dim2 && RowsMatch(s, target, dim1, dim2, dim1)
    ensures s == target
  {
    forall k | 0 <= k < |s| ensures s[k] == target[k] {
      FlatIndexCover(k, dim1, dim2);
    }
  }

  /** The copy loop of `build_mrf` as written: it reads and writes the same position,
      so the cost it hands on is the file's table unchanged. */
  method CopyPairwiseTable(table: seq<real>, dim1: nat, dim2: nat) returns (cost: seq<real>)
    requires |table| == dim1 * dim2
    ensures cost == table
  {
    var pairwiseCost := new real[dim1 * dim2](_ => 0.0);
    for l1 := 0 to dim1
      invariant RowsMatch(pairwiseCost[..], table, dim1, dim2, l1)
    {
      for l2 := 0 to dim2
        invariant RowsMatch(pairwiseCost[..], table, dim1, dim2, l1)
        invariant RowPrefixMatch(pairwiseCost[..], table, dim1, l1, l2)
      {
        WriteExtendsRow(pairwiseCost[..], table, dim1, dim2, l1, l2);
        assert l2 * dim1 + l1 == FlatIndex(l1, l2, dim1);
        pairwiseCost[l1 + l2 * dim1] := table[l2 * dim1 + l1];
      }
      RowDone(pairwiseCost[..], table, dim1, dim2, l1);
    }
    AllRowsMatch(pairwiseCost[..], table, dim1, dim2);
    cost := pairwiseCost[..];
  }

  /** The copy loop with the rearrangement the file format needs. */
  method TransposePairwiseTable(table: seq<real>, dim1: nat, dim2: nat) returns (cost: seq<real>)
    requires |table| == dim1 * dim2
    ensures cost == Transposed(table, dim1, dim2)
  {
    ghost var target := Transposed(table, dim1, dim2);
    var pairwiseCost := new real[dim1 * dim2](_ => 0.0);
    for l1 := 0 to dim1
      invariant RowsMatch(pairwiseCost[..], target, dim1, dim2, l1)
    {
      for l2 := 0 to dim2
        invariant RowsMatch(pairwiseCost[..], target, dim1, dim2, l1)
        invariant RowPrefixMatch(pairwiseCost[..], target, dim1, l1, l2)
      {
        WriteExtendsRow(pairwiseCost[..], target, dim1, dim2, l1, l2);
        TransposedAt(table, dim1, dim2, l1, l2);
        pairwiseCost[l1 + l2 * dim1] := table[l1 * dim2 + l2];
      }
      RowDone(pairwiseCost[..], target, dim1, dim2, l1);
    }
    AllRowsMatch(pairwiseCost[..], target, dim1, dim2);
    cost := pairwiseCost[..];
  }

  /** Along one row of the builder's layout the flat index grows with the second label. */
  lemma RowIndicesIncrease(l1: nat, l2: nat, dim1: nat)
    requires l1 < dim1
    ensures forall b :: 0 <= b < l2 ==> FlatIndex(l1, b, dim1) < FlatIndex(l1, l2, dim1)
  {
    forall b | 0 <= b < l2 ensures FlatIndex(l1, b, dim1) < FlatIndex(l1, l2, dim1) {
      assert l2 * dim1 - b * dim1 == (l2 - b) * dim1;
    }
  }

  /** What `GetPairwiseValue` reads from a pairwise factor that holds the file's table
      unchanged, as `build_mrf` leaves it: the entry at `l1 + l2 * dim1`, which the file
      lists for other labels than `(l1, l2)` unless one cardinality is 1. */
  lemma PairwiseValueOfCopy(mrf: MrfConstructor, id: nat, table: seq<real>, l1: nat, l2: nat)
    requires mrf.Valid() && id < |mrf.pairwiseIndices|
    requires mrf.HasUnary(mrf.pairwiseIndices[id].0) && mrf.HasUnary(mrf.pairwiseIndices[id].1)
    requires |table| == mrf.Labels(mrf.pairwiseIndices[id].0) * mrf.Labels(mrf.pairwiseIndices[id].1)
    requires mrf.pairwiseFactor[id] == table
    requires l1 < mrf.Labels(mrf.pairwiseIndices[id].0) && l2 < mrf.Labels(mrf.pairwiseIndices[id].1)
    ensures FlatIndex(l1, l2, mrf.Labels(mrf.pairwiseIndices[id].0)) < |table|
    ensures mrf.GetPairwiseValue(id, l1, l2) == table[FlatIndex(l1, l2, mrf.Labels(mrf.pairwiseIndices[id].0))]
  {
    var d1, d2 := mrf.Labels(mrf.pairwiseIndices[id].0), mrf.Labels(mrf.pairwiseIndices[id].1);
    var r := mrf.GetPairwiseValue(id, l1, l2);
    var k :| 0 <= k < |mrf.pairwiseFactor[id]| && k % d1 == l1 && k / d1 == l2 && r == mrf.pairwiseFactor[id][k];
    FlatIndexCover(k, d1, d2);
    assert FlatIndex(l1, l2, d1) == k;
  }

  /** What `GetPairwiseValue` reads from a pairwise factor built from a rearranged table:
      the file's entry for the same labels. */
  lemma PairwiseValueOfTransposed(mrf: MrfConstructor, id: nat, table: seq<real>, l1: nat, l2: nat)
    requires mrf.Valid() && id < |mrf.pairwiseIndices|
    requires mrf.HasUnary(mrf.pairwiseIndices[id].0) && mrf.HasUnary(mrf.pairwiseIndices[id].1)
    requires |table| == mrf.Labels(mrf.pairwiseIndices[id].0) * mrf.Labels(mrf.pairwiseIndices[id].1)
    requires mrf.pairwiseFactor[id] == Transposed(table, mrf.Labels(mrf.pairwiseIndices[id].0),
                                                  mrf.Labels(mrf.pairwiseIndices[id].1))
    requires l1 < mrf.Labels(mrf.pairwiseIndices[id].0) && l2 < mrf.Labels(mrf.pairwiseIndices[id].1)
    ensures l1 * mrf.Labels(mrf.pairwiseIndices[id].1) + l2 < |table|
    ensures mrf.GetPairwiseValue(id, l1, l2) == table[l1 * mrf.Labels(mrf.pairwiseIndices[id].1) + l2]
  {
    var d1, d2 := mrf.Labels(mrf.pairwiseIndices[id].0), mrf.Labels(mrf.pairwiseIndices[id].1);
    var r := mrf.GetPairwiseValue(id, l1, l2);
    var k :| 0 <= k < |mrf.pairwiseFactor[id]| && k % d1 == l1 && k / d1 == l2 && r == mrf.pairwiseFactor[id][k];
    FlatIndexCover(k, d1, d2);
    TransposedAt(table, d1, d2, l1, l2);
  }

  // ---------------------------------------------------------------------------
  // Unary costs after the arity-1 overwrites

  /** The cost of variable `v` after the first `upTo` cliques: the table of the last
      arity-1 clique on `v` among them, or zeros. */
  function UnaryCostAfter(scopes: seq<seq<nat>>, tables: seq<seq<real>>, card: nat, v: nat, upTo: nat): seq<real>
    requires upTo <= |scopes| == |tables|
  {
    if upTo == 0 then Zeros(card)
    else if scopes[upTo - 1] == [v] then tables[upTo - 1]
    else UnaryCostAfter(scopes, tables, card, v, upTo - 1)
  }

  /** When every earlier arity-1 table on `v` is all zero, so is `v`'s cost. */
  lemma {:induction false} UnaryCostAfterZero(scopes: seq<seq<nat>>, tables: seq<seq<real>>, card: nat, v: nat, upTo: nat)
    requires upTo <= |scopes| == |tables|
    requires forall j :: 0 <= j < upTo && scopes[j] == [v] ==> tables[j] == Zeros(card)
    ensures UnaryCostAfter(scopes, tables, card, v, upTo) == Zeros(card)
  {
    if upTo > 0 && scopes[upTo - 1] != [v] {
      UnaryCostAfterZero(scopes, tables, card, v, upTo - 1);
    }
  }

  /** The cost is the last arity-1 table on `v`, when there is one. */
  lemma {:induction false} UnaryCostAfterLast(scopes: seq<seq<nat>>, tables: seq<seq<real>>, card: nat, v: nat,
                                              upTo: nat, i: nat)
    requires upTo <= |scopes| == |tables| && i < upTo && scopes[i] == [v]
    requires forall j :: i < j < upTo ==> scopes[j] != [v]
    ensures UnaryCostAfter(scopes, tables, card, v, upTo) == tables[i]
  {
    if upTo - 1 != i {
      UnaryCostAfterLast(scopes, tables, card, v, upTo - 1, i);
    }
  }

  /** The unary slots after the overwrites of the first `upTo` cliques: the slot of each
      variable below `n` holds its cost so far, every other slot is as in `unary0`. */
  function UnariesAfter(unary0: seq<Option<Cost>>, scopes: seq<seq<nat>>, tables: seq<seq<real>>, card: seq<nat>,
                        n: nat, upTo: nat): (r: seq<Option<Cost>>)
    requires upTo <= |scopes| == |tables| && n <= |card| && n <= |unary0|
    ensures |r| == |unary0|
    ensures forall v :: 0 <= v < |r| ==> r[v] == if v < n then Some(UnaryCostAfter(scopes, tables, card[v], v, upTo)) else unary0[v]
  {
    seq(|unary0|, v requires 0 <= v < |unary0| =>
      if v < n then Some(UnaryCostAfter(scopes, tables, card[v], v, upTo)) else unary0[v])
  }

  /** One unary factor event per variable, in variable order. */
  function UnaryEvents(n: nat): seq<LpEvent>
  {
    seq(n, v requires 0 <= v < n => AddFactor(Unary(v)))
  }

  /** The cost a pairwise table becomes: the table itself, as the copy loop of `build_mrf`
      hands it on, or, with `transpose`, the table rearranged into the builder's layout. */
  function PairwiseCost(table: seq<real>, dim1: nat, dim2: nat, transpose: bool): (r: seq<real>)
    requires |table| == dim1 * dim2
    ensures |r| == |table|
    ensures !transpose ==> r == table
  {
    if transpose then Transposed(table, dim1, dim2) else table
  }

  /** The variable pairs of the arity-2 cliques among the first `upTo`, in clique order. */
  function PairwiseKeys(scopes: seq<seq<nat>>, upTo: nat): (r: seq<(nat, nat)>)
    requires upTo <= |scopes|
    ensures |r| <= upTo
  {
    if upTo == 0 then []
    else PairwiseKeys(scopes, upTo - 1)
         + (if |scopes[upTo - 1]| == 2 then [(scopes[upTo - 1][0], scopes[upTo - 1][1])] else [])
  }

  /** The LP log after `history` when the arity-2 cliques among the first `upTo` each add a
      pairwise factor, in clique order, with ids from `id0` on. */
  function PairwiseLog(history: seq<LpEvent>, scopes: seq<seq<nat>>, upTo: nat, id0: nat): seq<LpEvent>
    requires upTo <= |scopes|
  {
    if upTo == 0 then history
    else PairwiseLog(history, scopes, upTo - 1, id0)
         + if |scopes[upTo - 1]| == 2
           then PairwiseEvents(scopes[upTo - 1][0], id0 + |PairwiseKeys(scopes, upTo - 1)|, scopes[upTo - 1][1])
           else []
  }

  // ---------------------------------------------------------------------------
  // The parsed input

  class MrfInput {
    var numberOfVariables: nat
    var numberOfCliques: nat
    var cardinality: seq<nat>
    var cliqueScopes: seq<seq<nat>>
    var functionTables: seq<seq<real>>

    constructor ()
      ensures numberOfVariables == 0 && numberOfCliques == 0
      ensures cardinality == [] && cliqueScopes == [] && functionTables == []
    {
      numberOfVariables, numberOfCliques := 0, 0;
      cardinality, cliqueScopes, functionTables := [], [], [];
    }

    /** `action<new_function_table>`: a new table holding only its announced count. */
    method NewFunctionTable(noEntries: nat)
      modifies this`functionTables
      ensures functionTables == old(functionTables) + [[noEntries as real]]
    {
      functionTables := functionTables + [[noEntries as real]];
    }

    /** `action<function_table_entry>`: the value goes in just before the count. */
    method FunctionTableEntry(v: real)
      requires |functionTables| > 0 && |functionTables[|functionTables| - 1]| > 0
      modifies this`functionTables
      ensures |functionTables| == old(|functionTables|)
      ensures functionTables == old(functionTables[..|functionTables| - 1]
                                    + [EntryStep(functionTables[|functionTables| - 1], v)])
    {
      var last := |functionTables| - 1;
      var table := functionTables[last] + [v];
      var n := |table|;
      table := table[n - 1 := table[n - 2]][n - 2 := table[n - 1]];
      assert table == EntryStep(functionTables[last], v);
      functionTables := functionTables[..last] + [table];
    }

    /** `function_table_end::match`: succeeds when the count at the back is one less than
        the table's size, and then drops the count. */
    method FunctionTableEnd() returns (ok: bool)
      requires |functionTables| > 0 && |functionTables[|functionTables| - 1]| > 0
      modifies this`functionTables
      ensures var t := old(functionTables[|functionTables| - 1]);
              ok == (t[|t| - 1] + 1.0 == |t| as real)
      ensures var t := old(functionTables[|functionTables| - 1]);
              functionTables == if ok then old(functionTables[..|functionTables| - 1]) + [t[..|t| - 1]]
                                else old(functionTables)
    {
      var last := |functionTables| - 1;
      var table := functionTables[last];
      if table[|table| - 1] + 1.0 == |table| as real {
        functionTables := functionTables[..last] + [table[..|table| - 1]];
        ok := true;
      } else {
        ok := false;
      }
    }

    /** `function_table`: a count, then entries until `function_table_end` matches. The
        entries are the numbers `values` the grammar would read next; `consumed` of them
        are used. Without enough numbers the rule fails, leaving the open table as it is. */
    method ParseFunctionTable(noEntries: nat, values: seq<real>) returns (ok: bool, consumed: nat)
      modifies this`functionTables
      ensures ok <==> noEntries <= |values|
      ensures ok ==> consumed == noEntries && functionTables == old(functionTables) + [values[..noEntries]]
      ensures !ok ==> consumed == |values| && functionTables == old(functionTables) + [values + [noEntries as real]]
    {
      ghost var prior := functionTables;
      ghost var sentinel := noEntries as real;
      NewFunctionTable(noEntries);
      consumed := 0;
      OpenTableEnd(prior, [], noEntries);
      ok := FunctionTableEnd();
      while !ok && consumed < |values|
        invariant consumed <= noEntries && consumed <= |values|
        invariant ok ==> consumed == noEntries && functionTables == prior + [values[..consumed]]
        invariant !ok ==> consumed < noEntries && functionTables == prior + [values[..consumed] + [sentinel]]
        decreases |values| - consumed, !ok
      {
        ok := ParseTableEntry(prior, values, consumed, noEntries);
        consumed := consumed + 1;
      }
      if !ok {
        assert values[..consumed] == values;
      }
    }

    /** One number of the table rule: the entry action on the open table, then the end test. */
    method ParseTableEntry(ghost prior: seq<seq<real>>, values: seq<real>, consumed: nat, noEntries: nat)
      returns (ok: bool)
      requires consumed < noEntries && consumed < |values|
      requires functionTables == prior + [values[..consumed] + [noEntries as real]]
      modifies this`functionTables
      ensures ok <==> consumed + 1 == noEntries
      ensures ok ==> functionTables == prior + [values[..consumed + 1]]
      ensures !ok ==> functionTables == prior + [values[..consumed + 1] + [noEntries as real]]
    {
      OpenTableStep(prior, values, consumed, noEntries as real);
      FunctionTableEntry(values[consumed]);
      OpenTableEnd(prior, values[..consumed + 1], noEntries);
      ok := FunctionTableEnd();
    }

    /** The input shape `build_mrf` asserts and relies on: aligned clique lists, arity at
        most two, variables below the count given by the file, tables of the right size,
        strictly ordered pairs, and positive cardinalities (the pairwise hooks divide by them). */
    ghost predicate WellFormed()
      reads this
    {
      && numberOfCliques == |cliqueScopes| == |functionTables|
      && |cardinality| >= numberOfVariables
      && (forall v :: 0 <= v < numberOfVariables ==> cardinality[v] > 0)
      && (forall i :: 0 <= i < |cliqueScopes| ==> |cliqueScopes[i]| < 3)
      && (forall i, j :: 0 <= i < |cliqueScopes| && 0 <= j < |cliqueScopes[i]| ==> cliqueScopes[i][j] < numberOfVariables)
      && (forall i :: 0 <= i < |cliqueScopes| && |cliqueScopes[i]| == 1 ==>
            |functionTables[i]| == cardinality[cliqueScopes[i][0]])
      && (forall i :: 0 <= i < |cliqueScopes| && |cliqueScopes[i]| == 2 ==>
            cliqueScopes[i][0] < cliqueScopes[i][1]
            && |functionTables[i]| == cardinality[cliqueScopes[i][0]] * cardinality[cliqueScopes[i][1]])
    }

    /** `(*f)[x] == 0.0` before each overwrite: an earlier arity-1 table on the same
        variable must have been all zero. */
    ghost predicate UnaryOverwritesOnZero()
      reads this
      requires WellFormed()
    {
      forall i, j :: 0 <= j < i < |cliqueScopes| && |cliqueScopes[i]| == 1 && cliqueScopes[j] == cliqueScopes[i] ==>
        functionTables[j] == Zeros(cardinality[cliqueScopes[i][0]])
    }

    /** The first phase of `build_mrf`: a zero-cost unary factor of its cardinality for each
        variable, in order. A slot already taken is the constructor's "already present"
        error, which ends `build_mrf`. */
    method AddZeroUnaries(mrf: MrfConstructor) returns (ok: bool)
      requires mrf.Valid() && |cardinality| >= numberOfVariables
      modifies mrf`unaryFactor, mrf`lp
      ensures mrf.Valid()
      ensures ok <==> forall v :: 0 <= v < numberOfVariables ==> !old(mrf.HasUnary(v))
      ensures ok ==> |mrf.unaryFactor| >= numberOfVariables
      ensures ok ==> forall v :: 0 <= v < numberOfVariables ==> mrf.unaryFactor[v] == Some(Zeros(cardinality[v]))
      ensures ok ==> forall v :: numberOfVariables <= v < |mrf.unaryFactor| ==>
                       mrf.unaryFactor[v] == if v < old(|mrf.unaryFactor|) then old(mrf.unaryFactor[v]) else None
      ensures ok ==> mrf.lp == old(mrf.lp) + UnaryEvents(numberOfVariables)
    {
      var i := 0;
      while i < numberOfVariables
        invariant i <= numberOfVariables && mrf.Valid()
        invariant forall v :: 0 <= v < i ==> !old(mrf.HasUnary(v))
        invariant i > 0 ==> |mrf.unaryFactor| >= i
        invariant |mrf.unaryFactor| >= old(|mrf.unaryFactor|)
        invariant forall v :: 0 <= v < i ==> mrf.unaryFactor[v] == Some(Zeros(cardinality[v]))
        invariant forall v :: i <= v < |mrf.unaryFactor| ==>
                    mrf.unaryFactor[v] == if v < old(|mrf.unaryFactor|) then old(mrf.unaryFactor[v]) else None
        invariant mrf.lp == old(mrf.lp) + UnaryEvents(i)
      {
        assert mrf.HasUnary(i) == old(mrf.HasUnary(i));
        var added := mrf.AddUnaryFactor(i, Zeros(cardinality[i]));
        if !added {
          return false;
        }
        assert UnaryEvents(i + 1) == UnaryEvents(i) + [AddFactor(Unary(i))];
        i := i + 1;
      }
      ok := true;
    }

    /** The second phase of `build_mrf`: each arity-1 clique overwrites its variable's
        zero unary, entry by entry. */
    method ApplyUnaryTables(mrf: MrfConstructor)
      requires WellFormed() && UnaryOverwritesOnZero() && mrf.Valid()
      requires |mrf.unaryFactor| >= numberOfVariables
      requires forall v :: 0 <= v < numberOfVariables ==> mrf.unaryFactor[v] == Some(Zeros(cardinality[v]))
      modifies mrf`unaryFactor
      ensures mrf.Valid() && |mrf.unaryFactor| == old(|mrf.unaryFactor|)
      ensures forall v :: 0 <= v < numberOfVariables ==>
                mrf.unaryFactor[v] == Some(UnaryCostAfter(cliqueScopes, functionTables, cardinality[v], v, |cliqueScopes|))
      ensures forall v :: numberOfVariables <= v < |mrf.unaryFactor| ==> mrf.unaryFactor[v] == old(mrf.unaryFactor[v])
    {
      ghost var unary0 := mrf.unaryFactor;
      assert mrf.unaryFactor == UnariesAfter(unary0, cliqueScopes, functionTables, cardinality, numberOfVariables, 0);
      ApplyUnaryCliques(mrf, unary0);
    }

    /** The loop of the second phase, from no clique to all of them. */
    method ApplyUnaryCliques(mrf: MrfConstructor, ghost unary0: seq<Option<Cost>>)
      requires WellFormed() && UnaryOverwritesOnZero() && |unary0| >= numberOfVariables
      requires UnaryPhaseState(mrf, unary0, 0)
      modifies mrf`unaryFactor
      ensures UnaryPhaseState(mrf, unary0, |cliqueScopes|)
    {
      var i := 0;
      while i < numberOfCliques
        invariant i <= numberOfCliques
        invariant UnaryPhaseState(mrf, unary0, i)
      {
        ApplyUnaryTable(mrf, i, unary0);
        i := i + 1;
      }
    }

    /** The second phase after the first `upTo` cliques, begun with the unary slots
        `unary0`: the builder is valid and its slots are `UnariesAfter` those cliques. */
    ghost predicate UnaryPhaseState(mrf: MrfConstructor, unary0: seq<Option<Cost>>, upTo: nat)
      reads this, mrf
      requires WellFormed() && upTo <= |cliqueScopes| && |unary0| >= numberOfVariables
    {
      && mrf.Valid()
      && mrf.unaryFactor == UnariesAfter(unary0, cliqueScopes, functionTables, cardinality, numberOfVariables, upTo)
    }

    /** One clique of the second phase: an overwrite when its arity is one. */
    method ApplyUnaryTable(mrf: MrfConstructor, i: nat, ghost unary0: seq<Option<Cost>>)
      requires WellFormed() && UnaryOverwritesOnZero()
      requires i < |cliqueScopes| && |unary0| >= numberOfVariables
      requires UnaryPhaseState(mrf, unary0, i)
      modifies mrf`unaryFactor
      ensures UnaryPhaseState(mrf, unary0, i + 1)
    {
      var after := UnariesAfter(unary0, cliqueScopes, functionTables, cardinality, numberOfVariables, i + 1);
      if |cliqueScopes[i]| != 1 {
        forall u | 0 <= u < |after| ensures after[u] == mrf.unaryFactor[u] {
          assert cliqueScopes[i] != [u];
        }
        return;
      }
      var v := cliqueScopes[i][0];
      assert cliqueScopes[i] == [v];
      var table := functionTables[i];
      var card := cardinality[v];
      forall j | 0 <= j < i && cliqueScopes[j] == [v] ensures functionTables[j] == Zeros(card) {
        assert cliqueScopes[j] == cliqueScopes[i];
      }
      UnaryCostAfterZero(cliqueScopes, functionTables, card, v, i);
      OverwriteUnary(mrf, v, table);
      forall u | 0 <= u < |after| ensures after[u] == mrf.unaryFactor[u] {
        if u != v {
          assert cliqueScopes[i] != [u];
        }
      }
    }

    /** The third phase of `build_mrf`: one pairwise factor per arity-2 clique, in clique
        order, its cost made from the table by `PairwiseCost`. */
    method AddPairwiseTables(mrf: MrfConstructor, transpose: bool)
      requires WellFormed() && mrf.Valid() && |mrf.unaryFactor| >= numberOfVariables
      requires forall v :: 0 <= v < numberOfVariables ==>
                 HasUnaryIn(mrf.unaryFactor, v) && LabelsIn(mrf.unaryFactor, v) == cardinality[v]
      requires forall i :: 0 <= i < |cliqueScopes| && |cliqueScopes[i]| == 2 ==>
                 (cliqueScopes[i][0], cliqueScopes[i][1]) !in mrf.pairwiseMap
      requires forall i, j :: 0 <= j < i < |cliqueScopes| && |cliqueScopes[i]| == 2 ==> cliqueScopes[j] != cliqueScopes[i]
      modifies mrf`pairwiseFactor, mrf`pairwiseIndices, mrf`pairwiseMap, mrf`leftMessage, mrf`rightMessage, mrf`lp
      ensures mrf.Valid()
      ensures mrf.pairwiseIndices == old(mrf.pairwiseIndices) + PairwiseKeys(cliqueScopes, |cliqueScopes|)
      ensures forall i :: 0 <= i < |cliqueScopes| && |cliqueScopes[i]| == 2 ==>
                PairwiseBuilt(mrf, cliqueScopes[i][0], cliqueScopes[i][1], functionTables[i], transpose)
      ensures mrf.lp == PairwiseLog(old(mrf.lp), cliqueScopes, |cliqueScopes|, old(|mrf.pairwiseFactor|))
    {
      ghost var keys0, lp0, id0 := mrf.pairwiseIndices, mrf.lp, |mrf.pairwiseFactor|;
      PairwisePhaseStart(mrf, transpose);
      AddPairwiseCliques(mrf, keys0, transpose, lp0, id0);
      PairwisePhaseEnd(mrf, keys0, lp0, id0, transpose);
    }

    /** The loop of the third phase, from no clique to all of them. */
    method AddPairwiseCliques(mrf: MrfConstructor, ghost keys0: seq<(nat, nat)>, transpose: bool,
                              ghost lp0: seq<LpEvent>, ghost id0: nat)
      requires WellFormed()
      requires forall k, j :: 0 <= j < k < |cliqueScopes| && |cliqueScopes[k]| == 2 ==> cliqueScopes[j] != cliqueScopes[k]
      requires PairwisePhaseState(mrf, keys0, lp0, id0, 0, transpose)
      modifies mrf`pairwiseFactor, mrf`pairwiseIndices, mrf`pairwiseMap, mrf`leftMessage, mrf`rightMessage, mrf`lp
      ensures PairwisePhaseState(mrf, keys0, lp0, id0, |cliqueScopes|, transpose)
    {
      var i := 0;
      while i < numberOfCliques
        invariant i <= numberOfCliques
        invariant PairwisePhaseState(mrf, keys0, lp0, id0, i, transpose)
      {
        AddPairwiseTable(mrf, i, keys0, transpose, lp0, id0);
        i := i + 1;
      }
    }

    /** The third phase after the first `upTo` cliques, begun with the keys `keys0`, the LP
        history `lp0` and `id0` pairwise factors: the builder is valid, every variable has
        its unary, the cliques so far are built, and the log holds their events in order. */
    ghost predicate PairwisePhaseState(mrf: MrfConstructor, keys0: seq<(nat, nat)>, lp0: seq<LpEvent>, id0: nat,
                                       upTo: nat, transpose: bool)
      reads this, mrf
      requires WellFormed() && upTo <= |cliqueScopes|
    {
      && mrf.Valid() && |mrf.unaryFactor| >= numberOfVariables
      && (forall v :: 0 <= v < numberOfVariables ==>
            HasUnaryIn(mrf.unaryFactor, v) && LabelsIn(mrf.unaryFactor, v) == cardinality[v])
      && PairwisePhaseAt(mrf.unaryFactor, mrf.pairwiseFactor, mrf.pairwiseIndices, mrf.pairwiseMap, keys0,
                         cliqueScopes, functionTables, upTo, transpose)
      && id0 == |keys0|
      && mrf.lp == PairwiseLog(lp0, cliqueScopes, upTo, id0)
    }

    lemma PairwisePhaseStart(mrf: MrfConstructor, transpose: bool)
      requires WellFormed() && mrf.Valid() && |mrf.unaryFactor| >= numberOfVariables
      requires forall v :: 0 <= v < numberOfVariables ==>
                 HasUnaryIn(mrf.unaryFactor, v) && LabelsIn(mrf.unaryFactor, v) == cardinality[v]
      requires forall i :: 0 <= i < |cliqueScopes| && |cliqueScopes[i]| == 2 ==>
                 (cliqueScopes[i][0], cliqueScopes[i][1]) !in mrf.pairwiseMap
      ensures PairwisePhaseState(mrf, mrf.pairwiseIndices, mrf.lp, |mrf.pairwiseFactor|, 0, transpose)
    {
      assert mrf.pairwiseIndices + [] == mrf.pairwiseIndices;
    }

    lemma PairwisePhaseEnd(mrf: MrfConstructor, keys0: seq<(nat, nat)>, lp0: seq<LpEvent>, id0: nat, transpose: bool)
      requires WellFormed() && PairwisePhaseState(mrf, keys0, lp0, id0, |cliqueScopes|, transpose)
      ensures mrf.Valid()
      ensures mrf.pairwiseIndices == keys0 + PairwiseKeys(cliqueScopes, |cliqueScopes|)
      ensures forall i :: 0 <= i < |cliqueScopes| && |cliqueScopes[i]| == 2 ==>
                PairwiseBuilt(mrf, cliqueScopes[i][0], cliqueScopes[i][1], functionTables[i], transpose)
      ensures mrf.lp == PairwiseLog(lp0, cliqueScopes, |cliqueScopes|, id0)
    {
    }

    /** One clique of the third phase: a pairwise factor when its arity is two, which the
        log of the phase, begun as `lp0` with `id0` factors, then reports. */
    method AddPairwiseTable(mrf: MrfConstructor, i: nat, ghost keys0: seq<(nat, nat)>, transpose: bool,
                            ghost lp0: seq<LpEvent>, ghost id0: nat)
      requires WellFormed() && i < |cliqueScopes|
      requires forall k, j :: 0 <= j < k < |cliqueScopes| && |cliqueScopes[k]| == 2 ==> cliqueScopes[j] != cliqueScopes[k]
      requires PairwisePhaseState(mrf, keys0, lp0, id0, i, transpose)
      modifies mrf`pairwiseFactor, mrf`pairwiseIndices, mrf`pairwiseMap, mrf`leftMessage, mrf`rightMessage, mrf`lp
      ensures PairwisePhaseState(mrf, keys0, lp0, id0, i + 1, transpose)
    {
      if |cliqueScopes[i]| != 2 {
        PairwisePhaseSkip(mrf.unaryFactor, mrf.pairwiseFactor, mrf.pairwiseIndices, mrf.pairwiseMap, keys0,
                          cliqueScopes, functionTables, i, transpose);
        return;
      }
      AddPairwiseTableOfPair(mrf, i, keys0, transpose, lp0, id0);
    }

    /** One arity-2 clique of the third phase, whose scope no later clique repeats. */
    method AddPairwiseTableOfPair(mrf: MrfConstructor, i: nat, ghost keys0: seq<(nat, nat)>, transpose: bool,
                                  ghost lp0: seq<LpEvent>, ghost id0: nat)
      requires WellFormed() && i < |cliqueScopes| && |cliqueScopes[i]| == 2
      requires forall k :: i < k < |cliqueScopes| && |cliqueScopes[k]| == 2 ==> cliqueScopes[k] != cliqueScopes[i]
      requires PairwisePhaseState(mrf, keys0, lp0, id0, i, transpose)
      modifies mrf`pairwiseFactor, mrf`pairwiseIndices, mrf`pairwiseMap, mrf`leftMessage, mrf`rightMessage, mrf`lp
      ensures PairwisePhaseState(mrf, keys0, lp0, id0, i + 1, transpose)
    {
      ghost var pf0, pi0, pmap0 := mrf.pairwiseFactor, mrf.pairwiseIndices, mrf.pairwiseMap;
      assert |pf0| == id0 + |PairwiseKeys(cliqueScopes, i)|;
      AddPairwiseClique(mrf, cliqueScopes[i][0], cliqueScopes[i][1], functionTables[i], transpose);
      PairwisePhaseAdd(mrf.unaryFactor, pf0, pi0, pmap0, mrf.pairwiseFactor, mrf.pairwiseIndices, mrf.pairwiseMap,
                       keys0, cliqueScopes, functionTables, i, transpose);
    }

    /** `build_mrf` as written: zero unaries for every variable, the arity-1 overwrites,
        then the pairwise factors, each holding its table exactly as the file lists it.
        It fails only where a unary slot was already taken. */
    method BuildMrf(mrf: MrfConstructor) returns (ok: bool)
      requires WellFormed() && UnaryOverwritesOnZero() && mrf.Valid()
      requires forall i :: 0 <= i < |cliqueScopes| && |cliqueScopes[i]| == 2 ==>
                 (cliqueScopes[i][0], cliqueScopes[i][1]) !in mrf.pairwiseMap
      requires forall i, j :: 0 <= j < i < |cliqueScopes| && |cliqueScopes[i]| == 2 ==> cliqueScopes[j] != cliqueScopes[i]
      modifies mrf`unaryFactor, mrf`pairwiseFactor, mrf`pairwiseIndices, mrf`pairwiseMap, mrf`leftMessage,
               mrf`rightMessage, mrf`lp
      ensures mrf.Valid()
      ensures ok <==> forall v :: 0 <= v < numberOfVariables ==> !old(mrf.HasUnary(v))
      ensures ok ==> BuiltFrom(mrf, old(mrf.unaryFactor), old(mrf.pairwiseIndices), old(|mrf.pairwiseFactor|), old(mrf.lp), false)
    {
      ok := BuildMrfWith(mrf, false);
    }

    /** `build_mrf` with the copy loop rearranging each pairwise table into the builder's
        layout, so that `GetPairwiseValue` returns the file's entry for each label pair. */
    method BuildMrfTransposed(mrf: MrfConstructor) returns (ok: bool)
      requires WellFormed() && UnaryOverwritesOnZero() && mrf.Valid()
      requires forall i :: 0 <= i < |cliqueScopes| && |cliqueScopes[i]| == 2 ==>
                 (cliqueScopes[i][0], cliqueScopes[i][1]) !in mrf.pairwiseMap
      requires forall i, j :: 0 <= j < i < |cliqueScopes| && |cliqueScopes[i]| == 2 ==> cliqueScopes[j] != cliqueScopes[i]
      modifies mrf`unaryFactor, mrf`pairwiseFactor, mrf`pairwiseIndices, mrf`pairwiseMap, mrf`leftMessage,
               mrf`rightMessage, mrf`lp
      ensures mrf.Valid()
      ensures ok <==> forall v :: 0 <= v < numberOfVariables ==> !old(mrf.HasUnary(v))
      ensures ok ==> BuiltFrom(mrf, old(mrf.unaryFactor), old(mrf.pairwiseIndices), old(|mrf.pairwiseFactor|), old(mrf.lp), true)
    {
      ok := BuildMrfWith(mrf, true);
    }

    /** What a successful `build_mrf` leaves, from the unary slots `unary0`, the pairs
        `keys0`, `count0` pairwise factors and the LP history `lp0`: every variable's unary
        is its last arity-1 table or zero, slots above the variables are as before or empty,
        every arity-2 clique is a keyed pairwise factor whose cost `PairwiseCost` makes
        from its table, in clique order, and the LP has seen the unaries in variable order,
        then each pairwise factor. */
    ghost predicate BuiltFrom(mrf: MrfConstructor, unary0: seq<Option<Cost>>, keys0: seq<(nat, nat)>, count0: nat,
                              lp0: seq<LpEvent>, transpose: bool)
      reads this, mrf
      requires WellFormed()
    {
      && |mrf.unaryFactor| >= numberOfVariables
      && (forall v :: 0 <= v < numberOfVariables ==>
            mrf.unaryFactor[v] == Some(UnaryCostAfter(cliqueScopes, functionTables, cardinality[v], v, |cliqueScopes|)))
      && (forall v :: numberOfVariables <= v < |mrf.unaryFactor| ==>
            mrf.unaryFactor[v] == if v < |unary0| then unary0[v] else None)
      && mrf.pairwiseIndices == keys0 + PairwiseKeys(cliqueScopes, |cliqueScopes|)
      && (forall i :: 0 <= i < |cliqueScopes| && |cliqueScopes[i]| == 2 ==>
            PairwiseBuilt(mrf, cliqueScopes[i][0], cliqueScopes[i][1], functionTables[i], transpose))
      && mrf.lp == PairwiseLog(lp0 + UnaryEvents(numberOfVariables), cliqueScopes, |cliqueScopes|, count0)
    }

    /** The three phases of `build_mrf`, the pairwise costs made by `PairwiseCost`. */
    method BuildMrfWith(mrf: MrfConstructor, transpose: bool) returns (ok: bool)
      requires WellFormed() && UnaryOverwritesOnZero() && mrf.Valid()
      requires forall i :: 0 <= i < |cliqueScopes| && |cliqueScopes[i]| == 2 ==>
                 (cliqueScopes[i][0], cliqueScopes[i][1]) !in mrf.pairwiseMap
      requires forall i, j :: 0 <= j < i < |cliqueScopes| && |cliqueScopes[i]| == 2 ==> cliqueScopes[j] != cliqueScopes[i]
      modifies mrf`unaryFactor, mrf`pairwiseFactor, mrf`pairwiseIndices, mrf`pairwiseMap, mrf`leftMessage,
               mrf`rightMessage, mrf`lp
      ensures mrf.Valid()
      ensures ok <==> forall v :: 0 <= v < numberOfVariables ==> !old(mrf.HasUnary(v))
      ensures ok ==> BuiltFrom(mrf, old(mrf.unaryFactor), old(mrf.pairwiseIndices), old(|mrf.pairwiseFactor|), old(mrf.lp), transpose)
    {
      ok := AddZeroUnaries(mrf);
      if !ok {
        return;
      }
      ApplyUnaryTables(mrf);
      forall v | 0 <= v < numberOfVariables
        ensures HasUnaryIn(mrf.unaryFactor, v) && LabelsIn(mrf.unaryFactor, v) == cardinality[v]
      {
        UnaryCostAfterSize(cliqueScopes, functionTables, cardinality, v, |cliqueScopes|);
      }
      AddPairwiseTables(mrf, transpose);
    }

    /** Every unary cost keeps the variable's cardinality as its size. */
    lemma {:induction false} UnaryCostAfterSize(scopes: seq<seq<nat>>, tables: seq<seq<real>>, card: seq<nat>,
                                                v: nat, upTo: nat)
      requires WellFormed() && scopes == cliqueScopes && tables == functionTables && card == cardinality
      requires v < numberOfVariables && upTo <= |scopes|
      ensures |UnaryCostAfter(scopes, tables, card[v], v, upTo)| == card[v]
    {
      if upTo > 0 {
        if scopes[upTo - 1] == [v] {
          assert |scopes[upTo - 1]| == 1 && scopes[upTo - 1][0] == v;
        } else {
          UnaryCostAfterSize(scopes, tables, card, v, upTo - 1);
        }
      }
    }
  }

  /** The overwrite step of one arity-1 clique: each entry of the zero unary of `v` in
      turn becomes the table's entry, checking first that it is still zero. */
  method OverwriteUnary(mrf: MrfConstructor, v: nat, table: seq<real>)
    requires mrf.Valid() && v < |mrf.unaryFactor| && mrf.unaryFactor[v] == Some(Zeros(|table|))
    modifies mrf`unaryFactor
    ensures mrf.Valid() && mrf.unaryFactor == old(mrf.unaryFactor)[v := Some(table)]
  {
    var card := |table|;
    var x := 0;
    assert table[..0] + Zeros(card)[0..] == Zeros(card);
    while x < |table|
      invariant x <= |table| && mrf.Valid()
      invariant mrf.unaryFactor == old(mrf.unaryFactor)[v := Some(table[..x] + Zeros(card)[x..])]
    {
      OverwriteStep(table, x);
      mrf.SetUnaryEntry(v, x, table[x]);
      x := x + 1;
    }
    assert table[..x] + Zeros(card)[x..] == table;
  }

  /** One entry of the overwrite: the entry `x` of a table written up to `x` is still zero,
      and writing it gives the table written up to `x + 1`. */
  lemma OverwriteStep(table: seq<real>, x: nat)
    requires x < |table|
    ensures (table[..x] + Zeros(|table|)[x..])[x] == 0.0
    ensures (table[..x] + Zeros(|table|)[x..])[x := table[x]] == table[..x + 1] + Zeros(|table|)[x + 1..]
  {
    var w := table[..x] + Zeros(|table|)[x..];
    assert w[x] == Zeros(|table|)[x];
    assert w[x := table[x]] == table[..x + 1] + Zeros(|table|)[x + 1..];
  }

  /** The third phase after the first `upTo` cliques: the keys so far follow `keys0`, the
      arity-2 cliques before `upTo` are built and the pairs of those after are still absent. */
  ghost predicate PairwisePhaseAt(unary: seq<Option<Cost>>, pf: seq<Cost>, pi: seq<(nat, nat)>,
                                  pmap: map<(nat, nat), nat>, keys0: seq<(nat, nat)>,
                                  scopes: seq<seq<nat>>, tables: seq<seq<real>>, upTo: nat, transpose: bool)
    requires upTo <= |scopes| == |tables|
  {
    && pi == keys0 + PairwiseKeys(scopes, upTo)
    && (forall k :: upTo <= k < |scopes| && |scopes[k]| == 2 ==> (scopes[k][0], scopes[k][1]) !in pmap)
    && (forall k :: 0 <= k < upTo && |scopes[k]| == 2 ==>
          PairwiseBuiltIn(unary, pf, pmap, scopes[k][0], scopes[k][1], tables[k], transpose))
  }

  /** A clique of another arity leaves the third phase where it was. */
  lemma PairwisePhaseSkip(unary: seq<Option<Cost>>, pf: seq<Cost>, pi: seq<(nat, nat)>,
                          pmap: map<(nat, nat), nat>, keys0: seq<(nat, nat)>,
                          scopes: seq<seq<nat>>, tables: seq<seq<real>>, i: nat, transpose: bool)
    requires i < |scopes| == |tables| && |scopes[i]| != 2
    requires PairwisePhaseAt(unary, pf, pi, pmap, keys0, scopes, tables, i, transpose)
    ensures PairwisePhaseAt(unary, pf, pi, pmap, keys0, scopes, tables, i + 1, transpose)
  {
    assert PairwiseKeys(scopes, i + 1) == PairwiseKeys(scopes, i);
  }

  /** An arity-2 clique whose cost is appended under a fresh key moves the
      third phase one clique on, provided no later clique has the same scope. */
  lemma PairwisePhaseAdd(unary: seq<Option<Cost>>, pf0: seq<Cost>, pi0: seq<(nat, nat)>,
                         pmap0: map<(nat, nat), nat>, pf: seq<Cost>, pi: seq<(nat, nat)>,
                         pmap: map<(nat, nat), nat>, keys0: seq<(nat, nat)>,
                         scopes: seq<seq<nat>>, tables: seq<seq<real>>, i: nat, transpose: bool)
    requires i < |scopes| == |tables| && |scopes[i]| == 2
    requires forall k :: i < k < |scopes| && |scopes[k]| == 2 ==> scopes[k] != scopes[i]
    requires PairwisePhaseAt(unary, pf0, pi0, pmap0, keys0, scopes, tables, i, transpose)
    requires HasUnaryIn(unary, scopes[i][0]) && HasUnaryIn(unary, scopes[i][1])
    requires |tables[i]| == LabelsIn(unary, scopes[i][0]) * LabelsIn(unary, scopes[i][1])
    requires pf == pf0 + [PairwiseCost(tables[i], LabelsIn(unary, scopes[i][0]), LabelsIn(unary, scopes[i][1]), transpose)]
    requires pi == pi0 + [(scopes[i][0], scopes[i][1])]
    requires pmap == pmap0[(scopes[i][0], scopes[i][1]) := |pf0|]
    ensures PairwisePhaseAt(unary, pf, pi, pmap, keys0, scopes, tables, i + 1, transpose)
  {
    var key := (scopes[i][0], scopes[i][1]);
    assert PairwiseKeys(scopes, i + 1) == PairwiseKeys(scopes, i) + [key];
    assert pi == (keys0 + PairwiseKeys(scopes, i)) + [key];
    forall k | i < k < |scopes| && |scopes[k]| == 2
      ensures (scopes[k][0], scopes[k][1]) !in pmap
    {
      assert scopes[k] == [scopes[k][0], scopes[k][1]];
      assert scopes[i] == [key.0, key.1];
    }
    forall k | 0 <= k < i && |scopes[k]| == 2
      ensures PairwiseBuiltIn(unary, pf, pmap, scopes[k][0], scopes[k][1], tables[k], transpose)
    {
      PairwiseBuiltKept(unary, pf0, pmap0, pf, pmap, scopes[k][0], scopes[k][1], tables[k], transpose);
    }
  }

  /** The factor-building step of one arity-2 clique: the table, copied as written or
      rearranged by the label counts of its variables, becomes a new pairwise factor and
      the LP hears of it and of its two messages. */
  method AddPairwiseClique(mrf: MrfConstructor, v1: nat, v2: nat, table: seq<real>, transpose: bool)
    requires mrf.Valid() && v1 < v2 && (v1, v2) !in mrf.pairwiseMap
    requires mrf.HasUnary(v1) && mrf.HasUnary(v2) && mrf.Labels(v1) > 0 && mrf.Labels(v2) > 0
    requires |table| == mrf.Labels(v1) * mrf.Labels(v2)
    modifies mrf`pairwiseFactor, mrf`pairwiseIndices, mrf`pairwiseMap, mrf`leftMessage, mrf`rightMessage, mrf`lp
    ensures mrf.Valid()
    ensures mrf.pairwiseFactor == old(mrf.pairwiseFactor) + [PairwiseCost(table, mrf.Labels(v1), mrf.Labels(v2), transpose)]
    ensures mrf.pairwiseIndices == old(mrf.pairwiseIndices) + [(v1, v2)]
    ensures mrf.pairwiseMap == old(mrf.pairwiseMap)[(v1, v2) := old(|mrf.pairwiseFactor|)]
    ensures mrf.lp == old(mrf.lp) + PairwiseEvents(v1, old(|mrf.pairwiseFactor|), v2)
  {
    var dim1, dim2 := mrf.GetNumberOfLabels(v1), mrf.GetNumberOfLabels(v2);
    var pairwiseCost;
    if transpose {
      pairwiseCost := TransposePairwiseTable(table, dim1, dim2);
    } else {
      pairwiseCost := CopyPairwiseTable(table, dim1, dim2);
    }
    var _ := mrf.AddPairwiseFactor(v1, v2, pairwiseCost);
  }

  /** The pair `(v1, v2)` is keyed to a factor whose cost `PairwiseCost` makes from
      `table` and the label counts of `v1` and `v2`. */
  ghost predicate PairwiseBuilt(mrf: MrfConstructor, v1: nat, v2: nat, table: seq<real>, transpose: bool)
    reads mrf
  {
    PairwiseBuiltIn(mrf.unaryFactor, mrf.pairwiseFactor, mrf.pairwiseMap, v1, v2, table, transpose)
  }

  ghost predicate PairwiseBuiltIn(unary: seq<Option<Cost>>, pf: seq<Cost>, pmap: map<(nat, nat), nat>,
                                  v1: nat, v2: nat, table: seq<real>, transpose: bool)
  {
    && (v1, v2) in pmap && pmap[(v1, v2)] < |pf|
    && HasUnaryIn(unary, v1) && HasUnaryIn(unary, v2)
    && |table| == LabelsIn(unary, v1) * LabelsIn(unary, v2)
    && pf[pmap[(v1, v2)]] == PairwiseCost(table, LabelsIn(unary, v1), LabelsIn(unary, v2), transpose)
  }

  /** Appending factors and keys leaves a built pair built. */
  lemma PairwiseBuiltKept(unary: seq<Option<Cost>>, pf0: seq<Cost>, pmap0: map<(nat, nat), nat>,
                          pf: seq<Cost>, pmap: map<(nat, nat), nat>, v1: nat, v2: nat, table: seq<real>,
                          transpose: bool)
    requires PairwiseBuiltIn(unary, pf0, pmap0, v1, v2, table, transpose)
    requires pf0 <= pf
    requires forall key :: key in pmap0 ==> key in pmap && pmap[key] == pmap0[key]
    ensures PairwiseBuiltIn(unary, pf, pmap, v1, v2, table, transpose)
  {
    var id := pmap0[(v1, v2)];
    assert pf[id] == pf0[id];
  }
}
