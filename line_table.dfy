/**
 * The libdwarf backend's per-compilation-unit line map: program counter to
 * the index of a row of the unit's line table.  Several rows can start at
 * the same address; the map keeps the first of them.
 */
module LineTable {
  import opened Common

  /**
   * One row of the line table as the library reports its address: None when
   * dwarf_lineaddr fails, in which case the row is filed under address 0.
   */
  function RowAddr(row: Option<U64>): (a: nat)
    ensures row.Some? ==> a == row.value
    ensures row.None? ==> a == 0
  {
    if row.Some? then row.value else 0
  }

  /** The map after inserting the rows in order, insert never overwriting. */
  function LineMap(rows: seq<Option<U64>>): (m: map<nat, nat>)
    ensures forall a :: a in m ==> m[a] < |rows|
  {
    if rows == [] then map[]
    else
      var m := LineMap(rows[..|rows| - 1]);
      var a := RowAddr(rows[|rows| - 1]);
      if a in m then m else m[a := |rows| - 1]
  }

  /**
   * An address is in the map exactly when some row starts there, and it
   * maps to the first such row.
   */
  lemma LineMapKeepsFirstRow(rows: seq<Option<U64>>)
    ensures forall a :: a in LineMap(rows) <==> exists i :: 0 <= i < |rows| && RowAddr(rows[i]) == a
    ensures forall a :: a in LineMap(rows) ==>
      && RowAddr(rows[LineMap(rows)[a]]) == a
      && forall j :: 0 <= j < LineMap(rows)[a] ==> RowAddr(rows[j]) != a
  {
    LineMapKeys(rows);
    LineMapFirstRows(rows);
  }

  lemma {:induction false} LineMapKeys(rows: seq<Option<U64>>)
    ensures forall a :: a in LineMap(rows) <==> exists i :: 0 <= i < |rows| && RowAddr(rows[i]) == a
  {
    if rows != [] {
      var init := rows[..|rows| - 1];
      LineMapKeys(init);
      assert forall i :: 0 <= i < |init| ==> init[i] == rows[i];
    }
  }

  lemma {:induction false} LineMapFirstRows(rows: seq<Option<U64>>)
    ensures forall a :: a in LineMap(rows) ==>
      && RowAddr(rows[LineMap(rows)[a]]) == a
      && forall j :: 0 <= j < LineMap(rows)[a] ==> RowAddr(rows[j]) != a
  {
    if rows != [] {
      var init := rows[..|rows| - 1];
      LineMapFirstRows(init);
      LineMapKeys(init);
      assert forall i :: 0 <= i < |init| ==> init[i] == rows[i];
    }
  }

  /** get_die_cache: the loop over the rows of the unit's line table. */
  method BuildLineMap(rows: seq<Option<U64>>) returns (lineSection: map<nat, nat>)
    ensures lineSection == LineMap(rows)
  {
    lineSection := map[];
    var i := 0;
    while i < |rows|
      invariant i <= |rows|
      invariant lineSection == LineMap(rows[..i])
    {
      var lineAddr: U64 := 0;
      if rows[i].Some? {
        lineAddr := rows[i].value;
      }
      if lineAddr !in lineSection {
        lineSection := lineSection[lineAddr := i];
      }
      assert rows[..i + 1][..i] == rows[..i];
      i := i + 1;
    }
    assert rows[..i] == rows;
  }

  /**
   * The row for an address: lower_bound, then one step back unless the
   * key matches exactly.  Below the first key and above the last there is
   * no row.
   */
  function LineAt(m: map<nat, nat>, address: nat): (r: Option<nat>)
    ensures r.Some? <==> KeysAtMost(m, address) != {} && exists k :: k in m && k >= address
    ensures r.Some? ==> r.value == m[MaxOf(KeysAtMost(m, address))]
  {
    var above := set k | k in m && k >= address;
    assert forall k :: k in m && k >= address ==> k in above;
    if above == {} then None
    else
      var it := MinOf(above);
      if it == address then Some(m[address])
      else
        var below := KeysAtMost(m, address);
        if below == {} then None
        else Some(m[MaxOf(below)])
  }
}
