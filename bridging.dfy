/**
 * `load_bridging_data`: the LXX-to-NT lexicon cross-reference read from a
 * CSV file. The file is a parameter: `None` when it does not exist, else its
 * rows already split into fields.
 */
module Bridging {
  import opened Wrappers
  import opened Collect

  /** A row with at least two fields contributes `row[0] -> row[1]`; shorter rows nothing. */
  function BridgingEntry(row: seq<string>): (r: Option<(string, string)>)
    ensures r.Some? <==> |row| >= 2
    ensures r.Some? ==> r.value.0 == row[0] && r.value.1 == row[1]
  {
    if |row| >= 2 then Some((row[0], row[1])) else None
  }

  /** Row `i` has at least two fields and its first one is `k`. */
  ghost predicate KeyedRow(rows: seq<seq<string>>, i: int, k: string)
  {
    0 <= i < |rows| && |rows[i]| >= 2 && rows[i][0] == k
  }

  /** Row `i` has at least two fields and no later such row has the same first field. */
  ghost predicate IsLastRowForKey(rows: seq<seq<string>>, i: int)
  {
    && 0 <= i < |rows| && |rows[i]| >= 2
    && forall j :: i < j < |rows| && |rows[j]| >= 2 ==> rows[j][0] != rows[i][0]
  }

  /**
   * Without the file the result is empty. Otherwise a key is present exactly
   * when some qualifying row starts with it, and it maps to the second field
   * of the last such row.
   */
  method LoadBridgingData(file: Option<seq<seq<string>>>) returns (mapping: map<string, string>)
    ensures file.None? ==> mapping == map[]
    ensures file.Some? ==> mapping == LastWins(file.value, BridgingEntry)
    ensures file.Some? ==> forall k :: k in mapping <==> exists i :: KeyedRow(file.value, i, k)
    ensures file.Some? ==> forall i :: IsLastRowForKey(file.value, i) ==>
      file.value[i][0] in mapping && mapping[file.value[i][0]] == file.value[i][1]
  {
    mapping := map[];
    if file.None? {
      return;
    }
    var rows := file.value;
    var n := 0;
    while n < |rows|
      invariant 0 <= n <= |rows|
      invariant mapping == LastWins(rows[..n], BridgingEntry)
    {
      var row := rows[n];
      if |row| >= 2 {
        mapping := mapping[row[0] := row[1]];
      }
      assert rows[..n + 1][..n] == rows[..n];
      n := n + 1;
    }
    assert rows[..n] == rows;
    forall k ensures k in mapping <==> exists i :: KeyedRow(rows, i, k) {
      LastWinsKeys(rows, BridgingEntry, k);
      assert forall i :: HasEntry(rows, BridgingEntry, i, k) <==> KeyedRow(rows, i, k);
    }
    forall i | IsLastRowForKey(rows, i)
      ensures rows[i][0] in mapping && mapping[rows[i][0]] == rows[i][1]
    {
      LastWinsValue(rows, BridgingEntry, i);
    }
  }
}
