/**
 * Importing an externally edited copy of the ratings table: a conservative,
 * one-directional merge keyed by image identifier.
 */
module Merge {
  import opened Wrappers
  import opened Ledger

  predicate UniqueUuids(rows: seq<Record>) {
    forall i, j :: 0 <= i < j < |rows| ==> rows[i].imageUuid != rows[j].imageUuid
  }

  /** The first row carrying the identifier `uuid`, or None when no row does. */
  function FindUuid(rows: seq<Record>, uuid: string): (r: Option<nat>)
    ensures r.None? <==> forall i :: 0 <= i < |rows| ==> rows[i].imageUuid != uuid
    ensures r.Some? ==> r.value < |rows| && rows[r.value].imageUuid == uuid
    ensures r.Some? ==> forall j :: 0 <= j < r.value ==> rows[j].imageUuid != uuid
  {
    if rows == [] then None
    else if rows[0].imageUuid == uuid then Some(0)
    else
      match FindUuid(rows[1..], uuid)
      case None => None
      case Some(k) => Some(k + 1)
  }

  /** The effect of one imported row on the table being built. */
  function MergeRow(rows: seq<Record>, row: Record, onDisk: set<string>): (r: seq<Record>)
    ensures |rows| <= |r| <= |rows| + 1
    ensures |r| == |rows| + 1 <==>
      (forall i :: 0 <= i < |rows| ==> rows[i].imageUuid != row.imageUuid) && row.imagePath in onDisk
    ensures |r| == |rows| + 1 ==> r == rows + [row]
    ensures forall j :: 0 <= j < |rows| && r[j] != rows[j] ==>
      && row.rating.Some?
      && rows[j].imageUuid == row.imageUuid
      && (forall i :: 0 <= i < j ==> rows[i].imageUuid != row.imageUuid)
      && r[j] == rows[j].(done := row.done, rating := row.rating)
    ensures forall j ::
      (0 <= j < |rows| && rows[j].imageUuid == row.imageUuid && row.rating.Some?
       && forall i :: 0 <= i < j ==> rows[i].imageUuid != row.imageUuid)
      ==> r[j] == rows[j].(done := row.done, rating := row.rating)
  {
    match FindUuid(rows, row.imageUuid)
    case Some(i) =>
      if row.rating.Some? then rows[i := rows[i].(done := row.done, rating := row.rating)] else rows
    case None =>
      if row.imagePath in onDisk then rows + [row] else rows
  }

  /** The table after merging the imported rows one after another, in order. */
  function Merged(rows: seq<Record>, imported: seq<Record>, onDisk: set<string>): (r: seq<Record>)
    ensures |r| <= |rows| + |imported|
  {
    if imported == [] then rows
    else
      var n := |imported| - 1;
      MergeRow(Merged(rows, imported[..n], onDisk), imported[n], onDisk)
  }

  /** The merge loop over a copy of the current table. */
  method MergeRatings(current: seq<Record>, imported: seq<Record>, onDisk: set<string>)
    returns (result: seq<Record>)
    ensures result == Merged(current, imported, onDisk)
  {
    result := current;
    var k := 0;
    while k < |imported|
      invariant 0 <= k <= |imported|
      invariant result == Merged(current, imported[..k], onDisk)
    {
      var row := imported[k];
      var found := FindUuid(result, row.imageUuid);
      match found {
        case Some(i) =>
          if row.rating.Some? {
            result := result[i := result[i].(done := row.done, rating := row.rating)];
          }
        case None =>
          if row.imagePath in onDisk {
            result := result + [row];
          }
      }
      assert imported[..k + 1][..k] == imported[..k];
      k := k + 1;
    }
    assert imported[..|imported|] == imported;
  }

  /** Merging never removes or reorders a row of the current table, and it
      changes no row's path or identifier. */
  lemma {:induction false} MergedKeepsBase(rows: seq<Record>, imported: seq<Record>, onDisk: set<string>)
    ensures var r := Merged(rows, imported, onDisk);
      && |r| >= |rows|
      && forall j :: 0 <= j < |rows| ==>
           r[j].imagePath == rows[j].imagePath && r[j].imageUuid == rows[j].imageUuid
  {
    if imported != [] {
      var n := |imported| - 1;
      MergedKeepsBase(rows, imported[..n], onDisk);
    }
  }

  /** Every appended row comes from an imported row whose file exists. */
  lemma {:induction false} MergedAppendsFromImport(rows: seq<Record>, imported: seq<Record>, onDisk: set<string>)
    ensures var r := Merged(rows, imported, onDisk);
      forall j :: |rows| <= j < |r| ==>
        && r[j].imagePath in onDisk
        && exists k :: 0 <= k < |imported| && imported[k].imagePath == r[j].imagePath
                       && imported[k].imageUuid == r[j].imageUuid
  {
    if imported != [] {
      var n := |imported| - 1;
      var prefix := imported[..n];
      var mid := Merged(rows, prefix, onDisk);
      var r := Merged(rows, imported, onDisk);
      MergedAppendsFromImport(rows, prefix, onDisk);
      MergedKeepsBase(rows, prefix, onDisk);
      forall j | |rows| <= j < |r|
        ensures r[j].imagePath in onDisk
        ensures exists k :: 0 <= k < |imported| && imported[k].imagePath == r[j].imagePath
                            && imported[k].imageUuid == r[j].imageUuid
      {
        if j < |mid| {
          var k :| 0 <= k < |prefix| && prefix[k].imagePath == mid[j].imagePath
                   && prefix[k].imageUuid == mid[j].imageUuid;
          assert imported[k] == prefix[k];
        } else {
          assert r[j] == imported[n];
        }
      }
    }
  }

  /** A row whose identifier no imported row carries comes out unchanged. */
  lemma {:induction false} MergedUntouched(rows: seq<Record>, imported: seq<Record>, onDisk: set<string>)
    ensures var r := Merged(rows, imported, onDisk);
      && |r| >= |rows|
      && forall j :: 0 <= j < |rows| && (forall k :: 0 <= k < |imported| ==> imported[k].imageUuid != rows[j].imageUuid)
           ==> r[j] == rows[j]
  {
    MergedKeepsBase(rows, imported, onDisk);
    if imported != [] {
      var n := |imported| - 1;
      var prefix := imported[..n];
      var mid := Merged(rows, prefix, onDisk);
      MergedUntouched(rows, prefix, onDisk);
      MergedKeepsBase(rows, prefix, onDisk);
      forall j | 0 <= j < |rows| && (forall k :: 0 <= k < |imported| ==> imported[k].imageUuid != rows[j].imageUuid)
        ensures Merged(rows, imported, onDisk)[j] == rows[j]
      {
        assert forall k :: 0 <= k < |prefix| ==> prefix[k] == imported[k];
        assert mid[j] == rows[j];
        assert imported[n].imageUuid != mid[j].imageUuid;
      }
    }
  }

  /** Merging one of the table's own rows, when identifiers are unique,
      changes nothing. */
  lemma MergeRowOwn(rows: seq<Record>, i: nat, onDisk: set<string>)
    requires i < |rows|
    requires UniqueUuids(rows)
    ensures MergeRow(rows, rows[i], onDisk) == rows
  {
    var row := rows[i];
    var found := FindUuid(rows, row.imageUuid);
    assert found.Some?;
    assert rows[found.value].imageUuid == rows[i].imageUuid;
    assert found.value == i;
    assert rows[i := row.(done := row.done, rating := row.rating)] == rows;
  }

  /** Merging a table with identifiers of its own, a prefix at a time, gives
      back the same table. */
  lemma {:induction false} MergeOwnPrefix(rows: seq<Record>, k: nat, onDisk: set<string>)
    requires k <= |rows|
    requires UniqueUuids(rows)
    ensures Merged(rows, rows[..k], onDisk) == rows
  {
    if k > 0 {
      assert rows[..k][..k - 1] == rows[..k - 1];
      assert rows[..k][k - 1] == rows[k - 1];
      MergeOwnPrefix(rows, k - 1, onDisk);
      MergeRowOwn(rows, k - 1, onDisk);
    }
  }

  /** Importing an unmodified export of the table changes nothing. */
  lemma MergeOwnExport(rows: seq<Record>, onDisk: set<string>)
    requires UniqueUuids(rows)
    ensures Merged(rows, rows, onDisk) == rows
  {
    MergeOwnPrefix(rows, |rows|, onDisk);
    assert rows[..|rows|] == rows;
  }

  /** An imported row with an unknown identifier is appended even when its
      path already has a row, so the merge can repeat a path. */
  lemma MergeCanRepeatPath()
    ensures var rows := [Record("data/a.jpg", "u-1", false, None)];
      var imported := [Record("data/a.jpg", "u-2", true, Some(1))];
      UniquePaths(rows) && !UniquePaths(Merged(rows, imported, {"data/a.jpg"}))
  {
    var rows := [Record("data/a.jpg", "u-1", false, None)];
    var imported := [Record("data/a.jpg", "u-2", true, Some(1))];
    assert imported[..0] == [];
    var r := Merged(rows, imported, {"data/a.jpg"});
    assert r == rows + imported;
    assert r[0].imagePath == r[1].imagePath;
  }
}
