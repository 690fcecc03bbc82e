/**
 * The ratings table of the image rater: one record per image, kept in the
 * order in which rows were added. Positions in a sequence stand for the
 * table's positional row labels, which stay 0..n-1 because every
 * concatenation renumbers rows.
 */
module Ledger {
  import opened Wrappers

  /** One row: image_path, image_uuid, done, rating (None for NaN). */
  datatype Record = Record(imagePath: string, imageUuid: string, done: bool, rating: Option<int>)

  /** The set of paths already present in a table. */
  function PathSet(rows: seq<Record>): set<string> {
    set r | r in rows :: r.imagePath
  }

  predicate NoDuplicates(s: seq<string>) {
    forall i, j :: 0 <= i < j < |s| ==> s[i] != s[j]
  }

  predicate UniquePaths(rows: seq<Record>) {
    forall i, j :: 0 <= i < j < |rows| ==> rows[i].imagePath != rows[j].imagePath
  }

  // ---------------------------------------------------------------------
  // Reconciliation with a folder scan
  // ---------------------------------------------------------------------

  /** The scanned paths that the table does not know yet, in scan order. */
  function NewPaths(scan: seq<string>, known: set<string>): (r: seq<string>)
    ensures |r| <= |scan|
    ensures forall p :: p in r <==> p in scan && p !in known
  {
    if scan == [] then []
    else
      assert forall p :: p in scan <==> p == scan[0] || p in scan[1..];
      (if scan[0] in known then [] else [scan[0]]) + NewPaths(scan[1..], known)
  }

  /** Rows for paths seen for the first time: not done, no rating, and the
      identifier that the k-th call of the generator produced. */
  function FreshRecords(paths: seq<string>, uuids: seq<string>): (r: seq<Record>)
    requires |paths| <= |uuids|
    ensures |r| == |paths|
    ensures forall k :: 0 <= k < |r| ==> r[k].imagePath == paths[k] && r[k].imageUuid == uuids[k]
    ensures forall k :: 0 <= k < |r| ==> !r[k].done && r[k].rating.None?
    ensures PathSet(r) == set p | p in paths
  {
    if paths == [] then []
    else
      var head := [Record(paths[0], uuids[0], false, None)];
      var rest := FreshRecords(paths[1..], uuids[1..]);
      PathSetConcat(head, rest);
      PathsUncons(paths);
      head + rest
  }

  /** The paths of a non-empty list: its first path and the paths of its tail. */
  lemma PathsUncons(paths: seq<string>)
    requires paths != []
    ensures (set p | p in paths) == {paths[0]} + (set p | p in paths[1..])
  {
    assert paths == [paths[0]] + paths[1..];
  }

  /** The table that initialization produces from the stored table (None
      when no ratings file exists) and the scanned paths. */
  function Reconcile(stored: Option<seq<Record>>, scan: seq<string>, uuids: seq<string>): (r: seq<Record>)
    requires |scan| <= |uuids|
    ensures stored.Some? ==> |stored.value| <= |r| && r[..|stored.value|] == stored.value
    ensures PathSet(r) == (if stored.Some? then PathSet(stored.value) else {}) + set p | p in scan
  {
    match stored
    case None => FreshRecords(scan, uuids)
    case Some(existing) =>
      var added := FreshRecords(NewPaths(scan, PathSet(existing)), uuids);
      PathSetConcat(existing, added);
      assert (existing + added)[..|existing|] == existing;
      existing + added
  }

  lemma PathSetConcat(a: seq<Record>, b: seq<Record>)
    ensures PathSet(a + b) == PathSet(a) + PathSet(b)
  {
    assert forall r :: r in a + b <==> r in a || r in b;
  }

  /** Whether reconciliation appends rows to a stored table. */
  predicate AppendsRows(stored: Option<seq<Record>>, scan: seq<string>) {
    stored.Some? && NewPaths(scan, PathSet(stored.value)) != []
  }

  /** The loop that builds the rows for new paths, one record per path. */
  method NewRecords(paths: seq<string>, uuids: seq<string>) returns (rows: seq<Record>)
    requires |paths| <= |uuids|
    ensures rows == FreshRecords(paths, uuids)
  {
    rows := [];
    var k := 0;
    while k < |paths|
      invariant 0 <= k <= |paths|
      invariant |rows| == k
      invariant forall j :: 0 <= j < k ==> rows[j] == Record(paths[j], uuids[j], false, None)
    {
      rows := rows + [Record(paths[k], uuids[k], false, None)];
      k := k + 1;
    }
  }

  /** Without a stored table: one unrated row per scanned path, in scan order. */
  lemma ReconcileFresh(scan: seq<string>, uuids: seq<string>)
    requires |scan| <= |uuids|
    ensures var r := Reconcile(None, scan, uuids);
      && |r| == |scan|
      && forall k :: 0 <= k < |r| ==> r[k] == Record(scan[k], uuids[k], false, None)
  {
  }

  /** With a stored table: the stored rows stay as they are and where they
      are, and one unrated row follows for every scanned path not yet
      present, in scan order. */
  lemma ReconcileExisting(existing: seq<Record>, scan: seq<string>, uuids: seq<string>)
    requires |scan| <= |uuids|
    ensures var r := Reconcile(Some(existing), scan, uuids);
      var added := NewPaths(scan, PathSet(existing));
      && |r| == |existing| + |added|
      && r[..|existing|] == existing
      && (forall k :: 0 <= k < |added| ==> r[|existing| + k] == Record(added[k], uuids[k], false, None))
      && (forall p :: p in added <==> p in scan && p !in PathSet(existing))
  {
    var r := Reconcile(Some(existing), scan, uuids);
    assert r[..|existing|] == existing;
  }

  /** The new-path filter keeps scan order: it distributes over concatenation. */
  lemma {:induction false} NewPathsAppend(s1: seq<string>, s2: seq<string>, known: set<string>)
    ensures NewPaths(s1 + s2, known) == NewPaths(s1, known) + NewPaths(s2, known)
  {
    if s1 == [] {
      assert s1 + s2 == s2;
    } else {
      assert (s1 + s2)[0] == s1[0];
      assert (s1 + s2)[1..] == s1[1..] + s2;
      NewPathsAppend(s1[1..], s2, known);
    }
  }

  /** A scan whose every path is known contributes no new path. */
  lemma {:induction false} NewPathsAllKnown(scan: seq<string>, known: set<string>)
    requires forall p :: p in scan ==> p in known
    ensures NewPaths(scan, known) == []
  {
    if scan != [] {
      assert scan[0] in scan;
      assert forall p :: p in scan[1..] ==> p in scan;
      NewPathsAllKnown(scan[1..], known);
    }
  }

  lemma {:induction false} NewPathsNoDuplicates(scan: seq<string>, known: set<string>)
    requires NoDuplicates(scan)
    ensures NoDuplicates(NewPaths(scan, known))
  {
    if scan != [] {
      var tail := scan[1..];
      assert NoDuplicates(tail) by {
        forall i, j | 0 <= i < j < |tail| ensures tail[i] != tail[j] {
          assert tail[i] == scan[i + 1] && tail[j] == scan[j + 1];
        }
      }
      NewPathsNoDuplicates(tail, known);
      assert scan[0] !in tail by {
        forall j | 0 <= j < |tail| ensures tail[j] != scan[0] {
          assert tail[j] == scan[j + 1];
        }
      }
    }
  }

  /** After initialization every scanned path has a row. */
  lemma ReconcileCovers(stored: Option<seq<Record>>, scan: seq<string>, uuids: seq<string>)
    requires |scan| <= |uuids|
    ensures forall p :: p in scan ==> p in PathSet(Reconcile(stored, scan, uuids))
  {
    var r := Reconcile(stored, scan, uuids);
    forall p | p in scan ensures p in PathSet(r) {
      match stored
      case None =>
        var k :| 0 <= k < |scan| && scan[k] == p;
        assert r[k] in r;
      case Some(existing) =>
        var added := NewPaths(scan, PathSet(existing));
        if p in PathSet(existing) {
          var e :| e in existing && e.imagePath == p;
          assert e in r;
        } else {
          var k :| 0 <= k < |added| && added[k] == p;
          assert r[|existing| + k] in r;
        }
    }
  }

  /** Initialization keeps paths unique when the stored table has unique
      paths and the scan lists each file once. */
  lemma ReconcileUniquePaths(stored: Option<seq<Record>>, scan: seq<string>, uuids: seq<string>)
    requires |scan| <= |uuids|
    requires NoDuplicates(scan)
    requires stored.Some? ==> UniquePaths(stored.value)
    ensures UniquePaths(Reconcile(stored, scan, uuids))
  {
    var r := Reconcile(stored, scan, uuids);
    match stored
    case None =>
      forall i, j | 0 <= i < j < |r| ensures r[i].imagePath != r[j].imagePath {
        assert r[i].imagePath == scan[i] && r[j].imagePath == scan[j];
      }
    case Some(existing) =>
      var added := NewPaths(scan, PathSet(existing));
      NewPathsNoDuplicates(scan, PathSet(existing));
      var n := |existing|;
      forall i, j | 0 <= i < j < |r| ensures r[i].imagePath != r[j].imagePath {
        if j < n {
          assert r[i] == existing[i] && r[j] == existing[j];
        } else if i < n {
          assert r[i] == existing[i] && existing[i] in existing;
          assert r[i].imagePath in PathSet(existing);
          assert r[j].imagePath == added[j - n] && added[j - n] in added;
        } else {
          assert r[i].imagePath == added[i - n] && r[j].imagePath == added[j - n];
        }
      }
  }

  /** Reconciling the resulting table again against the same scan (a rescan
      of an unchanged folder) adds nothing. */
  lemma ReconcileIdempotent(stored: Option<seq<Record>>, scan: seq<string>, uuids: seq<string>, uuids2: seq<string>)
    requires |scan| <= |uuids| && |scan| <= |uuids2|
    ensures var r := Reconcile(stored, scan, uuids);
      Reconcile(Some(r), scan, uuids2) == r && !AppendsRows(Some(r), scan)
  {
    var r := Reconcile(stored, scan, uuids);
    ReconcileCovers(stored, scan, uuids);
    NewPathsAllKnown(scan, PathSet(r));
    assert r + FreshRecords([], uuids2) == r;
  }

  /** A non-empty scan always yields a non-empty table. */
  lemma ReconcileNonEmpty(stored: Option<seq<Record>>, scan: seq<string>, uuids: seq<string>)
    requires |scan| <= |uuids|
    requires scan != []
    ensures |Reconcile(stored, scan, uuids)| > 0
  {
    ReconcileCovers(stored, scan, uuids);
    assert scan[0] in scan;
  }

  // ---------------------------------------------------------------------
  // Navigation lookups
  // ---------------------------------------------------------------------

  predicate Increasing(s: seq<nat>) {
    forall i, j :: 0 <= i < j < |s| ==> s[i] < s[j]
  }

  /** The positions of the rows not yet done, in table order. */
  function UnratedIndices(rows: seq<Record>): (u: seq<nat>)
    ensures Increasing(u)
    ensures forall k :: 0 <= k < |u| ==> u[k] < |rows| && !rows[u[k]].done
    ensures forall i :: 0 <= i < |rows| && !rows[i].done ==> i in u
  {
    if rows == [] then []
    else
      var n := |rows| - 1;
      UnratedIndices(rows[..n]) + (if rows[n].done then [] else [n])
  }

  /** The lowest position whose row is not done, or None when all are done. */
  function FirstUnrated(rows: seq<Record>): (r: Option<nat>)
    ensures r.None? <==> forall i :: 0 <= i < |rows| ==> rows[i].done
    ensures r.Some? ==> r.value < |rows| && !rows[r.value].done
    ensures r.Some? ==> forall j :: 0 <= j < r.value ==> rows[j].done
  {
    var u := UnratedIndices(rows);
    if |u| > 0 then Some(u[0]) else None
  }

  /** The positions in `u` other than `x`, in order. */
  function Without(u: seq<nat>, x: nat): (r: seq<nat>)
    ensures forall y :: y in r <==> y in u && y != x
    ensures x !in u ==> r == u
    ensures Increasing(u) ==> Increasing(r) && |r| >= |u| - 1
  {
    if u == [] then []
    else
      assert forall y :: y in u <==> y == u[0] || y in u[1..];
      var rest := Without(u[1..], x);
      assert Increasing(u) ==> forall k :: 0 <= k < |rest| ==> u[0] < rest[k] by {
        if Increasing(u) {
          forall k | 0 <= k < |rest| ensures u[0] < rest[k] {
            assert rest[k] in u[1..];
          }
        }
      }
      (if u[0] == x then [] else [u[0]]) + rest
  }

  /** The head of an increasing sequence is its least element. */
  lemma IncreasingHeadLeast(s: seq<nat>)
    requires Increasing(s) && |s| > 0
    ensures forall y :: y in s ==> s[0] <= y
  {
    forall y | y in s ensures s[0] <= y {
      var k :| 0 <= k < |s| && s[k] == y;
      assert k == 0 || s[0] < s[k];
    }
  }

  /** A sequence of at most one element holds no two different values. */
  lemma AtMostOneValue(u: seq<nat>)
    requires |u| <= 1
    ensures forall a, b :: a in u && b in u ==> a == b
  {
    forall a, b | a in u && b in u ensures a == b {
      assert u == [u[0]];
    }
  }

  /** More than one unrated position exactly when two rows are unrated. */
  lemma SeveralUnrated(rows: seq<Record>)
    ensures |UnratedIndices(rows)| > 1 <==> exists i, j :: 0 <= i < j < |rows| && !rows[i].done && !rows[j].done
  {
    var u := UnratedIndices(rows);
    if |u| > 1 {
      assert !rows[u[0]].done && !rows[u[1]].done && u[0] < u[1];
    } else {
      AtMostOneValue(u);
    }
  }

  /** The first unrated position other than `current` is the lowest such. */
  lemma FirstOtherUnrated(rows: seq<Record>, current: nat)
    requires |UnratedIndices(rows)| > 1
    ensures var others := Without(UnratedIndices(rows), current);
      && |others| > 0
      && others[0] < |rows| && !rows[others[0]].done && others[0] != current
      && forall j :: 0 <= j < others[0] && j != current ==> rows[j].done
  {
    var u := UnratedIndices(rows);
    var others := Without(u, current);
    IncreasingHeadLeast(others);
    assert others[0] in others;
  }

  /** Where a skip moves: the lowest unrated position other than the current
      one, and only when more than one row is unrated. */
  function SkipTarget(rows: seq<Record>, current: nat): (r: Option<nat>)
    ensures r.Some? <==> exists i, j :: 0 <= i < j < |rows| && !rows[i].done && !rows[j].done
    ensures r.Some? ==> r.value < |rows| && !rows[r.value].done && r.value != current
    ensures r.Some? ==> forall j :: 0 <= j < r.value && j != current ==> rows[j].done
  {
    SeveralUnrated(rows);
    var u := UnratedIndices(rows);
    if |u| > 1 then
      FirstOtherUnrated(rows, current);
      Some(Without(u, current)[0])
    else
      None
  }

  // ---------------------------------------------------------------------
  // Row updates
  // ---------------------------------------------------------------------

  /** Row `i` marked done with the given rating. */
  function Marked(rows: seq<Record>, i: nat, rating: Option<int>): (r: seq<Record>)
    requires i < |rows|
    ensures |r| == |rows|
    ensures r[i].done && r[i].rating == rating
    ensures r[i].imagePath == rows[i].imagePath && r[i].imageUuid == rows[i].imageUuid
    ensures forall j :: 0 <= j < |rows| && j != i ==> r[j] == rows[j]
  {
    rows[i := rows[i].(done := true, rating := rating)]
  }

  /** Row `i` reset to not done, without a rating. */
  function Unmarked(rows: seq<Record>, i: nat): (r: seq<Record>)
    requires i < |rows|
    ensures |r| == |rows|
    ensures !r[i].done && r[i].rating.None?
    ensures r[i].imagePath == rows[i].imagePath && r[i].imageUuid == rows[i].imageUuid
    ensures forall j :: 0 <= j < |rows| && j != i ==> r[j] == rows[j]
  {
    rows[i := rows[i].(done := false, rating := None)]
  }

  /** Every row reset to not done, without a rating. */
  function Cleared(rows: seq<Record>): (r: seq<Record>)
    ensures |r| == |rows|
    ensures forall i :: 0 <= i < |r| ==>
      !r[i].done && r[i].rating.None? && r[i].imagePath == rows[i].imagePath && r[i].imageUuid == rows[i].imageUuid
  {
    seq(|rows|, i requires 0 <= i < |rows| => rows[i].(done := false, rating := None))
  }

  /** Undoing a mark brings the row back to unrated, whatever it held before
      the mark; a row that was unrated before is restored exactly. */
  lemma UnmarkUndoesMark(rows: seq<Record>, i: nat, rating: Option<int>)
    requires i < |rows|
    ensures Unmarked(Marked(rows, i, rating), i) == Unmarked(rows, i)
    ensures !rows[i].done && rows[i].rating.None? ==> Unmarked(Marked(rows, i, rating), i) == rows
  {
  }

  /** After a reset navigation starts again at the first row. */
  lemma ClearedRestarts(rows: seq<Record>)
    ensures FirstUnrated(Cleared(rows)) == (if rows == [] then None else Some(0))
  {
    var c := Cleared(rows);
    if rows != [] {
      assert !c[0].done;
    }
  }
}
