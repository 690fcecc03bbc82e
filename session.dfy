/**
 * The per-session state of the image rater: the ratings table, the row on
 * screen, the undo history of rated rows and the all-rated flag. Each
 * button of the interface is one method call.
 */
module RatingApp {
  import opened Wrappers
  import opened Ledger
  import opened Merge

  class Session {
    var rows: seq<Record>
    var history: seq<nat>
    var currentIndex: nat
    var allRated: bool
    /** The value stored under the `initialized` key. The key exists from the
        first request on; only its absence triggers initialization. */
    var initialized: bool

    /** The row on screen and every undo entry name rows of the table (the
        position is 0 while the table is empty). */
    ghost predicate Valid()
      reads this
    {
      && (currentIndex == 0 || currentIndex < |rows|)
      && forall k :: 0 <= k < |history| ==> history[k] < |rows|
    }

    /** Navigation as the unrated-image check leaves it: on the lowest
        unrated row, or in the all-rated state when there is none. */
    ghost predicate AtFirstUnrated()
      reads this
    {
      match FirstUnrated(rows)
      case None => allRated
      case Some(i) => !allRated && currentIndex == i
    }

    /** The first request of a session, the only one on which the
        `initialized` key is absent: an empty history, then initialization
        against the ratings file as it was found (None when absent). */
    constructor Start(scan: seq<string>, stored: Option<seq<Record>>, uuids: seq<string>)
      requires scan != [] && |scan| <= |uuids|
      ensures Valid() && history == [] && initialized
      ensures rows == Reconcile(stored, scan, uuids) && rows != []
      ensures AppendsRows(stored, scan) ==> currentIndex == 0 && !allRated
      ensures !AppendsRows(stored, scan) ==> AtFirstUnrated() && (allRated ==> currentIndex == 0)
    {
      rows, history, currentIndex, allRated, initialized := [], [], 0, false, false;
      new;
      var found := Initialize(scan, stored, uuids);
      assert found;
      ReconcileNonEmpty(stored, scan, uuids);
    }

    /** Initialization: an empty scan halts after resetting the position;
        otherwise the table is reconciled with the scan. When rows were
        appended to a stored table the session reruns at once, so the
        unrated-image check is skipped and the all-rated flag is left as it
        was. */
    method Initialize(scan: seq<string>, stored: Option<seq<Record>>, uuids: seq<string>) returns (found: bool)
      requires Valid() && |scan| <= |uuids|
      requires history == [] || stored == Some(rows)
      modifies this
      ensures Valid() && history == old(history) && initialized
      ensures found == (scan != [])
      ensures !found ==> rows == old(rows) && currentIndex == 0 && allRated == old(allRated)
      ensures found ==> rows == Reconcile(stored, scan, uuids)
      ensures found && AppendsRows(stored, scan) ==> currentIndex == 0 && allRated == old(allRated)
      ensures found && !AppendsRows(stored, scan) ==> AtFirstUnrated() && (allRated ==> currentIndex == 0)
    {
      initialized := true;
      currentIndex := 0;
      if scan == [] {
        return false;
      }
      found := true;
      ReconcileNonEmpty(stored, scan, uuids);
      match stored {
        case None =>
          rows := FreshRecords(scan, uuids);
          CheckUnrated();
        case Some(existing) =>
          var newPaths := NewPaths(scan, PathSet(existing));
          if newPaths != [] {
            var added := NewRecords(newPaths, uuids);
            rows := existing + added;
          } else {
            rows := existing;
            CheckUnrated();
          }
      }
    }

    /** The rescan button: it stores false under the `initialized` key and
        reruns. The rerun tests whether the key exists, and it does, so
        nothing is scanned and the table and navigation stay as they were. */
    method Rescan()
      modifies this`initialized
      ensures !initialized
      ensures rows == old(rows) && history == old(history)
      ensures currentIndex == old(currentIndex) && allRated == old(allRated)
    {
      initialized := false;
    }

    /** The rescan the button is meant to perform: initialization again
        against the ratings file this session wrote after its last change,
        followed by the unrated-image check so that appended rows are offered
        for rating. */
    method RescanChecked(scan: seq<string>, uuids: seq<string>) returns (found: bool)
      requires Valid() && |scan| <= |uuids|
      modifies this
      ensures Valid() && history == old(history) && initialized
      ensures found == (scan != [])
      ensures !found ==> rows == old(rows) && currentIndex == 0 && allRated == old(allRated)
      ensures found ==> rows == Reconcile(Some(old(rows)), scan, uuids)
      ensures found ==> old(rows) == rows[..|old(rows)|]
      ensures found ==> forall p :: p in scan ==> p in PathSet(rows)
      ensures found ==> AtFirstUnrated() && (allRated ==> currentIndex == 0)
      ensures found ==> (allRated <==> forall i :: 0 <= i < |rows| ==> rows[i].done)
    {
      found := Initialize(scan, Some(rows), uuids);
      if found {
        CheckUnrated();
      }
    }

    /** The unrated-image check: move to the lowest unrated row, or enter the
        all-rated state. */
    method CheckUnrated()
      requires Valid()
      modifies this`currentIndex, this`allRated
      ensures Valid() && AtFirstUnrated()
      ensures allRated <==> forall i :: 0 <= i < |rows| ==> rows[i].done
      ensures allRated ==> currentIndex == old(currentIndex)
    {
      match FirstUnrated(rows) {
        case Some(i) =>
          currentIndex := i;
          allRated := false;
        case None =>
          allRated := true;
      }
    }

    /** Rate the row on screen (None is the NaN that an unreadable image
        gets), push it on the history and move to the lowest unrated row. */
    method SaveRating(rating: Option<int>)
      requires Valid() && currentIndex < |rows|
      modifies this`rows, this`history, this`currentIndex, this`allRated
      ensures Valid()
      ensures rows == Marked(old(rows), old(currentIndex), rating)
      ensures history == old(history) + [old(currentIndex)]
      ensures match FirstUnrated(rows)
        case Some(i) => currentIndex == i && allRated == old(allRated)
        case None => allRated && currentIndex == old(currentIndex)
    {
      var i := currentIndex;
      ghost var before := rows;
      rows := rows[i := rows[i].(rating := rating)];
      rows := rows[i := rows[i].(done := true)];
      assert |rows| == |before| && rows == Marked(before, i, rating);
      history := history + [i];
      match FirstUnrated(rows) {
        case Some(next) => currentIndex := next;
        case None => allRated := true;
      }
    }

    /** Undo: pop the last rated row, clear it and show it again. With an
        empty history nothing changes. */
    method GoBack() returns (moved: bool)
      requires Valid()
      modifies this`rows, this`history, this`currentIndex, this`allRated
      ensures Valid()
      ensures moved == (old(history) != [])
      ensures !moved ==>
        rows == old(rows) && history == old(history) && currentIndex == old(currentIndex) && allRated == old(allRated)
      ensures moved ==>
        var i := old(history)[|old(history)| - 1];
        && history == old(history)[..|old(history)| - 1]
        && rows == Unmarked(old(rows), i)
        && currentIndex == i
        && !allRated
    {
      if |history| > 0 {
        var i := history[|history| - 1];
        history := history[..|history| - 1];
        rows := rows[i := rows[i].(done := false)];
        rows := rows[i := rows[i].(rating := None)];
        currentIndex := i;
        allRated := false;
        moved := true;
      } else {
        moved := false;
      }
    }

    /** Skip: move to the lowest unrated row other than the one on screen,
        when more than one row is unrated. */
    method Skip()
      requires Valid()
      modifies this`currentIndex
      ensures Valid()
      ensures match SkipTarget(rows, old(currentIndex))
        case Some(i) => currentIndex == i
        case None => currentIndex == old(currentIndex)
    {
      match SkipTarget(rows, currentIndex) {
        case Some(i) => currentIndex := i;
        case None =>
      }
    }

    /** The reset button: clear every rating and the history, then run the
        unrated-image check. */
    method Reset()
      requires Valid()
      modifies this`rows, this`history, this`currentIndex, this`allRated
      ensures Valid()
      ensures rows == Cleared(old(rows)) && history == []
      ensures old(rows) != [] ==> currentIndex == 0 && !allRated
      ensures old(rows) == [] ==> allRated && currentIndex == old(currentIndex)
    {
      ClearedRestarts(rows);
      rows := Cleared(rows);
      allRated := false;
      history := [];
      CheckUnrated();
    }

    /** Import: merge a well-formed imported table (None when the file
        lacks a required column or cannot be read) into the table. */
    method Import(imported: Option<seq<Record>>, onDisk: set<string>)
      requires Valid()
      modifies this`rows
      ensures Valid()
      ensures rows == match imported
        case None => old(rows)
        case Some(table) => Merged(old(rows), table, onDisk)
    {
      if imported.Some? {
        MergedKeepsBase(rows, imported.value, onDisk);
        rows := MergeRatings(rows, imported.value, onDisk);
      }
    }
  }

  /** Rating the row on screen and then going back restores the history and
      the position and leaves the row unrated. */
  method RateThenGoBack(s: Session, rating: Option<int>)
    requires s.Valid() && s.currentIndex < |s.rows|
    modifies s`rows, s`history, s`currentIndex, s`allRated
    ensures s.Valid()
    ensures s.history == old(s.history)
    ensures s.currentIndex == old(s.currentIndex)
    ensures s.rows == Unmarked(old(s.rows), old(s.currentIndex))
    ensures !s.allRated
  {
    ghost var before := s.rows;
    s.SaveRating(rating);
    var moved := s.GoBack();
    assert (old(s.history) + [old(s.currentIndex)])[..|old(s.history)|] == old(s.history);
    UnmarkUndoesMark(before, old(s.currentIndex), rating);
  }

  /** Two images, no ratings file: rate the first, then undo. */
  method TwoImageSession() returns (s: Session)
    ensures |s.rows| == 2 && s.history == []
    ensures s.rows[0] == Record("data/a.jpg", "u-a", false, None)
    ensures s.currentIndex == 0 && !s.allRated
  {
    s := new Session.Start(["data/a.jpg", "data/b.jpg"], None, ["u-a", "u-b"]);
    assert s.rows == [Record("data/a.jpg", "u-a", false, None), Record("data/b.jpg", "u-b", false, None)];
    assert !s.rows[0].done && FirstUnrated(s.rows).Some?;
    assert s.currentIndex == 0 && !s.allRated;
    s.SaveRating(Some(1));
    assert s.rows[0] == Record("data/a.jpg", "u-a", true, Some(1));
    assert s.currentIndex == 1;
    var moved := s.GoBack();
  }

  /** A folder that gains an image before the rescan button is pressed: in
      the session as written the new path gets no row. */
  method RescanAddsNoRow() returns (s: Session)
    ensures "data/b.jpg" !in PathSet(s.rows)
  {
    s := new Session.Start(["data/a.jpg"], None, ["u-a"]);
    s.Rescan();
    assert s.rows == [Record("data/a.jpg", "u-a", false, None)];
    assert PathSet(s.rows) == {"data/a.jpg"};
  }

  /** The same folder under the intended rescan: the new path gets a row. */
  method RescanCheckedAddsRow() returns (t: Session)
    ensures "data/b.jpg" in PathSet(t.rows)
  {
    var scan := ["data/a.jpg", "data/b.jpg"];
    assert "data/b.jpg" == scan[1];
    t := new Session.Start(scan[..1], None, ["u-a"]);
    var found := t.RescanChecked(scan, ["u-b", "u-c"]);
    assert scan[1] in PathSet(t.rows);
  }
}
