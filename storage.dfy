/**
 * The CSV ledger store of services/storage.py. The file system is a map from
 * path to the rows of the file at that path; a path that is not a key has no
 * file. Every operation reads or rewrites the whole file at one path.
 */
module Storage {

  type Path = string

  /** One CSV row, as `read_all` types it; `type` is a keyword here, so the field is `kind`. */
  datatype Row = Row(date: string, kind: string, category: string, description: string, amount: int)

  type Disk = map<Path, seq<Row>>

  /** The rows stored at `path`; a missing file reads as a header-only one. */
  function Rows(disk: Disk, path: Path): seq<Row> {
    if path in disk then disk[path] else []
  }

  /** The disk after `ensure_csv(path)`. */
  function Ensured(disk: Disk, path: Path): (d: Disk)
    ensures path in d && Rows(d, path) == Rows(disk, path)
    ensures path in disk ==> d == disk
    ensures d - {path} == disk - {path}
  {
    if path in disk then disk else disk[path := []]
  }

  /** The disk after `append_row(row, path)`. */
  function Appended(disk: Disk, path: Path, row: Row): (d: Disk)
    ensures d - {path} == disk - {path}
  {
    var current := Rows(Ensured(disk, path), path);
    Ensured(disk, path)[path := current + [row]]
  }

  /** The disk after `overwrite(rows, path)`. */
  function Overwritten(disk: Disk, path: Path, rows: seq<Row>): (d: Disk)
    ensures d - {path} == disk - {path}
  {
    disk[path := rows]
  }

  class LedgerStore {
    var disk: Disk

    constructor(initial: Disk)
      ensures disk == initial
    {
      disk := initial;
    }

    /** Create a header-only file at `path` unless one exists. */
    method EnsureCsv(path: Path)
      modifies this
      ensures disk == Ensured(old(disk), path)
    {
      if path !in disk {
        disk := disk[path := []];
      }
    }

    /** Ensure the file, then return its rows in file order. */
    method ReadAll(path: Path) returns (rows: seq<Row>)
      modifies this
      ensures disk == Ensured(old(disk), path)
      ensures rows == Rows(old(disk), path)
    {
      EnsureCsv(path);
      rows := disk[path];
    }

    /** Read the whole file, add `row` at the end and write it all back; nothing is validated. */
    method AppendRow(row: Row, path: Path)
      modifies this
      ensures disk == Appended(old(disk), path, row)
    {
      EnsureCsv(path);
      var current := disk[path];
      disk := disk[path := current + [row]];
    }

    /** Replace the file at `path` with exactly `rows`. */
    method Overwrite(rows: seq<Row>, path: Path)
      modifies this
      ensures disk == Overwritten(old(disk), path, rows)
    {
      disk := disk[path := rows];
    }

    /**
     * Delete-by-selection as the account book page does it: with nothing
     * selected nothing is written; otherwise read the rows, keep those whose
     * position is not selected, and overwrite the file with them.
     */
    method DeleteSelected(selected: set<nat>, path: Path)
      modifies this
      ensures selected == {} ==> disk == old(disk)
      ensures selected != {} ==> disk == Overwritten(old(disk), path, Unselected(Rows(old(disk), path), selected))
    {
      if selected == {} {
        return;
      }
      var rows := ReadAll(path);
      Overwrite(Unselected(rows, selected), path);
    }
  }

  /** `ensure_csv` is idempotent. */
  lemma EnsureIdempotent(disk: Disk, path: Path)
    ensures Ensured(Ensured(disk, path), path) == Ensured(disk, path)
  {
  }

  /** After `append_row` the file holds the old rows followed by exactly the new one. */
  lemma ReadAfterAppend(disk: Disk, path: Path, row: Row)
    ensures Rows(Appended(disk, path, row), path) == Rows(disk, path) + [row]
    ensures |Rows(Appended(disk, path, row), path)| == |Rows(disk, path)| + 1
  {
  }

  /** `overwrite` then `read_all` gives back exactly the rows written, whatever was there. */
  lemma ReadAfterOverwrite(disk: Disk, path: Path, rows: seq<Row>)
    ensures Ensured(Overwritten(disk, path, rows), path) == Overwritten(disk, path, rows)
    ensures Rows(Overwritten(disk, path, rows), path) == rows
  {
  }

  /** Every operation leaves the files at other paths as they were. */
  lemma OtherPathsUntouched(disk: Disk, path: Path, other: Path, row: Row, rows: seq<Row>)
    requires other != path
    ensures Rows(Ensured(disk, path), other) == Rows(disk, other)
    ensures Rows(Appended(disk, path, row), other) == Rows(disk, other)
    ensures Rows(Overwritten(disk, path, rows), other) == Rows(disk, other)
    ensures (other in Appended(disk, path, row)) == (other in disk)
    ensures (other in Overwritten(disk, path, rows)) == (other in disk)
  {
    assert other in Appended(disk, path, row) - {path} <==> other in disk - {path};
    assert other in Overwritten(disk, path, rows) - {path} <==> other in disk - {path};
    assert other in Ensured(disk, path) - {path} <==> other in disk - {path};
  }

  /** Appending rows one by one, in order. */
  function AppendEach(disk: Disk, path: Path, rows: seq<Row>): Disk
    decreases |rows|
  {
    if rows == [] then disk else AppendEach(Appended(disk, path, rows[0]), path, rows[1..])
  }

  /** Appends are order-preserving: the file ends with the appended rows, in the order appended. */
  lemma {:induction false} ReadAfterAppendEach(disk: Disk, path: Path, rows: seq<Row>)
    ensures Rows(AppendEach(disk, path, rows), path) == Rows(disk, path) + rows
    decreases |rows|
  {
    if rows != [] {
      ReadAfterAppend(disk, path, rows[0]);
      ReadAfterAppendEach(Appended(disk, path, rows[0]), path, rows[1..]);
      assert [rows[0]] + rows[1..] == rows;
    }
  }

  /** The round trip of the storage test: a fresh file, one appended row, one row read back. */
  lemma FreshFileRoundTrip(disk: Disk, path: Path)
    requires path !in disk
    ensures var row := Row("2025-08-18", "지출", "식비", "테스트", 5000);
            var rows := Rows(Appended(Ensured(disk, path), path, row), path);
            |rows| == 1 && rows[0].amount == 5000
  {
  }

  /** The positions below `n` that `selected` does not name, in increasing order. */
  function KeptPositions(n: nat, selected: set<nat>): (idx: seq<nat>)
    ensures forall k | 0 <= k < |idx| :: idx[k] < n
    ensures forall k, l | 0 <= k < l < |idx| :: idx[k] < idx[l]
    ensures forall i | 0 <= i < n :: i in idx <==> i !in selected
  {
    if n == 0 then []
    else KeptPositions(n - 1, selected) + if n - 1 in selected then [] else [n - 1]
  }

  /** The rows whose position is not in `selected`, in their original order. */
  function Unselected(rows: seq<Row>, selected: set<nat>): (r: seq<Row>)
    ensures |r| <= |rows|
  {
    if rows == [] then []
    else
      var last := |rows| - 1;
      Unselected(rows[..last], selected) + if last in selected then [] else [rows[last]]
  }

  /** The k-th kept row is the row at the k-th unselected position. */
  lemma {:induction false} UnselectedPositions(rows: seq<Row>, selected: set<nat>)
    ensures var idx := KeptPositions(|rows|, selected);
            |Unselected(rows, selected)| == |idx| &&
            forall k | 0 <= k < |idx| :: Unselected(rows, selected)[k] == rows[idx[k]]
  {
    if rows != [] {
      var last := |rows| - 1;
      var front := rows[..last];
      UnselectedPositions(front, selected);
      var before := Unselected(front, selected);
      var idx0 := KeptPositions(last, selected);
      var u := Unselected(rows, selected);
      var idx := KeptPositions(|rows|, selected);
      assert u == before + if last in selected then [] else [rows[last]];
      assert idx == idx0 + if last in selected then [] else [last];
      forall k | 0 <= k < |idx|
        ensures u[k] == rows[idx[k]]
      {
        if k < |idx0| {
          assert u[k] == before[k] == front[idx0[k]];
        }
      }
    }
  }

  /** The positions of `rows` that a selection names. */
  function SelectedPositions(rows: seq<Row>, selected: set<nat>): set<nat> {
    set i | i in selected && i < |rows|
  }

  /** Deleting removes exactly the selected rows: nothing else goes, nothing new appears. */
  lemma {:induction false} UnselectedKeepsTheRest(rows: seq<Row>, selected: set<nat>)
    ensures |Unselected(rows, selected)| + |SelectedPositions(rows, selected)| == |rows|
    ensures forall x :: x in Unselected(rows, selected) ==> x in rows
    ensures forall i :: 0 <= i < |rows| && i !in selected ==> rows[i] in Unselected(rows, selected)
  {
    if rows != [] {
      var last := |rows| - 1;
      UnselectedKeepsTheRest(rows[..last], selected);
      var before := SelectedPositions(rows[..last], selected);
      if last in selected {
        assert SelectedPositions(rows, selected) == before + {last};
      } else {
        assert SelectedPositions(rows, selected) == before;
      }
    }
  }

  /** Selecting nothing deletes nothing. */
  lemma {:induction false} UnselectedNothing(rows: seq<Row>)
    ensures Unselected(rows, {}) == rows
  {
    if rows != [] {
      var last := |rows| - 1;
      UnselectedNothing(rows[..last]);
      assert rows == rows[..last] + [rows[last]];
    }
  }

  /**
   * Delete a selection, then read the file back: the result is the unselected
   * rows of the file as it was, in their order.
   */
  method DeleteThenRead(store: LedgerStore, selected: set<nat>, path: Path) returns (rows: seq<Row>)
    modifies store
    ensures rows == Unselected(old(Rows(store.disk, path)), selected)
  {
    store.DeleteSelected(selected, path);
    rows := store.ReadAll(path);
    if selected == {} {
      UnselectedNothing(rows);
    }
  }
}
