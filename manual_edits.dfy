/** The set of manually edited cells that `update_schedule_cell` keeps, in
    schedule_app_patched_fixed.py and optimized_shift_scheduler.py: a key
    is added when a cell is given a value and removed when it is cleared. */
module ManualEdits {
  import opened Duties
  import opened Grids
  import opened Calendar
  import Engine

  /** The set after one edit of `key` to `value`. */
  function Edited<K(!new)>(cells: set<K>, key: K, value: Duty): (r: set<K>)
    ensures key in r <==> value != Empty
    ensures forall k :: k != key ==> (k in r <==> k in cells)
  {
    if value != Empty then cells + {key} else cells - {key}
  }

  /** The set after a run of edits, first to last. */
  function Replay<K(!new)>(cells: set<K>, edits: seq<(K, Duty)>): set<K>
    decreases |edits|
  {
    if |edits| == 0 then cells
    else Edited(Replay(cells, edits[..|edits| - 1]), edits[|edits| - 1].0, edits[|edits| - 1].1)
  }

  /** The value of the last edit of `key`, if there is one. */
  function LastEdit<K(==)>(edits: seq<(K, Duty)>, key: K): Option<Duty>
    decreases |edits|
  {
    if |edits| == 0 then None
    else if edits[|edits| - 1].0 == key then Some(edits[|edits| - 1].1)
    else LastEdit(edits[..|edits| - 1], key)
  }


  /** A key is in the set after a run of edits exactly when its last edit
      gave a value, or, if the run never edited it, when it was there
      before. */
  lemma {:induction false} LastEditDecides<K(!new)>(cells: set<K>, edits: seq<(K, Duty)>, key: K)
    ensures key in Replay(cells, edits) <==>
      match LastEdit(edits, key)
      case None => key in cells
      case Some(x) => x != Empty
    decreases |edits|
  {
    if |edits| > 0 && edits[|edits| - 1].0 != key {
      LastEditDecides(cells, edits[..|edits| - 1], key);
    }
  }

  /** The tracker owned by the application window. */
  class EditTracker<K(==,!new)> {
    var cells: set<K>

    constructor ()
      ensures cells == {}
    {
      cells := {};
    }

    /** Add the key for a non-empty value, otherwise drop it if present. */
    method Record(key: K, value: Duty)
      modifies this
      ensures cells == Edited(old(cells), key, value)
    {
      if value != Empty {
        cells := cells + {key};
      } else {
        if key in cells {
          cells := cells - {key};
        }
      }
    }

    /** The patched program's handler: an edit on the name column records
        nothing, any other edit is recorded. */
    method UpdateCell(onNameColumn: bool, key: K, value: Duty)
      modifies this
      ensures cells == if onNameColumn then old(cells) else Edited(old(cells), key, value)
    {
      if onNameColumn {
        return;
      }
      Record(key, value);
    }
  }

  /** A cell whose last edit gave it a value, which the previous table
      holds, is seeded by the patched engine and kept by every phase after
      the seed. */
  lemma EditedCellSurvives(workers: nat, cols: seq<DayColumn>, prior: map<Engine.Key, Duty>, cells: set<Engine.Key>,
                           edits: seq<(Engine.Key, Duty)>, g: Grid, w: nat, d: nat, x: Duty)
    requires w < workers && d < |cols|
    requires LastEdit(edits, (w, cols[d])) == Some(x) && x != Empty
    requires (w, cols[d]) in prior && prior[(w, cols[d])] == x
    requires Extends(Engine.SeedGrid(workers, cols, prior, Replay(cells, edits)), g)
    ensures g[w][d] == x
  {
    LastEditDecides(cells, edits, (w, cols[d]));
  }
}
