/** The bounded undo/redo history of filter states (`saveFilterState`, `undoFilter`,
    `redoFilter`) as functions of the entry list and the current index. The methods of
    `FilterTool.CsvFilterTool` that update the tool's fields are specified by these. */
module History {
  import opened Filters

  /** One saved state: the assembled filters and the time `Date.now()` gave. */
  datatype HistoryEntry = HistoryEntry(filters: seq<Filter>, timestamp: int)

  /** At most this many entries are kept. */
  const MaxHistory: nat := 50

  /** The history invariant: the index is -1 exactly for the empty history and otherwise
      points at an entry, and the history never exceeds its bound. */
  predicate WellFormed(entries: seq<HistoryEntry>, index: int) {
    -1 <= index < |entries| <= MaxHistory && (index == -1 <==> entries == [])
  }

  /** The history after saving one more state. */
  datatype Saved = Saved(entries: seq<HistoryEntry>, index: int)

  /** Drop the entries after the current one, append the new one, point at it, and drop the
      oldest entry when there are more than `MaxHistory`. */
  function Save(entries: seq<HistoryEntry>, index: int, entry: HistoryEntry): Saved
    requires -1 <= index < |entries|
  {
    var kept := if index < |entries| - 1 then entries[..index + 1] else entries;
    var pushed := kept + [entry];
    if |pushed| > MaxHistory then Saved(pushed[1..], |pushed| - 2)
    else Saved(pushed, |pushed| - 1)
  }

  /** After a save: the new state is the last entry and the current one; the entries before
      it are the latest of those up to the old current entry (the redo branch is gone);
      their number is capped so the history keeps its invariant. */
  lemma SaveSpec(entries: seq<HistoryEntry>, index: int, entry: HistoryEntry)
    requires WellFormed(entries, index)
    ensures var s := Save(entries, index, entry); var n := |s.entries|;
      && WellFormed(s.entries, s.index)
      && s.index == n - 1
      && s.entries[n - 1] == entry
      && n == (if index + 2 > MaxHistory then MaxHistory else index + 2)
      && s.entries[..n - 1] == entries[index + 2 - n..index + 1]
  {
    var s := Save(entries, index, entry);
    var kept := if index < |entries| - 1 then entries[..index + 1] else entries;
    assert kept == entries[..index + 1];
    var pushed := kept + [entry];
    if |pushed| > MaxHistory {
      assert s.entries[..|s.entries| - 1] == kept[1..];
    } else {
      assert s.entries[..|s.entries| - 1] == kept;
    }
  }

  /** `undoFilter`: step back one entry unless at the first. */
  function Undo(entries: seq<HistoryEntry>, index: int): (i: int)
    ensures WellFormed(entries, index) ==> WellFormed(entries, i)
    ensures i == index || (i == index - 1 && index > 0)
  {
    if index > 0 then index - 1 else index
  }

  /** `redoFilter`: step forward one entry unless at the last. */
  function Redo(entries: seq<HistoryEntry>, index: int): (i: int)
    ensures WellFormed(entries, index) ==> WellFormed(entries, i)
    ensures i == index || (i == index + 1 && index < |entries| - 1)
  {
    if index < |entries| - 1 then index + 1 else index
  }

  /** Redo undoes an undo that moved, and undo undoes a redo that moved. */
  lemma UndoRedoInverse(entries: seq<HistoryEntry>, index: int)
    requires WellFormed(entries, index)
    ensures Undo(entries, index) != index ==> Redo(entries, Undo(entries, index)) == index
    ensures Redo(entries, index) != index ==> Undo(entries, Redo(entries, index)) == index
  {
  }

  /** Right after a save there is nothing to redo, and an undo goes back to the entry that
      was current before the save. */
  lemma SaveThenUndoRedo(entries: seq<HistoryEntry>, index: int, entry: HistoryEntry)
    requires WellFormed(entries, index) && index >= 0
    ensures var s := Save(entries, index, entry);
      && Redo(s.entries, s.index) == s.index
      && Undo(s.entries, s.index) == s.index - 1
      && s.entries[Undo(s.entries, s.index)] == entries[index]
  {
    SaveSpec(entries, index, entry);
    var s := Save(entries, index, entry);
    var n := |s.entries|;
    assert s.entries[n - 2] == s.entries[..n - 1][n - 2];
  }
}
