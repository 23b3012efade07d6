/**
 * The history side of the desktop window: the in-memory list `history`
 * mirrored by the list box, and the handlers that reload it, delete one
 * entry, clear everything, and show a finished analysis.
 */
module App {
  import opened Wrappers
  import opened Analysis
  import opened History
  import Pipeline

  datatype DeleteOutcome = NothingSelected | Declined | Deleted(removed: Entry)
  datatype ClearOutcome = NotConfirmed | Cleared | ClearFailed(message: string)

  class ResumeAnalyzerApp {
    const results: ResultsFile
    /** `self.history`. */
    var history: seq<Entry>
    /** Number of rows in the history list box. */
    var rows: nat

    /** The list box shows one row per in-memory entry. */
    ghost predicate Valid()
      reads this
    {
      rows == |history|
    }

    /** The in-memory list is what `load_history` would give now. */
    ghost predicate Synced()
      reads this, results
    {
      history == Loaded(results.store)
    }

    /** The window's set-up ends by loading the history. */
    constructor (results: ResultsFile)
      ensures this.results == results && Valid() && Synced()
      ensures results.store == old(results.store)
    {
      this.results := results;
      history := [];
      rows := 0;
      new;
      ReloadHistory();
    }

    /** `reload_history`: reload the list from the file and rebuild the list box. */
    method ReloadHistory()
      modifies this
      ensures Valid() && Synced()
    {
      history := results.LoadHistory();
      rows := |history|;
    }

    /**
     * `delete_selected`: with a row selected and the deletion confirmed,
     * drop that entry from memory, rewrite the file with what is left and
     * remove the row.
     */
    method DeleteSelected(selection: Option<nat>, confirmed: bool) returns (outcome: DeleteOutcome)
      requires Valid()
      requires selection.Some? ==> selection.value < rows
      modifies this, results
      ensures Valid()
      ensures selection.None? ==> outcome == NothingSelected
      ensures selection.Some? && !confirmed ==> outcome == Declined
      ensures !outcome.Deleted? ==> history == old(history) && results.store == old(results.store)
      ensures selection.Some? && confirmed ==>
        outcome == Deleted(old(history)[selection.value]) &&
        history == RemoveAt(old(history), selection.value) &&
        results.store == Saved(history) && Synced()
    {
      if selection.None? {
        return NothingSelected;
      }
      var index := selection.value;
      if !confirmed {
        return Declined;
      }
      var removed := history[index];
      history := history[..index] + history[index + 1..];
      results.WriteAll(history);
      rows := rows - 1;
      outcome := Deleted(removed);
    }

    /**
     * `clear_history_confirm` as written: `clear_history_file` removes the
     * file and then raises, so the handler shows the error and never
     * reloads; memory and list box keep the entries the file no longer has.
     */
    method ClearHistoryConfirmAsWritten(confirmed: bool) returns (outcome: ClearOutcome)
      requires Valid()
      modifies this, results
      ensures Valid() && history == old(history) && rows == old(rows)
      ensures !confirmed ==> outcome == NotConfirmed && results.store == old(results.store)
      ensures confirmed ==> results.store == Missing && outcome.ClearFailed?
    {
      if !confirmed {
        return NotConfirmed;
      }
      var raised := results.ClearHistoryFile();
      // The exception always arrives, so the reload that follows the call is never reached.
      outcome := ClearFailed("N\U{E3}o foi poss\U{ED}vel limpar: " + raised.value);
    }

    /** `clear_history_confirm` as intended: remove the file, then reload, leaving an empty history on screen and on disk. */
    method ClearHistoryConfirm(confirmed: bool) returns (outcome: ClearOutcome)
      requires Valid()
      modifies this, results
      ensures Valid()
      ensures !confirmed ==> outcome == NotConfirmed && history == old(history) && results.store == old(results.store)
      ensures confirmed ==> outcome == Cleared && results.store == Missing && history == [] && rows == 0 && Synced()
    {
      if !confirmed {
        return NotConfirmed;
      }
      results.RemoveFile();
      ReloadHistory();
      outcome := Cleared;
    }

    /** The "ok" branch of `check_queue`: reload the history and select its last row. */
    method ShowFinishedRun() returns (selected: Option<nat>)
      modifies this
      ensures Valid() && Synced()
      ensures history == [] ==> selected.None?
      ensures history != [] ==> selected == Some(|history| - 1)
    {
      ReloadHistory();
      var lastIndex := |history| - 1;
      if lastIndex >= 0 {
        selected := Some(lastIndex);
      } else {
        selected := None;
      }
    }
  }

  /**
   * A run followed by its "ok" hand-off: the row selected afterwards is the
   * entry the run produced, at the end of the previously stored history.
   */
  method AnalyzeAndShow(app: ResumeAnalyzerApp, text: string, fileName: string, absPath: string, timestamp: string,
                        model: string, chat: Pipeline.Chat, strict: Decoder, literal: Decoder)
    returns (entry: Entry, selected: Option<nat>)
    modifies app, app.results
    ensures selected.Some? && selected.value < |app.history| && app.history[selected.value] == entry
    ensures app.history == Loaded(old(app.results.store)) + [entry]
    ensures app.Valid() && app.Synced()
  {
    entry := Pipeline.ValidateResumeLocal(app.results, text, fileName, absPath, timestamp, model, chat, strict, literal);
    selected := app.ShowFinishedRun();
  }

  /**
   * The stale-history defect, on a store holding two entries: the user
   * clears the history, the error dialog appears, the rows stay on screen,
   * and deleting the first of them rewrites the file with the second, so an
   * entry the user cleared is back on disk.
   */
  method ClearAsWrittenResurrects(e1: Entry, e2: Entry) returns (disk: seq<Entry>)
    ensures disk == [e2]
  {
    var results := new ResultsFile(Saved([e1, e2]));
    var app := new ResumeAnalyzerApp(results);
    var cleared := app.ClearHistoryConfirmAsWritten(true);
    var deleted := app.DeleteSelected(Some(0), true);
    disk := results.LoadHistory();
  }

  /** The same sequence with the intended clear: nothing is left to select, and the file stays absent. */
  method ClearThenNothingToDelete(e1: Entry, e2: Entry) returns (disk: seq<Entry>, shown: nat)
    ensures disk == [] && shown == 0
  {
    var results := new ResultsFile(Saved([e1, e2]));
    var app := new ResumeAnalyzerApp(results);
    var cleared := app.ClearHistoryConfirm(true);
    var deleted := app.DeleteSelected(None, true);
    disk := results.LoadHistory();
    shown := app.rows;
  }
}
