/**
 * The history store: `results.json`, a single JSON array of entries that is
 * read whole and rewritten whole on every change. The file is abstracted as
 * one of three states: absent, present but unreadable, or holding a list.
 */
module History {
  import opened Wrappers
  import opened Analysis

  /** What `results.json` holds. */
  datatype Store = Missing | Unreadable | Saved(entries: seq<Entry>)

  /** `load_history()`: the stored list, or `[]` when the file is absent or cannot be parsed. */
  function Loaded(store: Store): (h: seq<Entry>)
    ensures store.Saved? ==> h == store.entries
    ensures !store.Saved? ==> h == []
  {
    if store.Saved? then store.entries else []
  }

  /** The store after `save_result_entry(entry)`: the entry appended to whatever `load_history` would give. */
  function Appended(store: Store, entry: Entry): (r: Store)
    ensures r.Saved? && |Loaded(r)| == |Loaded(store)| + 1
    ensures Loaded(r)[..|Loaded(store)|] == Loaded(store) && Loaded(r)[|Loaded(store)|] == entry
  {
    Saved(Loaded(store) + [entry])
  }

  /**
   * Appending then loading gives the old history followed by the new entry:
   * `[entry]` from an absent or unreadable file, the old list plus the entry
   * otherwise.
   */
  lemma AppendThenLoad(store: Store, entry: Entry)
    ensures !store.Saved? ==> Loaded(Appended(store, entry)) == [entry]
    ensures store.Saved? ==> Loaded(Appended(store, entry)) == store.entries + [entry]
    ensures Loaded(Appended(store, entry))[|Loaded(Appended(store, entry))| - 1] == entry
  {
  }

  /** The list without its element at `i` (Python's `list.pop(i)`). */
  function RemoveAt<T>(s: seq<T>, i: nat): (r: seq<T>)
    requires i < |s|
    ensures |r| == |s| - 1
    ensures forall j | 0 <= j < i :: r[j] == s[j]
    ensures forall j | i <= j < |r| :: r[j] == s[j + 1]
    ensures multiset(r) + multiset{s[i]} == multiset(s)
  {
    assert s == s[..i] + [s[i]] + s[i + 1..];
    s[..i] + s[i + 1..]
  }

  /** The file `results.json`, whose content the operations below replace. */
  class ResultsFile {
    var store: Store

    constructor (initial: Store)
      ensures store == initial
    {
      store := initial;
    }

    /** `save_result_entry(entry)`: create the file with `[entry]`, or reload, append and rewrite. */
    method SaveResultEntry(entry: Entry)
      modifies this
      ensures store == Appended(old(store), entry)
    {
      if store.Missing? {
        store := Saved([entry]);
      } else {
        var content: seq<Entry>;
        if store.Saved? {
          content := store.entries;
        } else {
          content := [];
        }
        content := content + [entry];
        store := Saved(content);
      }
    }

    /** `load_history()`. */
    method LoadHistory() returns (h: seq<Entry>)
      ensures h == Loaded(store)
    {
      if store.Missing? {
        return [];
      }
      match store
      case Unreadable => h := [];
      case Saved(entries) => h := entries;
    }

    /**
     * `clear_history_file()` as written: the file is removed, and the next
     * statement refers to an undefined `self`, so the call always ends by
     * raising `NameError`, whose message is returned here.
     */
    method ClearHistoryFile() returns (raised: Option<string>)
      modifies this
      ensures store == Missing
      ensures raised == Some("name 'self' is not defined")
    {
      if !store.Missing? {
        store := Missing;
      }
      raised := Some("name 'self' is not defined");
    }

    /** The removal itself (the first two lines of `clear_history_file`), with nothing raised afterwards. */
    method RemoveFile()
      modifies this
      ensures store == Missing
    {
      if !store.Missing? {
        store := Missing;
      }
    }

    /** `json.dump(entries, f)` over a freshly truncated `results.json`. */
    method WriteAll(entries: seq<Entry>)
      modifies this
      ensures store == Saved(entries)
    {
      store := Saved(entries);
    }
  }
}
