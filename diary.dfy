/**
  The diary engine: the diary directory (file name to document), the index of
  known dates, the date being edited and the content last loaded or saved for it.
  The load and save tasks are each split into the step that starts them, the
  work they do and the step that applies their result, each an atomic method.
*/
module Diary {
  import opened Optional
  import opened DateKey
  import opened EntryIndex
  import opened Search

  /** What loading a date without a file yields. */
  const EmptyDocument: string := "<html><body></body></html>"

  /** The result of a background task: its value, or the exception it ended with. */
  datatype Outcome<T> = Succeeded(value: T) | Failed

  /** A save started by the auto-save tick: the date current at dispatch and the editor's text. */
  datatype SaveRequest = SaveRequest(date: Date, html: string)

  /** What a load of d yields from a directory whose reads succeed. */
  function ReadDocument(store: map<string, string>, d: Date): string {
    if FileName(d) in store then store[FileName(d)] else EmptyDocument
  }

  /** Writing d's file leaves it holding html and every other date's document as it was. */
  lemma WriteThenRead(store: map<string, string>, d: Date, html: string, e: Date)
    ensures ReadDocument(store[FileName(d) := html], d) == html
    ensures e != d ==> ReadDocument(store[FileName(d) := html], e) == ReadDocument(store, e)
  {
    FileNameInjective(d, e);
  }

  /** Deleting d's file makes its load yield the empty document and leaves other dates alone. */
  lemma DeleteThenRead(store: map<string, string>, d: Date, e: Date)
    ensures ReadDocument(store - {FileName(d)}, d) == EmptyDocument
    ensures e != d ==> ReadDocument(store - {FileName(d)}, e) == ReadDocument(store, e)
  {
    FileNameInjective(d, e);
  }

  /**
    The index a rebuild produces does not depend on the order in which the
    directory lists its files: it is fixed by the files alone.
  */
  lemma RebuiltIndexIsUnique(a: seq<Date>, b: seq<Date>, store: map<string, string>)
    requires NewestFirst(a) && NewestFirst(b)
    requires forall d: Date :: d in a <==> FileName(d) in store
    requires forall d: Date :: d in b <==> FileName(d) in store
    ensures a == b
  {
    NewestFirstUnique(a, b);
  }

  class DiaryEngine {
    /** The diary directory: the name of each file and its content. */
    var store: map<string, string>
    /** The index of known dates. */
    var entries: seq<Date>
    /** The date being edited; None stands for null. */
    var currentDate: Option<Date>
    /** The content last loaded or saved for the current date. */
    var currentContent: string

    ghost predicate Valid()
      reads this
    {
      NewestFirst(entries)
    }

    /** The application's initial state over an existing directory. */
    constructor (files: map<string, string>)
      ensures Valid()
      ensures store == files && entries == [] && currentDate == None && currentContent == ""
    {
      store := files;
      entries := [];
      currentDate := None;
      currentContent := "";
    }

    /**
      loadAllEntries: list the "*.html" files, keep the names whose stem parses
      as a date, and sort newest first.  When the listing cannot be opened the
      task fails before touching the index.
    */
    method LoadAllEntries(ioError: bool) returns (ok: bool)
      requires Valid()
      modifies this`entries
      ensures Valid()
      ensures ok == !ioError
      ensures ok ==> forall d: Date :: d in entries <==> FileName(d) in store
      ensures !ok ==> entries == old(entries)
    {
      if ioError {
        return false;
      }
      entries := [];
      var pending := store.Keys;
      while pending != {}
        invariant pending <= store.Keys
        invariant Distinct(entries)
        invariant forall d: Date :: d in entries <==> FileName(d) in store && FileName(d) !in pending
        decreases pending
      {
        var name :| name in pending;
        pending := pending - {name};
        forall d: Date ensures FileName(d) == name <==> DecodeFileName(name) == Some(d) {
          DecodeFileNameIff(name, d);
        }
        if MatchesHtmlGlob(name) {
          var parsed := StemDate(name);
          if parsed.Some? {
            assert Distinct(entries + [parsed.value]) by {
              forall i, j | 0 <= i < j < |entries + [parsed.value]|
                ensures (entries + [parsed.value])[i] != (entries + [parsed.value])[j]
              {
                if j == |entries| {
                  assert (entries + [parsed.value])[i] == entries[i];
                  assert entries[i] in entries;
                }
              }
            }
            entries := entries + [parsed.value];
          }
        }
      }
      SortedIndex(entries);
      entries := SortDescending(entries);
      ok := true;
    }

    /**
      loadOrCreateDate: make d current, add it to the index when it is missing
      (re-sorting), and start loading it.  No file is created here: an entry
      gets its file at its first save.
    */
    method LoadOrCreateDate(d: Date)
      requires Valid()
      modifies this`entries, this`currentDate
      ensures Valid()
      ensures currentDate == Some(d)
      ensures d in entries
      ensures forall e :: e in entries <==> e in old(entries) || e == d
      ensures d in old(entries) ==> entries == old(entries)
    {
      currentDate := Some(d);
      if d !in entries {
        InsertIntoIndex(entries, d);
        entries := SortDescending(entries + [d]);
      }
      LoadEntry(d);
    }

    /** loadEntry up to the start of its task: d becomes the current date. */
    method LoadEntry(d: Date)
      modifies this`currentDate
      ensures currentDate == Some(d)
    {
      currentDate := Some(d);
    }

    /**
      The load task's call(): the file's content when the file exists, the empty
      document when it does not; a read error fails the task.
    */
    method ReadEntryFile(d: Date, ioError: bool) returns (r: Outcome<string>)
      ensures r.Failed? <==> ioError && FileName(d) in store
      ensures r.Succeeded? && FileName(d) in store ==> r.value == store[FileName(d)]
      ensures r.Succeeded? && FileName(d) !in store ==> r.value == EmptyDocument
      ensures r.Succeeded? ==> r.value == ReadDocument(store, d)
    {
      if FileName(d) in store {
        if ioError {
          r := Failed;
        } else {
          r := Succeeded(store[FileName(d)]);
        }
      } else {
        r := Succeeded(EmptyDocument);
      }
    }

    /**
      The load task's succeeded(): the loaded content becomes the synced content,
      whatever the current date is by then.
    */
    method LoadSucceeded(content: string)
      modifies this`currentContent
      ensures currentContent == content
    {
      currentContent := content;
    }

    /**
      loadEntry with its task run at once: d becomes current and, unless the read
      fails, its document becomes the synced content.
    */
    method LoadRound(d: Date, ioError: bool) returns (ok: bool)
      modifies this`currentDate, this`currentContent
      ensures currentDate == Some(d)
      ensures ok <==> !(ioError && FileName(d) in store)
      ensures ok ==> currentContent == ReadDocument(store, d)
      ensures !ok ==> currentContent == old(currentContent)
    {
      LoadEntry(d);
      var r := ReadEntryFile(d, ioError);
      ok := r.Succeeded?;
      if ok {
        LoadSucceeded(r.value);
      }
    }

    /**
      deleteEntry once confirmed: delete the file if it exists, drop the date from
      the index, and close the session when the date was the current one.  An
      I/O error leaves everything as it was.
    */
    method DeleteEntry(d: Date, ioError: bool) returns (ok: bool)
      requires Valid()
      modifies this
      ensures Valid()
      ensures ok == !ioError
      ensures ok ==> store == old(store) - {FileName(d)}
      ensures ok ==> entries == RemoveFirst(old(entries), d)
      ensures ok ==> d !in entries && forall e :: e in entries <==> e in old(entries) && e != d
      ensures ok && old(currentDate) == Some(d) ==> currentDate == None && currentContent == ""
      ensures ok && old(currentDate) != Some(d) ==>
                currentDate == old(currentDate) && currentContent == old(currentContent)
      ensures ok && FileName(d) !in old(store) ==> store == old(store)
      ensures ok && d !in old(entries) ==> entries == old(entries)
      ensures !ok ==> store == old(store) && entries == old(entries)
      ensures !ok ==> currentDate == old(currentDate) && currentContent == old(currentContent)
    {
      if ioError {
        return false;
      }
      assert FileName(d) !in store ==> store - {FileName(d)} == store;
      store := store - {FileName(d)};
      RemoveFromIndex(entries, d);
      entries := RemoveFirst(entries, d);
      if currentDate == Some(d) {
        currentDate := None;
        currentContent := "";
      }
      ok := true;
    }

    /**
      One tick of the auto-save timer: save the editor's text only when a date
      is current and the text differs from the synced content.
    */
    method AutoSaveTick(buffer: string) returns (req: Option<SaveRequest>)
      ensures req.Some? <==> currentDate.Some? && buffer != currentContent
      ensures req.Some? ==> req.value.date == currentDate.value && req.value.html == buffer
    {
      req := None;
      if currentDate.Some? {
        if buffer != currentContent {
          req := SaveCurrentEntry(buffer);
        }
      }
    }

    /** saveCurrentEntry up to the start of its task: nothing without a current date. */
    method SaveCurrentEntry(html: string) returns (req: Option<SaveRequest>)
      ensures currentDate.None? ==> req.None?
      ensures currentDate.Some? ==> req == Some(SaveRequest(currentDate.value, html))
    {
      if currentDate.None? {
        return None;
      }
      req := Some(SaveRequest(currentDate.value, html));
    }

    /** The save task's call(): write the text to the file of the date fixed at dispatch. */
    method WriteEntryFile(req: SaveRequest, ioError: bool) returns (ok: bool)
      modifies this`store
      ensures ok == !ioError
      ensures ok ==> store == old(store)[FileName(req.date) := req.html]
      ensures !ok ==> store == old(store)
    {
      if ioError {
        return false;
      }
      store := store[FileName(req.date) := req.html];
      ok := true;
    }

    /**
      The save task's succeeded(): the saved text becomes the synced content,
      whatever the current date is by then.
    */
    method SaveSucceeded(req: SaveRequest)
      modifies this`currentContent
      ensures currentContent == req.html
    {
      currentContent := req.html;
    }

    /**
      A tick followed at once by its save task and the task's completion, with
      nothing in between.  A successful save can be read back and leaves the
      session clean; a failed one leaves the state as it was, so the next tick
      with the same text saves again.
    */
    method AutoSaveRound(buffer: string, ioError: bool) returns (req: Option<SaveRequest>, ok: bool)
      modifies this`store, this`currentContent
      ensures req.Some? <==> old(currentDate).Some? && buffer != old(currentContent)
      ensures req.Some? ==> req.value == SaveRequest(old(currentDate).value, buffer)
      ensures ok <==> req.Some? && !ioError
      ensures ok ==> ReadDocument(store, req.value.date) == buffer && currentContent == buffer
      ensures ok ==> forall e :: e != req.value.date ==> ReadDocument(store, e) == ReadDocument(old(store), e)
      ensures !ok ==> store == old(store) && currentContent == old(currentContent)
    {
      req := AutoSaveTick(buffer);
      ok := false;
      if req.Some? {
        ok := WriteEntryFile(req.value, ioError);
        if ok {
          SaveSucceeded(req.value);
          forall e | e != req.value.date
            ensures ReadDocument(store, e) == ReadDocument(old(store), e)
          {
            WriteThenRead(old(store), req.value.date, buffer, e);
          }
          WriteThenRead(old(store), req.value.date, buffer, req.value.date);
        }
      }
    }
  }
}
