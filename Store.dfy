/**
 * The record store of the application object: the `dataMap` field and the
 * four operations that use it (save from the form, write the file, read
 * the file, find by identifier).
 */
module Store {
  import opened Wrappers
  import opened Text
  import opened Records
  import opened Table

  /**
   * The record file as the store finds it: absent, readable to the end, or
   * failing with an I/O error after the lines it delivered.
   */
  datatype TextFile = Missing | Readable(lines: seq<string>) | Unreadable(linesBeforeError: seq<string>)

  /** The lines the reading loop gets before the end of the file or the error. */
  function LinesRead(file: TextFile): seq<string> {
    match file
    case Missing => []
    case Readable(lines) => lines
    case Unreadable(lines) => lines
  }

  /** What loading reports: no file, success, or an I/O error (shown as an alert). */
  datatype LoadOutcome = NoFile | Loaded | ReadFailed

  /** What saving reports: the form was refused, or the map was updated and these lines written. */
  datatype SaveOutcome = Rejected | Stored(written: seq<string>)

  class RecordStore {
    /** Identifier to record line. */
    var data: map<string, string>

    /** Every stored line has the five parts that the lookup reads. */
    ghost predicate Valid()
      reads this
    {
      LookupSafe(data)
    }

    constructor ()
      ensures Valid() && data == map[]
    {
      data := map[];
    }

    /**
     * Validates the form; if it is complete, puts its record line under
     * the trimmed id, replacing any earlier one, and rewrites the file.
     */
    method SaveData(form: Form) returns (outcome: SaveOutcome)
      requires Valid()
      modifies this
      ensures Valid()
      ensures data == Saved(old(data), form)
      ensures outcome.Rejected? <==> Validate(form).None?
      ensures outcome.Stored? ==> |outcome.written| == |data| && IsSerialisation(data, outcome.written)
    {
      var rec := Validate(form);
      if rec.None? {
        return Rejected;
      }
      SaveKeepsLookupSafe(data, form);
      SavedIsPut(data, form);
      data := data[rec.value.id := Encode(rec.value)];
      var lines := SaveToFile();
      outcome := Stored(lines);
    }

    /** The lines written to the file: one per map value, in the map's own order. */
    method SaveToFile() returns (lines: seq<string>)
      ensures |lines| == |data|
      ensures IsSerialisation(data, lines)
    {
      lines := [];
      ghost var order: seq<string> := [];
      var rest := data.Keys;
      while rest != {}
        invariant rest <= data.Keys
        invariant forall k :: k in data ==> (k in rest <==> k !in order)
        invariant |order| == |lines| && |order| + |rest| == |data|
        invariant forall i, j :: 0 <= i < j < |order| ==> order[i] != order[j]
        invariant forall i :: 0 <= i < |order| ==> order[i] in data && lines[i] == data[order[i]]
        decreases rest
      {
        var k :| k in rest;
        lines := lines + [data[k]];
        order := order + [k];
        rest := rest - {k};
      }
      assert Enumerates(data, order, lines);
    }

    /**
     * Reads the file line by line, putting every line that splits into
     * exactly five parts under its second part; an absent file changes
     * nothing, and an I/O error keeps what was read before it.
     */
    method LoadFromFile(file: TextFile) returns (outcome: LoadOutcome)
      requires Valid()
      modifies this
      ensures Valid()
      ensures data == LoadLines(old(data), LinesRead(file))
      ensures outcome == (match file
                          case Missing => NoFile
                          case Readable(_) => Loaded
                          case Unreadable(_) => ReadFailed)
    {
      if file.Missing? {
        return NoFile;
      }
      var lines := LinesRead(file);
      var i := 0;
      while i < |lines|
        invariant 0 <= i <= |lines|
        invariant Valid()
        invariant data == LoadLines(old(data), lines[..i])
      {
        var line := lines[i];
        var parts := Split(line);
        LoadStep(old(data), lines, i);
        if |parts| == 5 {
          data := data[parts[1] := line];
        }
        i := i + 1;
      }
      assert lines[..|lines|] == lines;
      outcome := if file.Readable? then Loaded else ReadFailed;
    }

    /** Looks up the trimmed query and shows the first five parts of its line, if any. */
    method FindData(query: string) returns (shown: Option<Record>)
      requires Valid()
      ensures shown.None? <==> Trim(query) !in data
      ensures shown == Lookup(data, query)
    {
      var id := Trim(query);
      if id in data {
        var parts := Split(data[id]);
        shown := Some(Record(parts[0], parts[1], parts[2], parts[3], parts[4]));
      } else {
        shown := None;
      }
    }
  }

  /**
   * Application start: an empty map, then the record file read into it.
   */
  method Start(file: TextFile) returns (store: RecordStore, outcome: LoadOutcome)
    ensures fresh(store) && store.Valid()
    ensures store.data == LoadLines(map[], LinesRead(file))
    ensures outcome.NoFile? <==> file.Missing?
    ensures outcome.ReadFailed? <==> file.Unreadable?
  {
    store := new RecordStore();
    outcome := store.LoadFromFile(file);
  }

  /** Starting the application on a file written from the well-keyed map `m` gives `m` back. */
  method Reload(ghost m: map<string, string>, lines: seq<string>) returns (restarted: RecordStore)
    requires WellKeyed(m) && IsSerialisation(m, lines)
    ensures fresh(restarted) && restarted.Valid() && restarted.data == m
  {
    SerialiseLoadRoundTrip(m, lines);
    var file := Readable(lines);
    assert LinesRead(file) == lines;
    var loaded;
    restarted, loaded := Start(file);
    assert loaded == Loaded;
  }

  /**
   * A session: save a form whose name and id hold no `;`, then start the
   * application again on the file just written. The store ends with the
   * saved map, and the restarted store holds exactly that map.
   */
  method SaveAndRestart(store: RecordStore, form: Form) returns (outcome: SaveOutcome, restarted: RecordStore)
    requires store.Valid() && WellKeyed(store.data)
    requires Delimiter !in form.nameText && Delimiter !in form.idText
    modifies store
    ensures store.Valid() && WellKeyed(store.data)
    ensures store.data == Saved(old(store.data), form)
    ensures outcome.Rejected? <==> Validate(form).None?
    ensures fresh(restarted) && restarted.Valid()
    ensures outcome.Stored? ==> restarted.data == store.data
  {
    SaveKeepsWellKeyed(store.data, form);
    outcome := store.SaveData(form);
    if outcome.Stored? {
      restarted := Reload(store.data, outcome.written);
    } else {
      restarted := new RecordStore();
    }
  }
}
