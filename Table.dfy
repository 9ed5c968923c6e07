/**
 * What the record store's operations do to its map from identifier to
 * record line, stated as functions on map values, and the properties
 * that relate them: last write wins, lookups stay in bounds, and writing
 * the map out and reading it back gives the same map.
 */
module Table {
  import opened Wrappers
  import opened Text
  import opened Records

  /** A line `loadDataFromFile` accepts: it splits into exactly five parts. */
  predicate IsRecordLine(line: string)
    ensures IsRecordLine(line) ==> Delimiter in line
  {
    |Split(line)| == 5
  }

  /** The key a loaded line is stored under: its second part, which never holds `;`. */
  function KeyOf(line: string): (k: string)
    requires |Split(line)| >= 2
    ensures Delimiter !in k
  {
    PiecesHaveNoDelimiter(line);
    Split(line)[1]
  }

  /** Every value splits into at least five parts: what `findData` needs to index `parts[4]`. */
  predicate LookupSafe(m: map<string, string>) {
    forall k :: k in m ==> |Split(m[k])| >= 5
  }

  /** Every value is a record line whose second part is its own key. */
  predicate WellKeyed(m: map<string, string>) {
    forall k :: k in m ==> IsRecordLine(m[k]) && KeyOf(m[k]) == k
  }

  /** The map after `saveData` is given form `f`. */
  function Saved(m: map<string, string>, f: Form): (r: map<string, string>)
    ensures Validate(f).None? ==> r == m
    ensures Validate(f).Some? ==>
      && Validate(f).value.id in r
      && r[Validate(f).value.id] == Encode(Validate(f).value)
      && (forall k :: k in r <==> k in m || k == Validate(f).value.id)
      && (forall k :: k in m && k != Validate(f).value.id ==> r[k] == m[k])
  {
    match Validate(f)
    case None => m
    case Some(rec) => Put(m, rec)
  }

  /** `dataMap.put(id, data)` for the record's id and line. */
  function Put(m: map<string, string>, rec: Record): (r: map<string, string>)
    ensures rec.id in r && r[rec.id] == Encode(rec)
    ensures forall k :: k in r <==> k in m || k == rec.id
    ensures forall k :: k in m && k != rec.id ==> r[k] == m[k]
  {
    m[rec.id := Encode(rec)]
  }

  /** The map after `loadDataFromFile` has read `lines`, one after the other, into `m`. */
  function LoadLines(m: map<string, string>, lines: seq<string>): (r: map<string, string>)
    ensures m.Keys <= r.Keys
    decreases |lines|
  {
    if lines == [] then m
    else
      var prev := LoadLines(m, lines[..|lines| - 1]);
      var line := lines[|lines| - 1];
      if IsRecordLine(line) then prev[KeyOf(line) := line] else prev
  }

  /** Reading one more line: the map so far, with that line put under its key if it is accepted. */
  lemma LoadStep(m: map<string, string>, lines: seq<string>, i: int)
    requires 0 <= i < |lines|
    ensures LoadLines(m, lines[..i + 1]) ==
      var prev := LoadLines(m, lines[..i]);
      if IsRecordLine(lines[i]) then prev[KeyOf(lines[i]) := lines[i]] else prev
  {
    var s := lines[..i + 1];
    assert s != [] && s[..|s| - 1] == lines[..i] && s[|s| - 1] == lines[i];
  }

  /** Line `i` is the last line of `lines` that is accepted with key `k`. */
  ghost predicate LastFor(lines: seq<string>, k: string, i: int) {
    && 0 <= i < |lines|
    && IsRecordLine(lines[i]) && KeyOf(lines[i]) == k
    && forall j :: i < j < |lines| ==> !(IsRecordLine(lines[j]) && KeyOf(lines[j]) == k)
  }

  /** No line of `lines` is accepted with key `k`. */
  ghost predicate NoLineFor(lines: seq<string>, k: string) {
    forall j :: 0 <= j < |lines| ==> !(IsRecordLine(lines[j]) && KeyOf(lines[j]) == k)
  }

  /** What `lookup` shows: the first five parts of the stored line, or nothing. */
  function Lookup(m: map<string, string>, query: string): (r: Option<Record>)
    requires LookupSafe(m)
    ensures r.None? <==> Trim(query) !in m
  {
    var id := Trim(query);
    if id in m then
      var parts := Split(m[id]);
      Some(Record(parts[0], parts[1], parts[2], parts[3], parts[4]))
    else None
  }

  /**
   * `lines` lists the values of `m` once each, in the order of the keys in
   * `order`: what iterating over `dataMap.values()` writes, whatever the
   * iteration order.
   */
  ghost predicate Enumerates(m: map<string, string>, order: seq<string>, lines: seq<string>) {
    && |order| == |lines|
    && (forall i, j :: 0 <= i < j < |order| ==> order[i] != order[j])
    && (forall i :: 0 <= i < |order| ==> order[i] in m && lines[i] == m[order[i]])
    && (forall k :: k in m ==> k in order)
  }

  /** `lines` is one of the files `saveDataToFile` may write for `m`. */
  ghost predicate IsSerialisation(m: map<string, string>, lines: seq<string>) {
    exists order :: Enumerates(m, order, lines)
  }

  // ----- save -----

  /** Saving twice under the same identifier keeps only the later record. */
  lemma SaveSameIdTwice(m: map<string, string>, f1: Form, f2: Form)
    requires Validate(f1).Some? && Validate(f2).Some?
    requires Trim(f1.idText) == Trim(f2.idText)
    ensures Saved(Saved(m, f1), f2) == Saved(m, f2)
  {
    var r1, r2 := Validate(f1).value, Validate(f2).value;
    var once := Saved(m, f1);
    SavedIsPut(m, f1);
    SavedIsPut(once, f2);
    SavedIsPut(m, f2);
    PutTwice(m, r1, r2);
  }

  /** A second put under the same id replaces the first. */
  lemma PutTwice(m: map<string, string>, r1: Record, r2: Record)
    requires r1.id == r2.id
    ensures Put(Put(m, r1), r2) == Put(m, r2)
  {
  }

  /** An accepted form is put under its record's id. */
  lemma SavedIsPut(m: map<string, string>, f: Form)
    requires Validate(f).Some?
    ensures Saved(m, f) == Put(m, Validate(f).value)
  {
  }

  /** A save adds at most one entry, and exactly one when the identifier is new. */
  lemma SaveGrowsByAtMostOne(m: map<string, string>, f: Form)
    ensures |Saved(m, f)| <= |m| + 1
    ensures |Saved(m, f)| == |m| + 1 <==> Validate(f).Some? && Trim(f.idText) !in m
  {
  }

  /** Saving keeps every value safe to look up. */
  lemma SaveKeepsLookupSafe(m: map<string, string>, f: Form)
    requires LookupSafe(m)
    ensures LookupSafe(Saved(m, f))
  {
    if Validate(f).Some? {
      var rec := Validate(f).value;
      ValidatedIsFormRecord(f);
      EncodedSplitsAtLeastFive(rec);
      SavedIsPut(m, f);
      PutKeepsLookupSafe(m, rec);
    }
  }

  lemma PutKeepsLookupSafe(m: map<string, string>, rec: Record)
    requires LookupSafe(m) && |Split(Encode(rec))| >= 5
    ensures LookupSafe(Put(m, rec))
  {
  }

  /** Saving a record whose name and id hold no `;` keeps every value keyed by its own second part. */
  lemma SaveKeepsWellKeyed(m: map<string, string>, f: Form)
    requires WellKeyed(m)
    requires Delimiter !in f.nameText && Delimiter !in f.idText
    ensures WellKeyed(Saved(m, f))
  {
    if Validate(f).Some? {
      var rec := Validate(f).value;
      ValidatedIsFormRecord(f);
      TrimKeepsNoDelimiter(f.nameText);
      TrimKeepsNoDelimiter(f.idText);
      SplitEncode(rec);
      SavedIsPut(m, f);
      PutKeepsWellKeyed(m, rec);
    }
  }

  lemma PutKeepsWellKeyed(m: map<string, string>, rec: Record)
    requires WellKeyed(m) && IsRecordLine(Encode(rec)) && KeyOf(Encode(rec)) == rec.id
    ensures WellKeyed(Put(m, rec))
  {
  }

  /** Looking up the identifier just saved shows exactly the saved fields. */
  lemma SaveThenFind(m: map<string, string>, f: Form, query: string)
    requires LookupSafe(m)
    requires Validate(f).Some?
    requires Delimiter !in f.nameText && Delimiter !in f.idText
    requires Trim(query) == Trim(f.idText)
    ensures LookupSafe(Saved(m, f))
    ensures Lookup(Saved(m, f), query) == Some(Validate(f).value)
  {
    var rec := Validate(f).value;
    SaveKeepsLookupSafe(m, f);
    ValidatedIsFormRecord(f);
    TrimKeepsNoDelimiter(f.nameText);
    TrimKeepsNoDelimiter(f.idText);
    SplitEncode(rec);
    SavedIsPut(m, f);
  }

  /** The stored key itself finds the record, since trimming it again changes nothing. */
  lemma SavedKeyFinds(m: map<string, string>, f: Form)
    requires LookupSafe(m)
    requires Validate(f).Some?
    requires Delimiter !in f.nameText && Delimiter !in f.idText
    ensures LookupSafe(Saved(m, f))
    ensures Lookup(Saved(m, f), Validate(f).value.id) == Some(Validate(f).value)
  {
    TrimIdempotent(f.idText);
    SaveThenFind(m, f, Validate(f).value.id);
  }

  /**
   * A record whose trimmed name or id holds a `;` is stored and written
   * out, but its line is not one that loading accepts: it does not survive
   * a restart.
   */
  lemma DelimiterRecordLostOnReload(m: map<string, string>, f: Form)
    requires Validate(f).Some?
    requires Delimiter in Trim(f.nameText) || Delimiter in Trim(f.idText)
    ensures Trim(f.idText) in Saved(m, f)
    ensures !IsRecordLine(Saved(m, f)[Trim(f.idText)])
    ensures LoadLines(map[], [Saved(m, f)[Trim(f.idText)]]) == map[]
  {
    var rec := Validate(f).value;
    ValidatedIsFormRecord(f);
    DelimiterInNameOrIdLengthensLine(rec);
    SavedIsPut(m, f);
    assert [Encode(rec)][..0] == [];
  }

  // ----- load -----

  /** The entry of the last accepted line with key `k` is that line. */
  lemma {:induction false} LoadLastWins(m: map<string, string>, lines: seq<string>, k: string, i: int)
    requires LastFor(lines, k, i)
    ensures k in LoadLines(m, lines) && LoadLines(m, lines)[k] == lines[i]
    decreases |lines|
  {
    var init := lines[..|lines| - 1];
    if i < |lines| - 1 {
      assert LastFor(init, k, i);
      LoadLastWins(m, init, k, i);
    }
  }

  /** A key that no accepted line carries keeps what `m` had for it, or stays absent. */
  lemma {:induction false} LoadUntouched(m: map<string, string>, lines: seq<string>, k: string)
    requires NoLineFor(lines, k)
    ensures k in LoadLines(m, lines) <==> k in m
    ensures k in m ==> LoadLines(m, lines)[k] == m[k]
    decreases |lines|
  {
    if lines != [] {
      var init := lines[..|lines| - 1];
      assert NoLineFor(init, k) by {
        forall j | 0 <= j < |init| ensures !(IsRecordLine(init[j]) && KeyOf(init[j]) == k) {
          assert init[j] == lines[j];
        }
      }
      LoadUntouched(m, init, k);
    }
  }

  /** Loading keeps every value keyed by its own second part. */
  lemma {:induction false} LoadKeepsWellKeyed(m: map<string, string>, lines: seq<string>)
    requires WellKeyed(m)
    ensures WellKeyed(LoadLines(m, lines))
    decreases |lines|
  {
    if lines != [] {
      LoadKeepsWellKeyed(m, lines[..|lines| - 1]);
    }
  }

  /** Loading keeps every value safe to look up. */
  lemma {:induction false} LoadKeepsLookupSafe(m: map<string, string>, lines: seq<string>)
    requires LookupSafe(m)
    ensures LookupSafe(LoadLines(m, lines))
    decreases |lines|
  {
    if lines != [] {
      LoadKeepsLookupSafe(m, lines[..|lines| - 1]);
    }
  }

  // ----- round trip -----

  /**
   * Writing a well-keyed map out, in any order, and loading the lines
   * into an empty map gives the same map back.
   */
  lemma SerialiseLoadRoundTrip(m: map<string, string>, lines: seq<string>)
    requires WellKeyed(m)
    requires IsSerialisation(m, lines)
    ensures LoadLines(map[], lines) == m
  {
    var order :| Enumerates(m, order, lines);
    var r := LoadLines(map[], lines);
    forall k | k in m
      ensures k in r && r[k] == m[k]
    {
      ReloadedKey(m, order, lines, k);
    }
    forall k | k !in m
      ensures k !in r
    {
      ReloadedNoOtherKey(m, order, lines, k);
    }
    SameEntries(r, m);
  }

  /** Two maps with the same keys and the same value under each key are equal. */
  lemma SameEntries(r: map<string, string>, m: map<string, string>)
    requires forall k :: k in m ==> k in r && r[k] == m[k]
    requires forall k :: k !in m ==> k !in r
    ensures r == m
  {
    assert r.Keys == m.Keys;
  }

  /** Reloading an enumeration of a well-keyed map brings in no key the map lacks. */
  lemma ReloadedNoOtherKey(m: map<string, string>, order: seq<string>, lines: seq<string>, k: string)
    requires WellKeyed(m)
    requires Enumerates(m, order, lines)
    requires k !in m
    ensures k !in LoadLines(map[], lines)
  {
    EnumeratedKeysOnly(m, order, lines, k);
    LoadUntouched(map[], lines, k);
  }

  /** Reloading an enumeration of a well-keyed map restores the entry of each of its keys. */
  lemma ReloadedKey(m: map<string, string>, order: seq<string>, lines: seq<string>, k: string)
    requires WellKeyed(m)
    requires Enumerates(m, order, lines)
    requires k in m
    ensures k in LoadLines(map[], lines) && LoadLines(map[], lines)[k] == m[k]
  {
    var i :| 0 <= i < |order| && order[i] == k;
    EnumeratedLineIsLast(m, order, lines, i);
    LoadLastWins(map[], lines, k, i);
  }

  /** In an enumeration of a well-keyed map, line `i` is the only line with key `order[i]`. */
  lemma EnumeratedLineIsLast(m: map<string, string>, order: seq<string>, lines: seq<string>, i: int)
    requires WellKeyed(m)
    requires Enumerates(m, order, lines)
    requires 0 <= i < |order|
    ensures LastFor(lines, order[i], i)
  {
    forall j | i < j < |lines|
      ensures !(IsRecordLine(lines[j]) && KeyOf(lines[j]) == order[i])
    {
      assert lines[j] == m[order[j]];
    }
  }

  /** In an enumeration of a well-keyed map, no line has a key outside the map. */
  lemma EnumeratedKeysOnly(m: map<string, string>, order: seq<string>, lines: seq<string>, k: string)
    requires WellKeyed(m)
    requires Enumerates(m, order, lines)
    requires k !in m
    ensures NoLineFor(lines, k)
  {
    forall j | 0 <= j < |lines|
      ensures !(IsRecordLine(lines[j]) && KeyOf(lines[j]) == k)
    {
      assert lines[j] == m[order[j]];
    }
  }
}
