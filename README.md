# Record store of the data storage form application

The application is a JavaFX form (`HelloApplication`) that takes a person's
full name, ID, gender, province and date of birth. It keeps the records in
memory in `dataMap`, a map from ID to one record line. A record line is the
five fields joined on `;`. The whole map is rewritten to `data.txt` after
every save, and the file is read back when the application starts. Find
looks up one ID in the map.

This project models that record store and leaves the GUI out:

- `Text` holds the three string operations the store depends on, with
  Java's semantics. `Trim` is `String.trim`: it strips characters at or
  below U+0020 from both ends. `Split` is `String.split(";")` with limit 0:
  a string without `;` comes back whole, and otherwise the trailing empty
  parts are dropped. `Join` is `String.join(";", ...)`. These are pure
  functions, and the lemmas beside them are their round trips.
- `Records` holds the form as it stands when Save is pressed. `Validate`
  is the checking and trimming that `saveData` does. `Encode` builds the
  record line.
- `Table` states what each operation does to the map, as pure functions:
  `Saved` for a save, `LoadLines` for reading lines, and `Lookup` for a
  find. It also holds the predicates `Enumerates` and `IsSerialisation`,
  which describe the lines written out, and the lemmas that relate all of
  these.
- `Store` holds the class `RecordStore`, whose `data` field is `dataMap`.
  Its methods update the field in place:
  - `SaveData` validates the form, puts the line and rewrites the file.
  - `SaveToFile` is a loop over the map's entries.
  - `LoadFromFile` is a loop over the file's lines.
  - `FindData` only reads the map.

  The object invariant `Valid` says that every stored line splits into at
  least five parts. That is what makes `parts[4]` in the lookup safe.

Two kinds of field matter for the file format:

- Gender, province and date of birth come from widgets. Their text can
  never contain `;`.
- Name and ID are typed by the user, and nothing escapes a `;` inside them.

With the fixed fields, the lookup is always in bounds, whatever the user
types (`EncodedSplitsAtLeastFive`). When the name and the ID hold no `;`,
saving, writing and reloading gives back the same map
(`SerialiseLoadRoundTrip`, `SaveAndRestart`). When the name or the ID does
hold a `;`, the record is saved and written out. But its line has more than
five parts, so the next start drops it (`DelimiterRecordLostOnReload`).

Three behaviours of the code that are easy to miss:

- Only "Male" and "Female" can be chosen. The "Other" radio button is
  created but never joins the toggle group or the layout.
- Loading puts each accepted line into the existing map. It does not
  replace the map (at start-up the map is empty, so the result is the same).
- An I/O error part-way through loading keeps the lines read before it.
  The state is not left unchanged.

## Model

| member | source | states |
|---|---|---|
| `Text.TrimStart` | HelloApplication.java:77 | the result is a suffix of the input that does not start with a blank, and every character removed is blank |
| `Text.TrimEnd` | HelloApplication.java:77 | the result is a prefix of the input that does not end with a blank, and every character removed is blank |
| `Text.Trim` | HelloApplication.java:77-78 | `String.trim`: the result is a contiguous slice of the input, only blanks lie outside it, and it has no blank at either end |
| `Text.TrimIdempotent` | HelloApplication.java:104 | trimming a trimmed string changes nothing, so a stored ID typed as the query is found under itself |
| `Text.Pieces` | HelloApplication.java:134 | splitting before trailing empties are dropped gives at least one piece, and a string without `;` is its own only piece |
| `Text.DropTrailingEmpty` | HelloApplication.java:134 | the result is a prefix of the parts that ends in a non-empty part, and every part dropped is empty |
| `Text.Split` | HelloApplication.java:106 | `split(";")` with limit 0: a string without `;` comes back as its only part; otherwise the parts are the pieces between delimiters with exactly the trailing empty ones removed |
| `Text.PiecesHaveNoDelimiter` | HelloApplication.java:134 | no piece of a split line holds `;` |
| `Text.Join` | HelloApplication.java:89 | `String.join(";", ...)`: the line starts with the first field; `JoinPieces` and `PiecesJoin` below are its round trips with the pieces of a line |
| `Text.PiecesAround` | HelloApplication.java:134 | the pieces of `a;t` are the pieces of `a` followed by the pieces of `t` |
| `Text.JoinPieces` | HelloApplication.java:89 | joining the pieces of any string on `;` gives the string back |
| `Text.PiecesJoin` | HelloApplication.java:89 | the pieces of a join of fields without `;` are exactly those fields |
| `Text.PiecesOfJoin` | HelloApplication.java:89 | a joined line has at least as many pieces as fields, and its last piece is the last piece of the last field |
| `Text.SplitJoin` | HelloApplication.java:89 | splitting a join of one or more `;`-free fields whose last field is non-empty gives back exactly the fields |
| `Text.SplitJoinLength` | HelloApplication.java:106-109 | a joined line whose last field is non-empty and `;`-free splits into at least as many parts as fields, whatever the other fields hold |
| `Text.DelimiterMakesTwoPieces` | HelloApplication.java:134 | a string that holds `;` has at least two pieces |
| `Text.PiecesOfJoinSplitField` | HelloApplication.java:89 | if any field holds `;`, the joined line has more pieces than fields |
| `Text.SplitJoinTooLong` | HelloApplication.java:89 | if any field holds `;` and the last field is non-empty and `;`-free, the joined line splits into more parts than fields |
| `Records.GenderLabel` | HelloApplication.java:37-42 | the gender text can only be "Male" or "Female" |
| `Records.ProvinceName` | HelloApplication.java:34 | each combo box item is a non-empty name without `;` |
| `Records.Fields` | HelloApplication.java:89 | a record has five fields in file order, with the ID as part 1, the part that loading keys by |
| `Records.Encode` | HelloApplication.java:89 | the record line starts with the name and holds `;`; `SplitEncode` below is its round trip with `split` |
| `Records.Validate` | HelloApplication.java:77-87 | the form is rejected exactly when the trimmed ID or the trimmed name is empty, or no gender, province or date is selected; an accepted record holds the trimmed ID and name, the button text, the province name and the date text |
| `Records.ValidatedIsFormRecord` | HelloApplication.java:79-84 | an accepted record has non-empty name and ID, gender "Male" or "Female", one of the four provinces, and a date string |
| `Records.EncodedSplitsAtLeastFive` | HelloApplication.java:89 | every record line built from the form splits into at least five parts, even when the name or the ID holds `;` |
| `Records.SplitEncode` | HelloApplication.java:89 | a record whose name and ID hold no `;` splits back into exactly its five fields, with the ID as part 1 |
| `Records.DelimiterInNameOrIdLengthensLine` | HelloApplication.java:89 | a record whose name or ID holds `;` splits into more than five parts |
| `Table.Put` | HelloApplication.java:90 | `dataMap.put(id, line)`: the ID maps to the record line, no other key is added and every other entry is unchanged |
| `Table.IsRecordLine` | HelloApplication.java:134-135 | a line that loading accepts splits into exactly five parts, so it holds `;` |
| `Table.KeyOf` | HelloApplication.java:136 | the key of a loaded line is its part 1, which never holds `;` |
| `Table.LoadLines` | HelloApplication.java:133-137 | reading lines into a map never removes a key; `LoadLastWins` and `LoadUntouched` below give every entry of the result |
| `Table.Saved` | HelloApplication.java:84-90 | a rejected form leaves the map unchanged; an accepted one maps its ID to its record line, adds no other key and leaves every other entry as it was |
| `Table.Lookup` | HelloApplication.java:103-113 | the lookup reports not-found exactly when the trimmed query is not a key |
| `Table.SaveSameIdTwice` | HelloApplication.java:90 | two saves under the same trimmed ID leave only the later record |
| `Table.SaveGrowsByAtMostOne` | HelloApplication.java:90 | a save adds at most one entry, and adds one exactly when it is accepted with an ID not yet in the map |
| `Table.SaveKeepsLookupSafe` | HelloApplication.java:89-90 | after any save, every value still splits into at least five parts |
| `Table.SaveKeepsWellKeyed` | HelloApplication.java:89-90 | a save whose name and ID hold no `;` keeps every value a five-part line stored under its own part 1 |
| `Table.SaveThenFind` | HelloApplication.java:103-110 | after a save whose name and ID hold no `;`, finding any query that trims to the same ID shows exactly the saved fields |
| `Table.SavedKeyFinds` | HelloApplication.java:104 | after such a save, the stored ID itself finds the saved fields |
| `Table.DelimiterRecordLostOnReload` | HelloApplication.java:134-136 | a saved record whose trimmed name or ID holds `;` is in the map, but its line is not accepted by loading, so reading it alone gives an empty map |
| `Table.LoadLastWins` | HelloApplication.java:133-137 | after loading, a key carried by an accepted line maps to the last accepted line with that key |
| `Table.LoadUntouched` | HelloApplication.java:133-137 | a key that no accepted line carries keeps its old entry, or stays absent: lines without exactly five parts add nothing |
| `Table.LoadKeepsWellKeyed` | HelloApplication.java:134-136 | loading keeps every value a five-part line stored under its own part 1 |
| `Table.LoadKeepsLookupSafe` | HelloApplication.java:135-136 | loading keeps every value splitting into at least five parts |
| `Table.SerialiseLoadRoundTrip` | HelloApplication.java:117-137 | any file written from a well-keyed map, in any order, loads into an empty map as that same map |
| `Store.RecordStore.constructor` | HelloApplication.java:17 | the store starts with an empty map and satisfies its invariant |
| `Store.RecordStore.SaveData` | HelloApplication.java:76-95 | keeps the invariant; the new map is `Saved` of the old one; the outcome is rejected exactly when validation fails, and otherwise it carries the lines written, one per entry |
| `Store.RecordStore.SaveToFile` | HelloApplication.java:117-126 | the lines written are one per map entry: each entry's value appears exactly once, in some order of the keys |
| `Store.RecordStore.LoadFromFile` | HelloApplication.java:128-143 | keeps the invariant; the new map is the old one with the lines read loaded in order; a missing file changes nothing, and a read error keeps the lines before it |
| `Store.RecordStore.FindData` | HelloApplication.java:97-115 | changes nothing, reports not-found exactly when the trimmed query is not a key, and otherwise shows parts 0 to 4 of the stored line |
| `Store.Start` | HelloApplication.java:17-56 | application start: a new store with an empty map, then the file read into it; the map is the file's lines loaded into the empty map, and the outcome tells a missing file and a read error apart from a full read |
| `Store.Reload` | HelloApplication.java:117-137 | starting the application on a file written from a well-keyed map reads it fully and gives that same map back |
| `Store.SaveAndRestart` | HelloApplication.java:89-91 | saving a form whose name and ID hold no `;` leaves the store's map as `Saved` of the old one, and is rejected exactly when validation fails; a new store started on the file just written then holds that same map |

## Left out

- The JavaFX code is not modelled: `start`, `createGridPane`, `showAlert`, `clearFields`, the find dialog and the Close button. The form's state is the `Form` value, and the alerts are the `SaveOutcome` and `LoadOutcome` values.
- Cancelling the find dialog is not modelled. `FindData` takes the text that was entered.
- Real file I/O is not modelled. The file read is a `TextFile` value: missing, readable, or failing after some lines. The file written is the sequence of lines that `SaveToFile` returns.
- Store.RecordStore.SaveToFile: an I/O error while writing is not modelled. The map is already updated at that point, and the source only shows an alert, so the file's contents after a failed write are not captured.
- How the reader splits text into lines is not modelled. Neither is a field that contains a line break. The file is a sequence of lines, both when written and when read.
- `HashMap` iteration order is not modelled. `SaveToFile` takes the keys in any order, and its contract holds for every order.
- The format of `LocalDate.toString` is not modelled. A date is any non-empty string of digits, `-` and `+`, which is the alphabet that method uses.
- `split` is modelled only for the literal delimiter `;`. The rest of the regular-expression semantics is not modelled.
- Java's `String` is a sequence of UTF-16 code units. The model uses Dafny `char`, and trimming compares each character with U+0020 just as Java does.
