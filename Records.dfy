/**
 * The entry form and the record line built from it: the values `saveData`
 * reads from the widgets, the checks it makes, and the `;`-joined line it
 * stores.
 */
module Records {
  import opened Wrappers
  import opened Text

  /** The gender radio buttons in the toggle group; the "Other" button never joins it. */
  datatype Gender = Male | Female

  function GenderLabel(g: Gender): (text: string)
    ensures text == "Male" || text == "Female"
  {
    match g
    case Male => "Male"
    case Female => "Female"
  }

  /** The items of the (non-editable) province combo box. */
  datatype Province = Punjab | Sindh | KhyberPakhtunkhwa | Balochistan

  /** The combo box item text: never empty and never holding the field separator. */
  function ProvinceName(p: Province): (name: string)
    ensures name != [] && Delimiter !in name
  {
    match p
    case Punjab => "Punjab"
    case Sindh => "Sindh"
    case KhyberPakhtunkhwa => "Khyber Pakhtunkhwa"
    case Balochistan => "Balochistan"
  }

  /**
   * What `LocalDate.toString` can produce: a non-empty string of digits,
   * `-` and (for years past 9999) `+`.
   */
  predicate IsDateText(s: string) {
    |s| > 0 && forall i :: 0 <= i < |s| ==> s[i] in "0123456789-+"
  }

  type DateText = s: string | IsDateText(s) witness "2000-01-01"

  /**
   * The state of the form when Save is pressed: the raw text of the two
   * text fields, and the selection (possibly none) of the toggle group,
   * the combo box and the date picker.
   */
  datatype Form = Form(
    nameText: string,
    idText: string,
    gender: Option<Gender>,
    province: Option<Province>,
    dob: Option<DateText>)

  /** One record, field by field, in the order of the file format. */
  datatype Record = Record(name: string, id: string, gender: string, province: string, dob: string)

  /** The fields in file order; the id is part 1, the key `loadDataFromFile` uses. */
  function Fields(r: Record): (f: seq<string>)
    ensures |f| == 5 && f[1] == r.id
  {
    [r.name, r.id, r.gender, r.province, r.dob]
  }

  /** The record line: the five fields joined on `;`. */
  function Encode(r: Record): (line: string)
    ensures r.name <= line
    ensures Delimiter in line
  {
    Join(Fields(r))
  }

  /** The fields a record read from the form can only have. */
  predicate IsFormRecord(r: Record) {
    && r.name != []
    && r.id != []
    && (r.gender == "Male" || r.gender == "Female")
    && r.province in {"Punjab", "Sindh", "Khyber Pakhtunkhwa", "Balochistan"}
    && IsDateText(r.dob)
  }

  /**
   * The validation of `saveData`: the id and the name are trimmed, and the
   * form is rejected when either is then empty or when no gender, province
   * or date is selected.
   */
  function Validate(f: Form): (r: Option<Record>)
    ensures r.None? <==>
      Trim(f.idText) == [] || Trim(f.nameText) == [] || f.gender.None? || f.province.None? || f.dob.None?
    ensures r.Some? ==>
      && r.value.id == Trim(f.idText)
      && r.value.name == Trim(f.nameText)
      && r.value.gender == GenderLabel(f.gender.value)
      && r.value.province == ProvinceName(f.province.value)
      && r.value.dob == f.dob.value
  {
    var id := Trim(f.idText);
    var name := Trim(f.nameText);
    var gender := if f.gender.Some? then GenderLabel(f.gender.value) else "";
    var dob := if f.dob.Some? then f.dob.value else "";
    if id == [] || name == [] || gender == [] || f.province.None? || dob == [] then None
    else Some(Record(name, id, gender, ProvinceName(f.province.value), dob))
  }

  /** A record read from the form has non-empty fields, a known gender and province, and a date. */
  lemma ValidatedIsFormRecord(f: Form)
    requires Validate(f).Some?
    ensures IsFormRecord(Validate(f).value)
  {
  }

  /**
   * Every record line from the form splits into at least five parts, so
   * the lookup's `parts[0]` to `parts[4]` are always in bounds, even when
   * the name or the id holds a `;`.
   */
  lemma EncodedSplitsAtLeastFive(r: Record)
    requires IsFormRecord(r)
    ensures |Split(Encode(r))| >= 5
  {
    SplitJoinLength(Fields(r));
  }

  /**
   * A record whose name and id hold no `;` splits back into exactly its
   * five fields, the id at index 1.
   */
  lemma SplitEncode(r: Record)
    requires IsFormRecord(r)
    requires Delimiter !in r.name && Delimiter !in r.id
    ensures Split(Encode(r)) == Fields(r)
    ensures |Split(Encode(r))| == 5 && Split(Encode(r))[1] == r.id
  {
    SplitJoin(Fields(r));
  }

  /**
   * A record whose name or id holds a `;` splits into more than five
   * parts: nothing escapes the delimiter inside a field.
   */
  lemma DelimiterInNameOrIdLengthensLine(r: Record)
    requires IsFormRecord(r)
    requires Delimiter in r.name || Delimiter in r.id
    ensures |Split(Encode(r))| > 5
  {
    SplitJoinTooLong(Fields(r), if Delimiter in r.name then 0 else 1);
  }
}
