/** The autocomplete's glue around its options: the label shown for a value,
    the option/value equality, and the normalisation of what the widget
    reports before it is stored. */
module Autocomplete {
  import opened Text
  import opened FieldText

  datatype AutoOption = AutoOption(caption: string, value: string)

  /** What the widget holds or reports: free text, or an option object. */
  datatype Entry = Free(text: string) | Picked(option: AutoOption)

  /** What the widget hands to its `onChange`. */
  datatype Payload = Null | One(entry: Entry) | Many(entries: seq<Entry>)

  /** The stored form value: undefined, one string, or a list of entries. */
  datatype Stored = Undefined | Scalar(text: string) | List(entries: seq<Entry>)

  /** `options.find(item => item.value === s)`: the first option with that value. */
  function Find(options: seq<AutoOption>, s: string): (r: Option<nat>)
    ensures r.Some? ==>
      r.value < |options| && options[r.value].value == s && forall i :: 0 <= i < r.value ==> options[i].value != s
    ensures r.None? ==> forall i :: 0 <= i < |options| ==> options[i].value != s
  {
    if options == [] then None
    else if options[0].value == s then Some(0)
    else match Find(options[1..], s)
      case None => None
      case Some(i) => Some(i + 1)
  }

  /** `getOptionLabel`: for a string, the label of the first option with that
      value, falling back to the string itself when there is none or its label
      is empty; for an option, its label. */
  function OptionLabel(options: seq<AutoOption>, e: Entry): (r: string)
    ensures e.Picked? ==> r == e.option.caption
    ensures e.Free? && r != e.text ==>
      r != [] && exists i :: 0 <= i < |options| && options[i].value == e.text && options[i].caption == r
  {
    match e
    case Picked(o) => o.caption
    case Free(s) =>
      match Find(options, s)
      case Some(i) => if options[i].caption != [] then options[i].caption else s
      case None => s
  }

  /** A string the options know gets the label of its first option. */
  lemma KnownValueLabel(options: seq<AutoOption>, i: nat)
    requires i < |options| && options[i].caption != []
    requires forall j :: 0 <= j < i ==> options[j].value != options[i].value
    ensures OptionLabel(options, Free(options[i].value)) == options[i].caption
  {
  }

  /** A string no option has as its value is its own label (free text). */
  lemma FreeTextLabel(options: seq<AutoOption>, s: string)
    requires forall i :: 0 <= i < |options| ==> options[i].value != s
    ensures OptionLabel(options, Free(s)) == s
  {
  }

  /** `isOptionEqualToValue`: strict equality of the option's value and the
      stored entry, so an option object stored as itself never matches. */
  function IsOptionEqualToValue(o: AutoOption, v: Entry): (b: bool)
    ensures b ==> v == Free(o.value)
    ensures v.Picked? ==> !b
  {
    v.Free? && v.text == o.value
  }

  /** `item.value || item`: an option becomes its value unless that value is
      empty; free text stays as it is. */
  function Normalize(e: Entry): (r: Entry)
    ensures r.Picked? ==> r == e && e.option.value == []
    ensures e.Picked? && e.option.value != [] ==> r == Free(e.option.value)
  {
    match e
    case Free(s) => e
    case Picked(o) => if o.value != [] then Free(o.value) else e
  }

  /** The handler: the stored value after the widget reports `data`, or
      `None` when `onChange` is not called and the value stays as it was. */
  function OnChange(multiple: bool, data: Payload): (r: Option<Stored>)
    ensures multiple && data.Many? ==>
      r.Some? && r.value.List? && |r.value.entries| == |data.entries|
      && forall i :: 0 <= i < |data.entries| ==> r.value.entries[i] == Normalize(data.entries[i])
    ensures data.Null? || (data.One? && data.entry.Free?) ==> r.None?
    ensures data.One? && data.entry.Picked? ==> r == Some(Scalar(data.entry.option.value))
    ensures !multiple && data.Many? ==> r == Some(Undefined)
  {
    match data
    case Many(es) =>
      if multiple then Some(List(seq(|es|, i requires 0 <= i < |es| => Normalize(es[i]))))
      else Some(Undefined)
    case One(Picked(o)) => Some(Scalar(o.value))
    case One(Free(_)) => None
    case Null => None
  }

  /** Normalising twice is normalising once. */
  lemma NormalizeIdempotent(e: Entry)
    ensures Normalize(Normalize(e)) == Normalize(e)
  {
  }

  /** A stored list of options with non-empty values holds exactly the values,
      and each of them is then equal to its option. */
  lemma StoredValuesMatchOptions(options: seq<AutoOption>)
    requires forall o :: o in options ==> o.value != []
    ensures var r := OnChange(true, Many(seq(|options|, i requires 0 <= i < |options| => Picked(options[i]))));
      r.Some? && r.value.List? && |r.value.entries| == |options|
      && forall i :: 0 <= i < |options| ==> IsOptionEqualToValue(options[i], r.value.entries[i])
  {
    var es := seq(|options|, i requires 0 <= i < |options| => Picked(options[i]));
    forall i | 0 <= i < |options| ensures Normalize(es[i]) == Free(options[i].value) {
      assert options[i] in options;
    }
  }

  /** The helper line: `error?.message || helperText`. */
  function HelperLine(error: Option<FieldError>, helperText: Option<string>): Option<string>
  {
    if error.Some? && error.value.message.Some? && error.value.message.value != "" then error.value.message
    else helperText
  }

  /** The autocomplete's own helper line agrees with the shared rule. */
  lemma HelperLineIsErrorText(error: Option<FieldError>, helperText: Option<string>)
    ensures HelperLine(error, helperText) == GetErrorText(error, helperText)
  {
  }
}
