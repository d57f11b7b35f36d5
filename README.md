# capy form fields in Dafny

This project models the logic inside the form widgets of the capy React
library (Material UI fields driven by react-hook-form). It covers the parts
that decide values, not the rendering:

- **MoneyField** turns a number into Brazilian-style money text and turns
  typed text back into a number.
  - The number is formatted with a thousands separator and two cents digits
    ("10.000,00").
  - Typed text goes back through "keep the digits, divide by 100".
  - The model works in whole cents. Reading back the display of an amount
    (`Money.InputCents` of `Money.FormatValue`) is proved to give the
    amount's magnitude in cents, and typing a digit shifts the amount one
    place.
- **RhfColorPicker**:
  - the colour conversions: hex validity, hex to `rgb(...)`/`rgba(...)`,
    hex to `hsl(...)` and the format dispatch;
  - the default presets and their grouping;
  - the picker's state machine (`Picker`): the committed value, the typed
    text, focus, the popover and the alpha.
- **RhfButtonGroup** (exclusive and multiple selection) and
  **RhfCheckboxGroup**: toggling a value on and off.
- **RhfAutocomplete**:
  - how a value is labelled;
  - how an option is compared with the value;
  - how what the widget reports is normalised before it is stored.
- **The file fields**:
  - `FileRules` holds the per-file admission rules: the size limit and the
    `accept` list. `RhfFileUpload` and `RhfSimpleFile` carry identical
    copies of these rules.
  - `FileUpload.Uploader` is the multi-file field: batch admission, the
    uploaded-file list, upload results and removal by id.
  - `SimpleFile.Picker` is the single-file field.
- **src/types/base.ts**: the helper-text and error-state helpers, in
  `FieldText`.

The modules are:

- `Text`: string helpers with JavaScript meaning, such as
  `replace(/\D/g,"")`, `String(n)`, `split`, `trim` and `toLowerCase`.
- `Money`
- `Color`
- `ColorPicker`
- `Lists`: `filter(v => v !== x)`.
- `ButtonGroup`
- `CheckboxGroup`
- `Autocomplete`
- `FieldText`
- `FileRules`
- `FileUpload`
- `SimpleFile`

Where the source changes state step by step, the model is a class:

- the colour picker;
- the upload field, whose list of uploaded files is `files`;
- the simple file field.

Each event handler is a method, and its `ensures` states the whole new
state. A callback the component calls (`onChange`, `onFilesChange`,
`onFileChange`) is recorded as a history field (`committed`, `reported`).
Callbacks whose results the component consumes are parameters:

- a custom `validate` gives `verdict`;
- `onUpload` gives the outcome of each upload;
- generated file ids are passed in as `ids`.

## Model

| member | source | states |
|---|---|---|
| Text.OnlyDigits | src/components/MoneyField/MoneyField.tsx:19 | the result consists of decimal digits only and is no longer than the input |
| Text.OnlyDigitsAppend | src/components/MoneyField/MoneyField.tsx:19 | stripping non-digits distributes over concatenation, so it keeps the digits in order |
| Text.StripLeadingZeros | src/components/MoneyField/MoneyField.tsx:20 | the result is a suffix of the input, keeps it all-digit, and does not start with '0' |
| Text.LeadingZerosAddNothing | src/components/MoneyField/MoneyField.tsx:35-39 | removing leading zeros does not change the number the digits denote |
| Text.NatText | src/components/RhfColorPicker/RhfColorPicker.tsx:62-67 | `String(n)` of a natural number is a non-empty digit string without a leading zero (except "0") |
| Text.NatTextValue | src/components/RhfColorPicker/RhfColorPicker.tsx:62-67 | reading back `String(n)` gives n |
| Text.Split | src/components/RhfFileUpload/RhfFileUpload.tsx:92 | `split(",")` yields at least one piece and no piece contains the separator |
| Text.SplitJoin | src/components/RhfFileUpload/RhfFileUpload.tsx:92 | joining the pieces of a split with the separator gives the text back |
| Text.Trim | src/components/RhfFileUpload/RhfFileUpload.tsx:92 | the trimmed entry neither starts nor ends with white space |
| Text.ToLower | src/components/RhfFileUpload/RhfFileUpload.tsx:95 | lower-casing keeps the length and maps each character independently |
| Money.FixedTextDigits | src/components/MoneyField/MoneyField.tsx:17-19 | the digits of `toFixed(2)` denote the absolute amount in cents |
| Money.MaskDigitsValue | src/components/MoneyField/MoneyField.tsx:17-20 | the digit mask has no leading zero and denotes the absolute cents (0 for NaN) |
| Money.PadZerosValue | src/components/MoneyField/MoneyField.tsx:21-22 | padding a digit string without leading zero to three places keeps its value, and a longer string is left as it is |
| Money.PaddedValue | src/components/MoneyField/MoneyField.tsx:17-22 | padding to three digits keeps the value and leaves no leading zero on longer texts |
| Money.FormatParts | src/components/MoneyField/MoneyField.tsx:22-24 | the integer part is non-empty, has no superfluous leading zero and denotes cents / 100; the cents part is two digits denoting cents % 100 |
| Money.SplitCents | src/components/MoneyField/MoneyField.tsx:23-24 | slicing off the last two digits splits the value into whole units and cents |
| Money.GroupShape | src/components/MoneyField/MoneyField.tsx:25-28 | the separator regex cuts the integer into a leading group of 1 to 3 digits followed by groups of exactly 3, whose concatenation is the integer |
| Money.GroupDigits | src/components/MoneyField/MoneyField.tsx:25-28 | with a digit-free separator, removing non-digits from the grouped integer gives the integer back |
| Money.DisplayEndsWithCents | src/components/MoneyField/MoneyField.tsx:30 | every formatted amount ends with the decimal separator and two cents digits |
| Money.NegativeShowsMagnitude | src/components/MoneyField/MoneyField.tsx:17-20 | the sign is dropped: -x and x are displayed alike |
| Money.UndefinedShowsZero | src/components/MoneyField/MoneyField.tsx:17-22 | an undefined value (`NaN`) and zero are both displayed as "0" + separator + "00" |
| Money.DefaultSeparatorExamples | src/components/MoneyField/MoneyField.test.tsx:41-55 | 100.5 is shown as "100,50" and 10000 as "10.000,00" with the default separators |
| Money.InputIsDigitValue | src/components/MoneyField/MoneyField.tsx:33-39 | the amount read from typed text is the number its digits denote, 0 when it has none |
| Money.TypeDigit | src/components/MoneyField/MoneyField.tsx:33-39 | appending a digit multiplies the amount by ten and adds that digit |
| Money.TypeNonDigit | src/components/MoneyField/MoneyField.tsx:35 | appending a non-digit leaves the amount unchanged |
| Money.RoundTrip | src/components/MoneyField/MoneyField.tsx:15-39 | reading back the formatted text gives the absolute amount in cents (0 for NaN) |
| Money.KeystrokeShifts | src/components/MoneyField/MoneyField.tsx:15-39 | typing digit d after the display of an amount gives ten times its cents plus d (the cents of NaN being 0) |
| Money.BackspaceShifts | src/components/MoneyField/MoneyField.tsx:15-39 | deleting the last displayed character gives a tenth of the amount's cents, rounded down |
| Money.DisplayEndsInDigit | src/components/MoneyField/MoneyField.tsx:15-39 | the display ends in a digit and reads back as the amount's cents |
| Money.DropLastDigit | src/components/MoneyField/MoneyField.tsx:33-39 | dropping a final digit of a text divides the amount read from it by ten |
| Color.HexValue | src/components/RhfColorPicker/RhfColorPicker.tsx:58-60 | a hex digit's value is below 16 and agrees with the decimal digits |
| Color.HexValueIgnoresCase | src/components/RhfColorPicker/RhfColorPicker.tsx:55 | upper- and lower-case hex letters have the same value |
| Color.IsValidHexColor | src/components/RhfColorPicker/RhfColorPicker.tsx:133-135 | valid exactly when the text is "#" followed by 3 or 6 hex digits |
| Color.ValidHexIgnoresCase | src/components/RhfColorPicker/RhfColorPicker.tsx:133-135 | validity does not depend on the case of the letters |
| Color.SixHex | src/components/RhfColorPicker/RhfColorPicker.tsx:55-56 | the regex matches exactly the texts of six hex digits with an optional leading "#" |
| Color.Channels | src/components/RhfColorPicker/RhfColorPicker.tsx:55-60 | a match yields three channels, each in 0..255 |
| Color.ByteHexRoundTrip | src/components/RhfColorPicker/RhfColorPicker.tsx:58-60 | parsing the two-digit hex of a byte gives the byte back |
| Color.ChannelsRoundTrip | src/components/RhfColorPicker/RhfColorPicker.tsx:55-60 | any three bytes written as "#rrggbb" parse back to those bytes |
| Color.ChannelsIgnoreCase | src/components/RhfColorPicker/RhfColorPicker.tsx:55-60 | upper-case hex gives the same channels as lower-case |
| Color.HexToRgbChangesExactlyMatches | src/components/RhfColorPicker/RhfColorPicker.tsx:54-57 | the colour comes back unchanged if and only if it is not six-digit hex |
| Color.SixHexIgnoresCase | src/components/RhfColorPicker/RhfColorPicker.tsx:55-60 | a text matches exactly when its lower-cased form does, and the matched digits are lower-cased with it |
| Color.PairsIgnoreCase | src/components/RhfColorPicker/RhfColorPicker.tsx:55-60 | the three byte values of six hex digits do not depend on their case |
| Color.RgbTextShape | src/components/RhfColorPicker/RhfColorPicker.tsx:62-67 | the rgb text of any channels starts with "rgb(" or "rgba(" by alpha, ends with ")", and with alpha ends with ", " + alpha + ")" |
| Color.HexToRgbShape | src/components/RhfColorPicker/RhfColorPicker.tsx:62-67 | a converted colour is "rgb(…)" without alpha and "rgba(…, a)" with alpha a |
| Color.RedToRgb | src/components/RhfColorPicker/RhfColorPicker.test.tsx:143-148 | "#ff0000" becomes "rgb(255, 0, 0)" |
| Color.Round | src/components/RhfColorPicker/RhfColorPicker.tsx:105-111 | `Math.round` gives the integer nearest to x, with ties going up |
| Color.HslBounds | src/components/RhfColorPicker/RhfColorPicker.tsx:74-100 | for channels in 0..255, hue lies in [0,1) and saturation and lightness lie in [0,1] |
| Color.GreyHasNoHue | src/components/RhfColorPicker/RhfColorPicker.tsx:78-84 | equal channels give hue 0 and saturation 0 |
| Color.HslRoundedBounds | src/components/RhfColorPicker/RhfColorPicker.tsx:103-111 | the printed hue lies in 0..360 and saturation and lightness in 0..100 |
| Color.HexToHslChangesExactlyMatches | src/components/RhfColorPicker/RhfColorPicker.tsx:70-72 | the colour comes back unchanged if and only if it is not six-digit hex |
| Color.RedToHsl | src/components/RhfColorPicker/RhfColorPicker.test.tsx:150-155 | "#ff0000" becomes "hsl(0, 100%, 50%)" |
| Color.ConvertKeepsNonHex | src/components/RhfColorPicker/RhfColorPicker.tsx:114-119 | an empty or non-"#" colour is returned as it is, whatever the format |
| Color.ConvertToHexIsIdentity | src/components/RhfColorPicker/RhfColorPicker.tsx:126-130 | the hex format never changes a colour |
| Color.ShortHexUnconverted | src/components/RhfColorPicker/RhfColorPicker.tsx:114-131 | a valid three-digit hex colour passes rgb and hsl conversion unchanged |
| Color.LongHexConverted | src/components/RhfColorPicker/RhfColorPicker.tsx:114-131 | a six-digit hex colour is always changed by the rgb and hsl formats |
| Color.ConvertRgbTwice | src/components/RhfColorPicker/RhfColorPicker.tsx:114-124 | converting to rgb is idempotent: an rgb text is not hex and passes through |
| ColorPicker.GroupOrder | src/components/RhfColorPicker/RhfColorPicker.tsx:272-280 | a group appears in the order exactly when some preset has that group ("Colors" when it has none) |
| ColorPicker.Bucket | src/components/RhfColorPicker/RhfColorPicker.tsx:272-280 | each bucket holds only presets of that group |
| ColorPicker.GroupOrderDistinct | src/components/RhfColorPicker/RhfColorPicker.tsx:272-280 | each group appears once in the order |
| ColorPicker.BucketMembership | src/components/RhfColorPicker/RhfColorPicker.tsx:272-280 | a preset is in the bucket of a group exactly when it has that group |
| ColorPicker.BucketsPartition | src/components/RhfColorPicker/RhfColorPicker.tsx:272-280 | the bucket sizes add up to the number of presets, so no preset is lost or duplicated |
| ColorPicker.GroupPresets | src/components/RhfColorPicker/RhfColorPicker.tsx:272-280 | the loop yields the map from each group in order of first appearance to that group's presets, in order |
| ColorPicker.DefaultGroups | src/components/RhfColorPicker/RhfColorPicker.tsx:30-51 | the default presets fall into "Primary", "Secondary" and "Neutral", in that order |
| ColorPicker.Picker.constructor | src/components/RhfColorPicker/RhfColorPicker.tsx:158-173 | the picker starts closed, unfocused, with empty input text and alpha 1 |
| ColorPicker.Picker.AlphaArg | src/components/RhfColorPicker/RhfColorPicker.tsx:175-186 | the alpha is passed to conversions only when alpha is shown |
| ColorPicker.Picker.DisplayValue | src/components/RhfColorPicker/RhfColorPicker.tsx:175-186 | the focused, non-empty typed text is shown as typed; otherwise the committed value is shown in the chosen format |
| ColorPicker.Picker.Commit | src/components/RhfColorPicker/RhfColorPicker.tsx:195-196 | the value is stored and reported, and nothing else changes |
| ColorPicker.Picker.ColorSelect | src/components/RhfColorPicker/RhfColorPicker.tsx:188-200 | the colour is committed in the chosen format and the popover closes |
| ColorPicker.Picker.InputChange | src/components/RhfColorPicker/RhfColorPicker.tsx:202-218 | the input always takes the text; it is committed, converted, if and only if it is valid hex or empty |
| ColorPicker.Picker.InputFocus | src/components/RhfColorPicker/RhfColorPicker.tsx:220-223 | focusing loads the committed value into the input |
| ColorPicker.Picker.InputBlur | src/components/RhfColorPicker/RhfColorPicker.tsx:225-231 | after a blur the input holds valid hex, nothing, or the committed value |
| ColorPicker.Picker.OpenPicker | src/components/RhfColorPicker/RhfColorPicker.tsx:233-251 | a disabled picker does not open; otherwise it opens with the committed value in the input |
| ColorPicker.Picker.ClosePicker | src/components/RhfColorPicker/RhfColorPicker.tsx:253-256 | closing empties the input and commits nothing |
| ColorPicker.Picker.Clear | src/components/RhfColorPicker/RhfColorPicker.tsx:258-262 | clearing commits the empty colour and empties the input |
| ColorPicker.Picker.PopoverType | src/components/RhfColorPicker/RhfColorPicker.tsx:468 | typing in the popover changes only the input |
| ColorPicker.Picker.PopoverEnter | src/components/RhfColorPicker/RhfColorPicker.tsx:469-473 | Enter selects the typed text if and only if it is valid hex |
| ColorPicker.Picker.SetAlpha | src/components/RhfColorPicker/RhfColorPicker.tsx:514-516 | the slider changes only the alpha |
| ColorPicker.RejectedTextReverts | src/components/RhfColorPicker/RhfColorPicker.tsx:202-231 | typing invalid text and leaving the field commits nothing and shows the committed colour again |
| ColorPicker.TypedHexIsCommitted | src/components/RhfColorPicker/RhfColorPicker.test.tsx:130-141 | in hex format, typing a valid colour commits exactly that text |
| Lists.RemoveAll | src/components/RhfButtonGroup/RhfButtonGroup.tsx:46 | filtering removes every occurrence of the value and never lengthens the list |
| Lists.RemoveAllCounts | src/components/RhfButtonGroup/RhfButtonGroup.tsx:46 | the filtered list holds exactly the other values, with their multiplicities |
| Lists.RemoveAllSplits | src/components/RhfButtonGroup/RhfButtonGroup.tsx:46 | filtering distributes over concatenation, so the kept values stay in order |
| Lists.RemoveAbsent | src/components/RhfButtonGroup/RhfButtonGroup.tsx:46 | filtering out an absent value changes nothing |
| Lists.AppendThenRemove | src/components/RhfButtonGroup/RhfButtonGroup.tsx:43-49 | appending an absent value and filtering it out again gives the list back |
| Lists.RemoveAllMembership | src/components/RhfButtonGroup/RhfButtonGroup.tsx:46 | a value is in the filtered list exactly when it is in the list and differs from the removed one |
| ButtonGroup.IsSelected | src/components/RhfButtonGroup/RhfButtonGroup.tsx:53-59 | exclusive: the value equals the option; multiple: the value is a list containing the option |
| ButtonGroup.Click | src/components/RhfButtonGroup/RhfButtonGroup.tsx:37-51 | exclusive: clicking the current value unsets it, any other click selects that option; multiple: the result is a list at most one longer than the current values |
| ButtonGroup.ClickSelectedRemoves | src/components/RhfButtonGroup/RhfButtonGroup.tsx:44-46 | clicking a selected option in multiple mode removes every copy of it and keeps the rest in order |
| ButtonGroup.ClickAbsentAppends | src/components/RhfButtonGroup/RhfButtonGroup.tsx:47-48 | clicking an unselected option in multiple mode appends it |
| ButtonGroup.NonListIsEmpty | src/components/RhfButtonGroup/RhfButtonGroup.tsx:43 | in multiple mode a non-list value counts as no selection, and a click yields the one-element list |
| ButtonGroup.ClickFlipsSelection | src/components/RhfButtonGroup/RhfButtonGroup.tsx:37-59 | a click flips whether the clicked option is selected, in both modes |
| ButtonGroup.ClickKeepsOthers | src/components/RhfButtonGroup/RhfButtonGroup.tsx:37-59 | multiple mode: a click leaves the selection of every other option unchanged; exclusive mode: after a click no other option is selected |
| ButtonGroup.DoubleClick | src/components/RhfButtonGroup/RhfButtonGroup.tsx:37-51 | multiple mode: two clicks on an unselected option give the list back; exclusive mode: two clicks on an option not held leave nothing selected |
| CheckboxGroup.Checked | src/components/RhfCheckboxGroup/RhfCheckboxGroup.tsx:38 | a box is checked exactly when the value is defined and contains its option |
| CheckboxGroup.OnChange | src/components/RhfCheckboxGroup/RhfCheckboxGroup.tsx:39-45 | checking appends the option, unchecking filters it out, and an undefined value fails (no update) |
| CheckboxGroup.CheckAppends | src/components/RhfCheckboxGroup/RhfCheckboxGroup.tsx:40-41 | checking yields the old list plus the option at its end |
| CheckboxGroup.UncheckRemovesAll | src/components/RhfCheckboxGroup/RhfCheckboxGroup.tsx:42-43 | unchecking removes every copy of the option and keeps the rest |
| CheckboxGroup.CheckedFollowsToggle | src/components/RhfCheckboxGroup/RhfCheckboxGroup.tsx:38-45 | after a change the box is checked exactly when the change checked it |
| CheckboxGroup.CheckThenUncheck | src/components/RhfCheckboxGroup/RhfCheckboxGroup.tsx:40-43 | checking an unchecked option and unchecking it gives the value back |
| CheckboxGroup.OthersUnchanged | src/components/RhfCheckboxGroup/RhfCheckboxGroup.tsx:38-45 | toggling one option leaves every other box as it was |
| Autocomplete.Find | src/components/RhfAutocomplete/RhfAutocomplete.tsx:48 | the index found is the first option with that value, and none means no option has it |
| Autocomplete.OptionLabel | src/components/RhfAutocomplete/RhfAutocomplete.tsx:45-52 | an option shows its label; a string shows itself unless some option with that value has a non-empty label |
| Autocomplete.KnownValueLabel | src/components/RhfAutocomplete/RhfAutocomplete.tsx:46-49 | a string that is an option's value shows the label of the first such option |
| Autocomplete.FreeTextLabel | src/components/RhfAutocomplete/RhfAutocomplete.tsx:46-49 | free text that no option has as value is shown as it is |
| Autocomplete.IsOptionEqualToValue | src/components/RhfAutocomplete/RhfAutocomplete.tsx:53 | an option matches only a stored string equal to its value, never a stored option object |
| Autocomplete.Normalize | src/components/RhfAutocomplete/RhfAutocomplete.tsx:59 | an option becomes its value when that value is non-empty; free text is unchanged |
| Autocomplete.OnChange | src/components/RhfAutocomplete/RhfAutocomplete.tsx:54-63 | multiple mode stores the list with each entry normalised; a single option stores its value; an array outside multiple mode stores undefined; null and a single string leave the value untouched |
| Autocomplete.NormalizeIdempotent | src/components/RhfAutocomplete/RhfAutocomplete.tsx:59 | normalising twice is normalising once |
| Autocomplete.StoredValuesMatchOptions | src/components/RhfAutocomplete/RhfAutocomplete.tsx:53-59 | an option with a non-empty value, once stored in multiple mode, is recognised as equal by its option |
| Autocomplete.HelperLineIsErrorText | src/components/RhfAutocomplete/RhfAutocomplete.tsx:88 | the helper line is the shared error-text rule |
| FieldText.GetErrorText | src/types/base.ts:31-39 | the text shown is either the helper text or the error's message |
| FieldText.HasError | src/types/base.ts:44-46 | the error state is on exactly when an error is present |
| FieldText.MessageWins | src/types/base.ts:35-37 | a non-empty error message takes precedence over the helper text |
| FieldText.EmptyMessageFallsBack | src/types/base.ts:31-46 | an error whose message is empty or missing shows the helper text while the error state stays on |
| FieldText.NoErrorShowsHelper | src/types/base.ts:31-46 | without an error the helper text is shown and the error state is off |
| FileRules.ValidateFile | src/components/RhfFileUpload/RhfFileUpload.tsx:83-113 | a file is refused as too large exactly when a non-zero limit is exceeded; a type refusal quotes the accept list; otherwise it is admitted exactly when some trimmed entry matches |
| FileRules.SizeCheckedFirst | src/components/RhfFileUpload/RhfFileUpload.tsx:85-89 | an oversize file is refused for its size whatever its type |
| FileRules.SizeLimitInclusive | src/components/RhfFileUpload/RhfFileUpload.tsx:85 | a file exactly at the limit passes the size check |
| FileRules.TypeCheck | src/components/RhfFileUpload/RhfFileUpload.tsx:91-107 | within the size limit and with a non-empty accept list, the file is admitted exactly when one of the comma-separated, trimmed entries matches it |
| FileRules.ExtensionIgnoresCase | src/components/RhfFileUpload/RhfFileUpload.tsx:94-96 | extension entries compare case-insensitively |
| FileRules.PrefixWildcard | src/components/RhfFileUpload/RhfFileUpload.tsx:98-101 | a star pattern with a literal prefix and nothing after the star admits exactly the texts starting with the prefix and without a line terminator after it |
| FileRules.ImageWildcard | src/components/RhfFileUpload/RhfFileUpload.tsx:98-101 | a star entry "image/" + star admits exactly the types that start with "image/" and contain no line terminator after it |
| FileRules.ExactTypeIsCaseSensitive | src/components/RhfFileUpload/RhfFileUpload.tsx:102 | an exact MIME entry does not admit a type that differs only in case |
| FileRules.TrailingCommaAdmitsUntyped | src/components/RhfFileUpload/RhfFileUpload.tsx:92-102 | a trailing comma adds an empty entry that admits files with an empty type |
| FileUpload.FormValueOf | src/components/RhfFileUpload/RhfFileUpload.tsx:157-158 | multiple mode stores the whole list; single mode stores the first entry, or null when the list is empty |
| FileUpload.NewEntry | src/components/RhfFileUpload/RhfFileUpload.tsx:145-151 | a new entry has no progress, no error, is not uploaded, and has a preview exactly for images when previews are on |
| FileUpload.NewEntries | src/components/RhfFileUpload/RhfFileUpload.tsx:145-151 | one new entry per file of the batch, in order, with its id |
| FileUpload.FirstRefused | src/components/RhfFileUpload/RhfFileUpload.tsx:126-131 | every file before the index passes the rules, and the file at the index (if any) fails |
| FileUpload.FirstFailure | src/components/RhfFileUpload/RhfFileUpload.tsx:126-131 | a batch has no rule failure exactly when every file passes the rules |
| FileUpload.CheckBatch | src/components/RhfFileUpload/RhfFileUpload.tsx:126-131 | the loop stops at the first refused file and reports that file's reason |
| FileUpload.CustomError | src/components/RhfFileUpload/RhfFileUpload.tsx:134-142 | the custom validator refuses exactly when it returns a string or `false` |
| FileUpload.Mark | src/components/RhfFileUpload/RhfFileUpload.tsx:170-184 | success marks the entry uploaded at 100%; failure records the upload error and resets progress; identity, file and preview are kept |
| FileUpload.MarkById | src/components/RhfFileUpload/RhfFileUpload.tsx:170-184 | only entries with the given id are marked, and the list keeps its length and order |
| FileUpload.OutcomesKeepOthers | src/components/RhfFileUpload/RhfFileUpload.tsx:166-187 | upload results leave every entry whose id was not uploaded as it was |
| FileUpload.OutcomeOfEntry | src/components/RhfFileUpload/RhfFileUpload.tsx:166-187 | with distinct ids, the entry of the k-th upload ends marked with the k-th outcome |
| FileUpload.RemoveById | src/components/RhfFileUpload/RhfFileUpload.tsx:255 | removal never lengthens the list |
| FileUpload.RemoveByIdKeeps | src/components/RhfFileUpload/RhfFileUpload.tsx:255 | an entry survives removal exactly when it has another id |
| FileUpload.RemoveByIdSplits | src/components/RhfFileUpload/RhfFileUpload.tsx:255 | removal distributes over concatenation, so the survivors keep their order |
| FileUpload.RemoveAbsentId | src/components/RhfFileUpload/RhfFileUpload.tsx:255 | removing an id no entry has changes nothing |
| FileUpload.Uploader.constructor | src/components/RhfFileUpload/RhfFileUpload.tsx:36-53 | the field starts with no uploaded files, no reports, and the given limits and form value |
| FileUpload.Uploader.Admission | src/components/RhfFileUpload/RhfFileUpload.tsx:119-142 | a batch over the file limit is refused for that, then for the first rule failure, then by the custom validator; it is admitted only when all three pass |
| FileUpload.Uploader.ProcessFiles | src/components/RhfFileUpload/RhfFileUpload.tsx:116-204 | a refused batch changes nothing; an admitted one is appended, stored, reported, and its entries are marked by the upload outcomes |
| FileUpload.Uploader.RunUploads | src/components/RhfFileUpload/RhfFileUpload.tsx:166-187 | the upload loop applies the outcomes in order and changes nothing but the list |
| FileUpload.Uploader.SelectFiles | src/components/RhfFileUpload/RhfFileUpload.tsx:207-223 | an empty selection does nothing; a refused batch changes nothing; an admitted batch is appended as new entries, the form value and the report are set from the extended list, and the entries are then marked with the upload outcomes |
| FileUpload.Uploader.RemoveFile | src/components/RhfFileUpload/RhfFileUpload.tsx:253-273 | the entries with that id are dropped, and the rest is stored and reported |
| FileUpload.AddThenRemove | src/components/RhfFileUpload/RhfFileUpload.tsx:153-158 | without uploads, adding a file under an unused id and removing that id restores the list |
| SimpleFile.Refusal | src/components/RhfSimpleFile/RhfSimpleFile.tsx:96-121 | no file is never refused; the built-in rules come first; a custom refusal carries the validator's message; the file passes only when rules and validator both pass |
| SimpleFile.Picker.constructor | src/components/RhfSimpleFile/RhfSimpleFile.tsx:43-46 | the field starts with the given value and nothing reported |
| SimpleFile.Picker.HandleFileSelect | src/components/RhfSimpleFile/RhfSimpleFile.tsx:96-135 | a refused file changes nothing; otherwise the first file, or null, is stored and reported |
| SimpleFile.Picker.HandleRemoveFile | src/components/RhfSimpleFile/RhfSimpleFile.tsx:145-150 | removal stores and reports null |
| SimpleFile.RulesBeforeCustom | src/components/RhfSimpleFile/RhfSimpleFile.tsx:100-120 | a file the rules refuse is refused for that reason whatever the validator says |
| SimpleFile.CustomVerdicts | src/components/RhfSimpleFile/RhfSimpleFile.tsx:109-120 | any string, even empty, refuses; `false` refuses with a fixed text; `true` or no validator admits |
| SimpleFile.EmptySelectionClears | src/components/RhfSimpleFile/RhfSimpleFile.tsx:98-127 | selecting nothing stores and reports null without any check |

## Left out

- Floating point. An amount is modelled as whole cents (`Money.Amount`).
  `Number(...).toFixed(2)` rounding of binary fractions is not modelled.
  Neither is exponential notation for amounts of 1e21 and above, nor the
  final `/ 100` in `handleChange`. `Money.InputCents` returns the cents it
  would divide.
- Color.ToHsl: computes with exact rationals, not IEEE doubles. The last
  digit of a rounded hue can differ from JavaScript on inputs where double
  rounding lands on .5.
- The alpha slider's number: it is carried as the text JavaScript prints for
  it (`Picker.alpha`, default "1"). Rounding of the slider step is outside
  the model.
- `formatFileSize`: it uses floating-point logarithms. Its text is a
  parameter of `FileRules.ErrorText`.
- `accept` patterns: only the first "*" becomes ".*", as `String.replace`
  does. "." in an entry matches any character but a line terminator. Other
  regular-expression metacharacters in an entry are taken literally, and an
  entry that makes an invalid regex (which would throw) is not modelled.
- Text.ToLower: covers ASCII letters only.
- Text.IsSpace: covers the usual white-space characters, not every Unicode
  space separator.
- `NaN` values stored in a button group: they are modelled with ordinary
  equality.
- Button groups: values may be any JavaScript value and are modelled as a
  generic type with equality.
- Asynchronous uploads.
  - `onUpload` outcomes are applied one after another in batch order
    (`RunUploads`). Interleavings with removals during an upload are not
    modelled.
  - Progress values between 0 and 100 are not modelled.
  - Errors thrown by `onFilesChange` or `onChange` are not modelled.
- Foreign effects:
  - `generateFileId` (time and randomness) gives ids passed in as `ids`;
  - object URLs for previews are only a `hasPreview` flag, and revoking
    them on removal is not modelled;
  - `console.error` of a refusal becomes the method's result;
  - resetting the DOM input's value is left out.
- Preset grouping: JavaScript orders integer-like object keys numerically
  before other keys. `GroupOrder` keeps first-appearance order, which is
  the same for every non-numeric group name.
- An undefined colour value: the picker holds it as "", which every format
  passes through unchanged, as `undefined` is.
- ColorPicker.DefaultPresets: that every default preset is a valid hex colour is
  not proved.
- Rendering, styling, sizes, drag-over highlighting and react-hook-form
  registration (`useController`) are not part of this model. Neither are
  the components with no logic of their own (text field, switch, slider,
  rating, date pickers, radio group, single checkbox).
- The text the money field shows for an undefined value: the code shows
  "0,00", because `String(undefined)` becomes `NaN` and has no digits.
  The model follows the code (`Money.UndefinedShowsZero`).
- FileUpload.Uploader.ProcessFiles: the form value is set before the
  uploads run, so it holds the unmarked entries. This is what the source
  does, and the model keeps it.
- ColorPicker.GroupPresets: `groups` is a plain object literal, so a group
  named after an inherited property of `Object.prototype` ("constructor",
  "toString", "valueOf", "hasOwnProperty", "__proto__" and the like) finds
  a truthy value, skips creating its list and then throws a `TypeError` on
  `push`, and the field fails to render. The model treats such a name as an
  ordinary group, so `GroupPresets`, `GroupOrder`, `Bucket` and
  `BucketsPartition` hold only for palettes without those group names.
- Money.Group: the thousand separator is inserted literally. `String.replace`
  expands `$` patterns in its replacement (`$$`, `$&`, `` $` ``, `$'`,
  `$1`), so a separator containing one of them is shown differently.
- Money.RoundTrip: like `Money.KeystrokeShifts`, `Money.BackspaceShifts`
  and `Money.DisplayEndsInDigit`, it is proved for the literal insertion
  of `Money.Group`. It says nothing about a thousand separator containing
  a `$` pattern.
