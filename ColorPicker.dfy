/** The colour picker's own state: the committed form value, the text in the
    input, whether the input has focus, whether the popover is open and the
    alpha. Each handler is a method that changes that state; the preset
    palette is grouped by a loop. */
module ColorPicker {
  import opened Text
  import opened Color

  datatype Preset = Preset(caption: string, value: string, group: Option<string>)

  /** The palette shipped with the picker, in its order. */
  function DefaultPresets(): seq<Preset>
  {
    [ Preset("Red", "#f44336", Some("Primary")),
      Preset("Pink", "#e91e63", Some("Primary")),
      Preset("Purple", "#9c27b0", Some("Primary")),
      Preset("Deep Purple", "#673ab7", Some("Primary")),
      Preset("Indigo", "#3f51b5", Some("Primary")),
      Preset("Blue", "#2196f3", Some("Primary")),
      Preset("Light Blue", "#03a9f4", Some("Primary")),
      Preset("Cyan", "#00bcd4", Some("Primary")),
      Preset("Teal", "#009688", Some("Secondary")),
      Preset("Green", "#4caf50", Some("Secondary")),
      Preset("Light Green", "#8bc34a", Some("Secondary")),
      Preset("Lime", "#cddc39", Some("Secondary")),
      Preset("Yellow", "#ffeb3b", Some("Secondary")),
      Preset("Amber", "#ffc107", Some("Secondary")),
      Preset("Orange", "#ff9800", Some("Secondary")),
      Preset("Deep Orange", "#ff5722", Some("Secondary")),
      Preset("Black", "#000000", Some("Neutral")),
      Preset("White", "#ffffff", Some("Neutral")),
      Preset("Gray", "#9e9e9e", Some("Neutral")),
      Preset("Blue Gray", "#607d8b", Some("Neutral")) ]
  }

  // ------------------------------------------------------------ grouping

  /** `preset.group || "Colors"`: a missing or empty group is "Colors". */
  function GroupKey(p: Preset): (k: string)
    ensures k != []
    ensures p.group.Some? && p.group.value != [] ==> k == p.group.value
  {
    match p.group
    case Some(g) => if g == [] then "Colors" else g
    case None => "Colors"
  }

  /** The presets of group `key`, in palette order. */
  function Bucket(presets: seq<Preset>, key: string): (b: seq<Preset>)
    ensures |b| <= |presets|
    ensures forall p :: p in b ==> p in presets && GroupKey(p) == key
  {
    if presets == [] then []
    else
      var last := presets[|presets| - 1];
      Bucket(presets[..|presets| - 1], key) + (if GroupKey(last) == key then [last] else [])
  }

  /** The groups in the order their first preset appears. */
  function GroupOrder(presets: seq<Preset>): (keys: seq<string>)
    ensures forall k :: k in keys <==> exists p :: p in presets && GroupKey(p) == k
  {
    if presets == [] then []
    else
      var init := presets[..|presets| - 1];
      var last := presets[|presets| - 1];
      var keys := GroupOrder(init);
      assert forall p :: p in presets <==> p in init || p == last;
      if GroupKey(last) in keys then keys else keys + [GroupKey(last)]
  }

  predicate NoDuplicates(keys: seq<string>)
  {
    forall i, j :: 0 <= i < j < |keys| ==> keys[i] != keys[j]
  }

  lemma {:induction false} GroupOrderDistinct(presets: seq<Preset>)
    ensures NoDuplicates(GroupOrder(presets))
  {
    if presets != [] {
      GroupOrderDistinct(presets[..|presets| - 1]);
    }
  }

  /** Every preset lands in the bucket of its own group, and only there. */
  lemma {:induction false} BucketMembership(presets: seq<Preset>, p: Preset, key: string)
    ensures p in Bucket(presets, key) <==> p in presets && GroupKey(p) == key
  {
    if presets != [] {
      var init := presets[..|presets| - 1];
      BucketMembership(init, p, key);
      assert presets == init + [presets[|presets| - 1]];
    }
  }

  /** The buckets together hold every preset exactly once: their sizes add up
      to the palette's. */
  lemma {:induction false} BucketsPartition(presets: seq<Preset>)
    ensures SizeOfBuckets(presets, GroupOrder(presets)) == |presets|
  {
    if presets != [] {
      var init := presets[..|presets| - 1];
      var last := presets[|presets| - 1];
      var k := GroupKey(last);
      assert presets == init + [last];
      BucketsPartition(init);
      GroupOrderDistinct(init);
      var keys := GroupOrder(init);
      SizeAfterAppend(init, last, keys);
      if k in keys {
        assert GroupOrder(presets) == keys;
      } else {
        assert GroupOrder(presets) == keys + [k];
        SizeOfBucketsAppend(presets, keys, k);
        NewGroupIsEmpty(init, k);
        assert Bucket(presets, k) == Bucket(init, k) + [last];
      }
    }
  }

  /** A group not yet in the order has no presets so far. */
  lemma NewGroupIsEmpty(presets: seq<Preset>, key: string)
    requires key !in GroupOrder(presets)
    ensures Bucket(presets, key) == []
  {
  }

  function SizeOfBuckets(presets: seq<Preset>, keys: seq<string>): nat
  {
    if keys == [] then 0
    else SizeOfBuckets(presets, keys[..|keys| - 1]) + |Bucket(presets, keys[|keys| - 1])|
  }

  lemma {:induction false} SizeOfBucketsAppend(presets: seq<Preset>, keys: seq<string>, k: string)
    ensures SizeOfBuckets(presets, keys + [k]) == SizeOfBuckets(presets, keys) + |Bucket(presets, k)|
  {
    assert (keys + [k])[..|keys|] == keys;
  }

  /** Adding one preset adds one to the bucket of its group among `keys`, when
      that group is there, and leaves the other buckets alone. */
  lemma {:induction false} SizeAfterAppend(init: seq<Preset>, last: Preset, keys: seq<string>)
    requires NoDuplicates(keys)
    ensures SizeOfBuckets(init + [last], keys)
      == SizeOfBuckets(init, keys) + (if GroupKey(last) in keys then 1 else 0)
  {
    var ps := init + [last];
    assert ps[..|ps| - 1] == init;
    if keys != [] {
      var ks := keys[..|keys| - 1];
      assert NoDuplicates(ks);
      SizeAfterAppend(init, last, ks);
      assert GroupKey(last) in keys <==> GroupKey(last) in ks || GroupKey(last) == keys[|keys| - 1];
      assert GroupKey(last) == keys[|keys| - 1] ==> GroupKey(last) !in ks;
    }
  }

  /** One more preset: its group joins the order if it is new, and the
      preset joins the end of its group's bucket. */
  lemma GroupStep(prefix: seq<Preset>, p: Preset)
    ensures GroupOrder(prefix + [p]) ==
      if GroupKey(p) in GroupOrder(prefix) then GroupOrder(prefix) else GroupOrder(prefix) + [GroupKey(p)]
    ensures forall k :: Bucket(prefix + [p], k) == Bucket(prefix, k) + (if GroupKey(p) == k then [p] else [])
  {
    assert (prefix + [p])[..|prefix|] == prefix;
  }

  /** `groups` and `order` are what grouping `prefix` gives. */
  ghost predicate Grouped(prefix: seq<Preset>, groups: map<string, seq<Preset>>, order: seq<string>)
  {
    && order == GroupOrder(prefix)
    && groups.Keys == (set k | k in order)
    && forall k :: k in groups ==> groups[k] == Bucket(prefix, k)
  }

  /** One step of the loop below keeps the grouping up to date: a preset of
      a group not seen yet opens that group ... */
  lemma NewGroupStep(prefix: seq<Preset>, p: Preset, groups: map<string, seq<Preset>>, order: seq<string>)
    requires Grouped(prefix, groups, order) && GroupKey(p) !in groups
    ensures Grouped(prefix + [p], groups[GroupKey(p) := [p]], order + [GroupKey(p)])
  {
    GroupStep(prefix, p);
    NewGroupIsEmpty(prefix, GroupKey(p));
  }

  /** ... and one of a group already seen is pushed onto its list. */
  lemma SeenGroupStep(prefix: seq<Preset>, p: Preset, groups: map<string, seq<Preset>>, order: seq<string>)
    requires Grouped(prefix, groups, order) && GroupKey(p) in groups
    ensures Grouped(prefix + [p], groups[GroupKey(p) := groups[GroupKey(p)] + [p]], order)
  {
    GroupStep(prefix, p);
  }

  /** Extending a prefix of `s` by one element. */
  lemma TakeOneMore<T>(s: seq<T>, i: nat)
    requires i < |s|
    ensures s[..i + 1] == s[..i] + [s[i]]
  {
  }

  /** `groupedPresets`: walks the palette once, creating a group's list the
      first time the group is seen and pushing each preset onto its list. */
  method GroupPresets(presets: seq<Preset>) returns (groups: map<string, seq<Preset>>, order: seq<string>)
    ensures order == GroupOrder(presets)
    ensures groups.Keys == set k | k in order
    ensures forall k :: k in groups ==> groups[k] == Bucket(presets, k)
  {
    groups := map[];
    order := [];
    var i := 0;
    while i < |presets|
      invariant 0 <= i <= |presets|
      invariant Grouped(presets[..i], groups, order)
    {
      var p := presets[i];
      var key := GroupKey(p);
      TakeOneMore(presets, i);
      if key !in groups {
        NewGroupStep(presets[..i], p, groups, order);
        groups := groups[key := [p]];
        order := order + [key];
      } else {
        SeenGroupStep(presets[..i], p, groups, order);
        groups := groups[key := groups[key] + [p]];
      }
      i := i + 1;
    }
    assert presets[..i] == presets;
  }

  /** The shipped palette falls into three groups of eight, eight and four. */
  lemma DefaultGroups()
    ensures GroupOrder(DefaultPresets()) == ["Primary", "Secondary", "Neutral"]
  {
    DefaultKeys();
    ThreeRuns(DefaultPresets());
  }

  /** Eight "Primary", eight "Secondary" and four "Neutral" presets, in runs. */
  lemma ThreeRuns(ps: seq<Preset>)
    requires |ps| == 20
    requires forall k :: 0 <= k < 8 ==> GroupKey(ps[k]) == "Primary"
    requires forall k :: 8 <= k < 16 ==> GroupKey(ps[k]) == "Secondary"
    requires forall k :: 16 <= k < 20 ==> GroupKey(ps[k]) == "Neutral"
    ensures GroupOrder(ps) == ["Primary", "Secondary", "Neutral"]
  {
    assert GroupOrder(ps[..8]) == ["Primary"] by {
      assert ps[..0] == [];
      NextRun(ps, 0, 8, [], "Primary");
    }
    LaterRuns(ps);
  }

  lemma LaterRuns(ps: seq<Preset>)
    requires |ps| == 20 && GroupOrder(ps[..8]) == ["Primary"]
    requires forall k :: 8 <= k < 16 ==> GroupKey(ps[k]) == "Secondary"
    requires forall k :: 16 <= k < 20 ==> GroupKey(ps[k]) == "Neutral"
    ensures GroupOrder(ps) == ["Primary", "Secondary", "Neutral"]
  {
    SecondRun(ps);
    LastRun(ps, ["Primary", "Secondary"]);
  }

  lemma SecondRun(ps: seq<Preset>)
    requires |ps| == 20 && GroupOrder(ps[..8]) == ["Primary"]
    requires forall k :: 8 <= k < 16 ==> GroupKey(ps[k]) == "Secondary"
    ensures GroupOrder(ps[..16]) == ["Primary", "Secondary"]
  {
    NextRun(ps, 8, 16, ["Primary"], "Secondary");
  }

  lemma LastRun(ps: seq<Preset>, two: seq<string>)
    requires |ps| == 20 && GroupOrder(ps[..16]) == two && "Neutral" !in two
    requires forall k :: 16 <= k < 20 ==> GroupKey(ps[k]) == "Neutral"
    ensures GroupOrder(ps) == two + ["Neutral"]
  {
    assert ps[..20] == ps;
    NextRun(ps, 16, 20, two, "Neutral");
  }

  /** A run of presets of one new group adds that group to the order. */
  lemma NextRun(ps: seq<Preset>, i: nat, j: nat, keys: seq<string>, key: string)
    requires i < j <= |ps|
    requires GroupOrder(ps[..i]) == keys && key !in keys
    requires forall k :: i <= k < j ==> GroupKey(ps[k]) == key
    ensures GroupOrder(ps[..j]) == keys + [key]
  {
    OrderAdds(ps, i, keys);
    OrderKeeps(ps, i + 1, j, keys + [key]);
  }

  lemma DefaultKeys()
    ensures |DefaultPresets()| == 20
    ensures forall k :: 0 <= k < 8 ==> GroupKey(DefaultPresets()[k]) == "Primary"
    ensures forall k :: 8 <= k < 16 ==> GroupKey(DefaultPresets()[k]) == "Secondary"
    ensures forall k :: 16 <= k < 20 ==> GroupKey(DefaultPresets()[k]) == "Neutral"
  {
  }

  lemma OrderAdds(ps: seq<Preset>, i: nat, keys: seq<string>)
    requires i < |ps|
    requires GroupOrder(ps[..i]) == keys && GroupKey(ps[i]) !in keys
    ensures GroupOrder(ps[..i + 1]) == keys + [GroupKey(ps[i])]
  {
    assert ps[..i + 1][..i] == ps[..i];
  }

  lemma {:induction false} OrderKeeps(ps: seq<Preset>, i: nat, j: nat, keys: seq<string>)
    requires i <= j <= |ps|
    requires GroupOrder(ps[..i]) == keys
    requires forall k :: i <= k < j ==> GroupKey(ps[k]) in keys
    ensures GroupOrder(ps[..j]) == keys
    decreases j - i
  {
    if i < j {
      assert ps[..i + 1][..i] == ps[..i];
      OrderKeeps(ps, i + 1, j, keys);
    }
  }

  // ------------------------------------------------------------ the field

  class Picker {
    const format: ColorFormat
    const showAlpha: bool
    const disabled: bool
    /** The committed form value; an undefined value is held as "". */
    var value: string
    var inputValue: string
    var isInputFocused: bool
    var isOpen: bool
    /** The alpha as JavaScript prints the slider's number. */
    var alpha: string
    /** Every value handed to `onChange`, oldest first. */
    var committed: seq<string>

    constructor (format: ColorFormat, showAlpha: bool, disabled: bool, value: string)
      ensures this.format == format && this.showAlpha == showAlpha && this.disabled == disabled
      ensures this.value == value && inputValue == "" && !isInputFocused && !isOpen
      ensures alpha == "1" && committed == []
    {
      this.format := format;
      this.showAlpha := showAlpha;
      this.disabled := disabled;
      this.value := value;
      inputValue := "";
      isInputFocused := false;
      isOpen := false;
      alpha := "1";
      committed := [];
    }

    /** The alpha passed to a conversion: only when alpha is shown. */
    function AlphaArg(): (a: Option<string>)
      reads this
      ensures a.Some? <==> showAlpha
      ensures a.Some? ==> a.value == alpha
    {
      if showAlpha then Some(alpha) else None
    }

    /** What the text field shows: the typed text while focused and not
        empty, otherwise the committed value in the chosen format. */
    function DisplayValue(): (shown: string)
      reads this
      ensures !isInputFocused || inputValue == [] ==> shown == ConvertColor(value, format, AlphaArg())
      ensures isInputFocused && inputValue != [] ==> shown == inputValue
    {
      if isInputFocused && inputValue != "" then inputValue
      else ConvertColor(value, format, AlphaArg())
    }

    method Commit(color: string)
      modifies this
      ensures value == color && committed == old(committed) + [color]
      ensures inputValue == old(inputValue) && isInputFocused == old(isInputFocused)
      ensures isOpen == old(isOpen) && alpha == old(alpha)
    {
      value := color;
      committed := committed + [color];
    }

    /** `handleColorSelect`: commits the colour in the chosen format and
        closes the popover. */
    method ColorSelect(color: string)
      modifies this
      ensures value == ConvertColor(color, format, AlphaArg())
      ensures committed == old(committed) + [value]
      ensures !isOpen
      ensures inputValue == old(inputValue) && isInputFocused == old(isInputFocused) && alpha == old(alpha)
    {
      Commit(ConvertColor(color, format, AlphaArg()));
      isOpen := false;
    }

    /** `handleInputChange`: the text always becomes the input's text; it is
        committed, converted, only when it is a valid hex colour or empty. */
    method InputChange(text: string)
      modifies this
      ensures inputValue == text
      ensures IsValidHexColor(text) || text == "" ==>
        value == ConvertColor(text, format, AlphaArg()) && committed == old(committed) + [value]
      ensures !(IsValidHexColor(text) || text == "") ==>
        value == old(value) && committed == old(committed)
      ensures isInputFocused == old(isInputFocused) && isOpen == old(isOpen) && alpha == old(alpha)
    {
      inputValue := text;
      if IsValidHexColor(text) || text == "" {
        Commit(ConvertColor(text, format, AlphaArg()));
      }
    }

    /** `handleInputFocus`: the input starts from the committed value. */
    method InputFocus()
      modifies this
      ensures isInputFocused && inputValue == value
      ensures value == old(value) && committed == old(committed)
      ensures isOpen == old(isOpen) && alpha == old(alpha)
    {
      isInputFocused := true;
      inputValue := value;
    }

    /** `handleInputBlur`: text that is neither valid hex nor empty is
        replaced by the committed value; afterwards the input holds valid
        hex, nothing, or the committed value. */
    method InputBlur()
      modifies this
      ensures !isInputFocused
      ensures IsValidHexColor(old(inputValue)) || old(inputValue) == "" ==> inputValue == old(inputValue)
      ensures !(IsValidHexColor(old(inputValue)) || old(inputValue) == "") ==> inputValue == value
      ensures IsValidHexColor(inputValue) || inputValue == "" || inputValue == value
      ensures value == old(value) && committed == old(committed)
      ensures isOpen == old(isOpen) && alpha == old(alpha)
    {
      isInputFocused := false;
      if !IsValidHexColor(inputValue) && inputValue != "" {
        inputValue := value;
      }
    }

    /** `handleOpenPicker` and its keyboard twin: nothing happens when the
        field is disabled. */
    method OpenPicker()
      modifies this
      ensures disabled ==> isOpen == old(isOpen) && inputValue == old(inputValue)
      ensures !disabled ==> isOpen && inputValue == value
      ensures value == old(value) && committed == old(committed)
      ensures isInputFocused == old(isInputFocused) && alpha == old(alpha)
    {
      if !disabled {
        isOpen := true;
        inputValue := value;
      }
    }

    /** `handleClosePicker`: closes and empties the input. */
    method ClosePicker()
      modifies this
      ensures !isOpen && inputValue == ""
      ensures value == old(value) && committed == old(committed)
      ensures isInputFocused == old(isInputFocused) && alpha == old(alpha)
    {
      isOpen := false;
      inputValue := "";
    }

    /** `handleClear`: commits "" (which every format leaves as it is). */
    method Clear()
      modifies this
      ensures value == "" && committed == old(committed) + [""] && inputValue == ""
      ensures isOpen == old(isOpen) && isInputFocused == old(isInputFocused) && alpha == old(alpha)
    {
      Commit("");
      inputValue := "";
    }

    /** The popover's own text field: typing only changes the input. */
    method PopoverType(text: string)
      modifies this
      ensures inputValue == text
      ensures value == old(value) && committed == old(committed)
      ensures isOpen == old(isOpen) && isInputFocused == old(isInputFocused) && alpha == old(alpha)
    {
      inputValue := text;
    }

    /** Enter in the popover's text field selects the typed colour only when
        it is valid hex. */
    method PopoverEnter()
      modifies this
      ensures IsValidHexColor(old(inputValue)) ==>
        value == ConvertColor(old(inputValue), format, AlphaArg())
        && committed == old(committed) + [value] && !isOpen
      ensures !IsValidHexColor(old(inputValue)) ==>
        value == old(value) && committed == old(committed) && isOpen == old(isOpen)
      ensures inputValue == old(inputValue) && isInputFocused == old(isInputFocused) && alpha == old(alpha)
    {
      if IsValidHexColor(inputValue) {
        ColorSelect(inputValue);
      }
    }

    /** The opacity slider. */
    method SetAlpha(a: string)
      modifies this
      ensures alpha == a
      ensures value == old(value) && committed == old(committed) && inputValue == old(inputValue)
      ensures isOpen == old(isOpen) && isInputFocused == old(isInputFocused)
    {
      alpha := a;
    }
  }

  /** Typing text that is neither valid hex nor empty commits nothing; blurring
      then puts the committed value back in the input, so the display shows the
      committed colour again. */
  method RejectedTextReverts(p: Picker, text: string)
    requires !IsValidHexColor(text) && text != ""
    modifies p
    ensures p.value == old(p.value) && p.committed == old(p.committed)
    ensures p.inputValue == p.value && !p.isInputFocused
    ensures p.DisplayValue() == ConvertColor(p.value, p.format, p.AlphaArg())
  {
    p.InputChange(text);
    p.InputBlur();
  }

  /** In hex format, typing a valid colour commits exactly that text. */
  method TypedHexIsCommitted(p: Picker, text: string)
    requires p.format == Hex && IsValidHexColor(text)
    modifies p
    ensures p.value == text && p.committed == old(p.committed) + [text]
  {
    p.InputChange(text);
  }
}
