/** The checkbox group: a list of option values, one checkbox per option.
    The handler spreads or filters the current value without checking that
    it is a list, so an undefined value makes it throw. */
module CheckboxGroup {
  import opened Text
  import opened Lists

  /** `value?.includes(option.value)`: unchecked when the value is undefined. */
  function Checked(value: Option<seq<string>>, x: string): (b: bool)
    ensures b <==> value.Some? && x in value.value
  {
    match value
    case None => false
    case Some(items) => x in items
  }

  /** The checkbox `onChange`: the list handed to `onChange`, or `None` when
      the handler throws because the value is undefined. */
  function OnChange(value: Option<seq<string>>, checked: bool, x: string): (r: Option<seq<string>>)
    ensures r.Some? <==> value.Some?
    ensures r.Some? && checked ==> |r.value| == |value.value| + 1 && r.value[|value.value|] == x
    ensures r.Some? && !checked ==> x !in r.value && |r.value| <= |value.value|
  {
    match value
    case None => None
    case Some(items) => if checked then Some(items + [x]) else Some(RemoveAll(items, x))
  }

  /** Checking appends even a value already present: no deduplication, and
      the earlier entries are untouched. */
  lemma CheckAppends(items: seq<string>, x: string)
    ensures OnChange(Some(items), true, x) == Some(items + [x])
    ensures x in items ==> multiset(OnChange(Some(items), true, x).value)[x] == multiset(items)[x] + 1
  {
  }

  /** Unchecking removes every entry equal to the value and keeps the count
      and the order of the others. */
  lemma UncheckRemovesAll(items: seq<string>, x: string)
    ensures var r := OnChange(Some(items), false, x).value;
      multiset(r) == multiset(items)[x := 0]
      && forall a, b :: items == a + b ==> r == RemoveAll(a, x) + RemoveAll(b, x)
  {
    RemoveAllCounts(items, x);
    forall a, b | items == a + b ensures RemoveAll(items, x) == RemoveAll(a, x) + RemoveAll(b, x) {
      RemoveAllSplits(a, b, x);
    }
  }

  /** After the handler, the checkbox shows the state it was toggled to. */
  lemma CheckedFollowsToggle(items: seq<string>, checked: bool, x: string)
    ensures Checked(OnChange(Some(items), checked, x), x) == checked
  {
  }

  /** Checking and then unchecking an absent value gives the list back. */
  lemma CheckThenUncheck(items: seq<string>, x: string)
    requires x !in items
    ensures OnChange(OnChange(Some(items), true, x), false, x) == Some(items)
  {
    AppendThenRemove(items, x);
  }

  /** Toggling one checkbox leaves every other checkbox as it was. */
  lemma OthersUnchanged(items: seq<string>, checked: bool, x: string, y: string)
    requires y != x
    ensures Checked(OnChange(Some(items), checked, x), y) == Checked(Some(items), y)
  {
    if !checked {
      RemoveAllMembership(items, x, y);
    }
  }
}
