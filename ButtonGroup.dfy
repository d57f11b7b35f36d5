/** The button group's click and selection rules. In exclusive mode the form
    value is one option value or undefined; otherwise it is a list of option
    values, and anything that is not a list counts as the empty list. */
module ButtonGroup {
  import opened Lists

  /** A form value as the button group meets it. */
  datatype FieldValue<T> = Undefined | Scalar(v: T) | List(items: seq<T>)

  /** `Array.isArray(value) ? value : []`. */
  function CurrentValues<T>(value: FieldValue<T>): seq<T>
  {
    if value.List? then value.items else []
  }

  /** `isSelected`: strict equality in exclusive mode, membership of a list
      otherwise (never for a value that is not a list). */
  function IsSelected<T(==)>(exclusive: bool, value: FieldValue<T>, x: T): (b: bool)
    ensures exclusive ==> (b <==> value == Scalar(x))
    ensures !exclusive ==> (b <==> value.List? && x in value.items)
  {
    if exclusive then value.Scalar? && value.v == x
    else value.List? && x in value.items
  }

  /** `handleButtonClick`: the value handed to `onChange`. */
  function Click<T(==)>(exclusive: bool, value: FieldValue<T>, x: T): (r: FieldValue<T>)
    ensures exclusive ==> (r == Undefined <==> value == Scalar(x)) && (r != Undefined ==> r == Scalar(x))
    ensures !exclusive ==> r.List? && |r.items| <= |CurrentValues(value)| + 1
  {
    if exclusive then
      if value.Scalar? && value.v == x then Undefined else Scalar(x)
    else
      var current := CurrentValues(value);
      if x in current then List(RemoveAll(current, x)) else List(current + [x])
  }

  /** Non-exclusive: clicking a selected value drops every occurrence of it;
      the other values keep their number and order. */
  lemma ClickSelectedRemoves<T>(items: seq<T>, x: T)
    requires x in items
    ensures var r := Click(false, List(items), x).items;
      x !in r && multiset(r) == multiset(items)[x := 0]
      && forall a, b :: items == a + b ==> r == RemoveAll(a, x) + RemoveAll(b, x)
  {
    RemoveAllCounts(items, x);
    forall a, b | items == a + b ensures RemoveAll(items, x) == RemoveAll(a, x) + RemoveAll(b, x) {
      RemoveAllSplits(a, b, x);
    }
  }

  /** Non-exclusive: clicking an unselected value appends it at the end. */
  lemma ClickAbsentAppends<T>(value: FieldValue<T>, x: T)
    requires !IsSelected(false, value, x)
    ensures Click(false, value, x) == List(CurrentValues(value) + [x])
  {
  }

  /** Non-exclusive: a value that is not a list behaves as the empty list. */
  lemma NonListIsEmpty<T>(value: FieldValue<T>, x: T)
    requires !value.List?
    ensures Click(false, value, x) == List([x])
    ensures !IsSelected(false, value, x)
  {
  }

  /** In both modes a click flips whether the clicked option is selected. */
  lemma ClickFlipsSelection<T>(exclusive: bool, value: FieldValue<T>, x: T)
    ensures IsSelected(exclusive, Click(exclusive, value, x), x) == !IsSelected(exclusive, value, x)
  {
  }

  /** A click changes the selection of no other option, except that in
      exclusive mode selecting `x` deselects the option held before. */
  lemma ClickKeepsOthers<T>(value: FieldValue<T>, x: T, y: T)
    requires y != x
    ensures IsSelected(false, Click(false, value, x), y) == IsSelected(false, value, y)
    ensures IsSelected(true, Click(true, value, x), y) == false
  {
    var current := CurrentValues(value);
    if x in current {
      RemoveAllMembership(current, x, y);
    }
  }

  /** Non-exclusive: clicking the same unselected value twice gives the list
      back; exclusive: clicking twice from any other state leaves nothing
      selected. */
  lemma DoubleClick<T>(items: seq<T>, x: T, value: FieldValue<T>)
    requires x !in items
    requires value != Scalar(x)
    ensures Click(false, Click(false, List(items), x), x) == List(items)
    ensures Click(true, Click(true, value, x), x) == Undefined
  {
    AppendThenRemove(items, x);
  }
}
