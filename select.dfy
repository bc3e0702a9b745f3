/** The drop-down of src/components/ui/Select.tsx in single and multiple
    mode. The component's props are constant fields, its state (open or
    closed, the selected values) mutable fields; each `onChange` call is
    the value a click method returns. */
module Select {
  import opened Js

  datatype SelectOption = SelectOption(value: string, caption: string, disabled: bool)

  const DefaultPlaceholder: string := "選択してください"

  /** The selection the component starts with: a comma-separated list in
      multiple mode, the single value otherwise; nothing for an absent or
      empty value. */
  function InitialSelection(value: Option<string>, multiple: bool): (r: seq<string>)
    ensures value.None? || value.value == "" ==> r == []
    ensures value.Some? && value.value != "" && !multiple ==> r == [value.value]
    ensures value.Some? && value.value != "" && multiple ==>
      |r| >= 1 && Join(r, ',') == value.value && forall i | 0 <= i < |r| :: ',' !in r[i]
  {
    if value.None? || value.value == "" then []
    else if multiple then
      JoinSplit(value.value, ',');
      Split(value.value, ',')
    else [value.value]
  }

  function IsNot(v: string): string -> bool { (w: string) => w != v }

  /** A multiple-mode click: a selected value is removed (every copy of
      it), any other value is appended. */
  function Toggled(selected: seq<string>, v: string): (r: seq<string>)
    ensures v in selected ==> v !in r && forall w | w in selected && w != v :: w in r
    ensures v in selected ==> IsSubsequence(r, selected)
    ensures v in selected ==> multiset(r) == multiset(selected)[v := 0]
    ensures v !in selected ==> r == selected + [v]
  {
    if v in selected then
      FilterIsSubsequence(selected, IsNot(v));
      FilterDropsValue(selected, v);
      Filter(selected, IsNot(v))
    else selected + [v]
  }

  /** Filtering out `v` removes every copy of `v` and keeps every copy of
      every other value. */
  lemma {:induction false} FilterDropsValue(s: seq<string>, v: string)
    ensures multiset(Filter(s, IsNot(v))) == multiset(s)[v := 0]
  {
    if s != [] {
      FilterDropsValue(s[1..], v);
      assert s == [s[0]] + s[1..];
    }
  }

  lemma FilterSnocDropped(s: seq<string>, v: string)
    requires v !in s
    ensures Filter(s + [v], IsNot(v)) == s
  {
    FilterSnoc(s, v, IsNot(v));
    FilterAll(s, IsNot(v));
  }

  /** Clicking an unselected value twice restores the selection; clicking
      a selected value twice leaves it selected once, at the end. */
  lemma {:induction false} ToggleTwice(selected: seq<string>, v: string)
    ensures v !in selected ==> Toggled(Toggled(selected, v), v) == selected
    ensures v in selected ==> Toggled(Toggled(selected, v), v) == Filter(selected, IsNot(v)) + [v]
  {
    if v !in selected {
      FilterSnocDropped(selected, v);
    }
  }

  /** The value handed to `onChange` in multiple mode, read back by a
      fresh component, gives the same selection when no value contains a
      comma and the selection is not the one empty value. */
  lemma {:induction false} ChangeRoundTrip(selected: seq<string>)
    requires forall i | 0 <= i < |selected| :: ',' !in selected[i]
    requires selected != [""]
    ensures InitialSelection(Some(Join(selected, ',')), true) == selected
  {
    if selected != [] {
      SplitJoin(selected, ',');
    }
  }

  function HasValue(v: string): SelectOption -> bool { (o: SelectOption) => o.value == v }

  /** `option?.label || value`: the label (`caption`) of the first option with the
      value, or the raw value when there is none or its label is empty. */
  function LabelOrValue(options: seq<SelectOption>, v: string): (r: string)
    ensures r == v || exists o | o in options :: o.value == v && o.caption == r && r != ""
    ensures (forall o | o in options :: o.value != v) ==> r == v
    ensures forall i | 0 <= i < |options| && options[i].value == v && (forall j | 0 <= j < i :: options[j].value != v) ::
      r == if options[i].caption != "" then options[i].caption else v
  {
    var option := Find(options, HasValue(v));
    if option.Some? && option.value.caption != "" then option.value.caption else v
  }

  /** `getDisplayValue`. */
  function DisplayValue(options: seq<SelectOption>, selected: seq<string>, multiple: bool, placeholder: string): (r: string)
    ensures selected == [] ==> r == placeholder
    ensures |selected| == 1 ==> r == LabelOrValue(options, selected[0])
    ensures !multiple && selected != [] ==> r == LabelOrValue(options, selected[0])
    ensures multiple && |selected| >= 2 ==> r == NatToString(|selected|) + "件選択中"
  {
    if selected == [] then placeholder
    else if multiple && |selected| != 1 then NatToString(|selected|) + "件選択中"
    else LabelOrValue(options, selected[0])
  }

  class SelectBox {
    const options: seq<SelectOption>
    const multiple: bool
    const placeholder: string
    const disabled: bool
    var isOpen: bool
    var selectedValues: seq<string>

    constructor (options: seq<SelectOption>, value: Option<string>, multiple: bool, placeholder: string, disabled: bool)
      ensures this.options == options && this.multiple == multiple
      ensures this.placeholder == placeholder && this.disabled == disabled
      ensures !isOpen && selectedValues == InitialSelection(value, multiple)
    {
      this.options := options;
      this.multiple := multiple;
      this.placeholder := placeholder;
      this.disabled := disabled;
      isOpen := false;
      selectedValues := InitialSelection(value, multiple);
    }

    function Display(): string
      reads this
    {
      DisplayValue(options, selectedValues, multiple, placeholder)
    }

    /** The button toggles the list unless the whole control is disabled. */
    method ToggleOpen()
      modifies this
      ensures isOpen == if disabled then old(isOpen) else !old(isOpen)
      ensures selectedValues == old(selectedValues)
    {
      if !disabled {
        isOpen := !isOpen;
      }
    }

    /** A click on an option of the open list (`!option.disabled &&
        handleOptionClick(option.value)`): a disabled option changes
        nothing and reports nothing; otherwise the new selection is
        reported to `onChange`, joined with commas in multiple mode, and
        single mode closes the list. */
    method ClickOption(option: SelectOption) returns (changed: Option<string>)
      modifies this
      ensures option.disabled ==> changed.None? && selectedValues == old(selectedValues) && isOpen == old(isOpen)
      ensures !option.disabled && multiple ==>
        selectedValues == Toggled(old(selectedValues), option.value) &&
        changed == Some(Join(selectedValues, ',')) && isOpen == old(isOpen)
      ensures !option.disabled && !multiple ==>
        selectedValues == [option.value] && changed == Some(option.value) && !isOpen
    {
      if option.disabled {
        return None;
      }
      if multiple {
        selectedValues := Toggled(selectedValues, option.value);
        changed := Some(Join(selectedValues, ','));
      } else {
        selectedValues := [option.value];
        changed := Some(option.value);
        isOpen := false;
      }
    }
  }
}
