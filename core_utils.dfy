// The DOM helpers the pickers share: writing an input element's value and the
// PickerCore registry of dropdown panels, of which at most one is meant to be
// open at a time. An element is an object with the state the pickers change:
// an input's value (property and attribute), a dropdown's 'open' class.

module CoreUtils {
  import opened JsBuiltins

  class InputElement {
    var value: string
    var valueAttribute: string

    constructor (initial: string)
      ensures value == initial && valueAttribute == initial
    {
      value, valueAttribute := initial, initial;
    }

    /** The value property and the value attribute both hold text. */
    predicate Shows(text: string)
      reads this
    {
      value == text && valueAttribute == text
    }
  }

  class Dropdown {
    /** Whether the element carries the 'open' class. */
    var open: bool

    constructor ()
      ensures !open
    {
      open := false;
    }
  }

  /** value || '': a missing (None) value becomes the empty string; an empty string,
      the one falsy string, is replaced by the equal ''. */
  function SafeValue(value: Option<string>): (r: string)
    ensures value.Some? ==> r == value.value
    ensures value.None? ==> r == ""
  {
    if value.Some? then value.value else ""
  }

  /** setInputValue: nothing without an element; otherwise the property and the
      attribute both receive value || ''. */
  method SetInputValue(input: InputElement?, value: Option<string>)
    modifies input
    ensures input != null ==> input.Shows(SafeValue(value))
  {
    if input == null {
      return;
    }
    var safe := SafeValue(value);
    input.value := safe;
    input.valueAttribute := safe;
  }

  /** The registry after register(dropdown): a set, so adding twice is adding once. */
  function Registered(dropdowns: set<Dropdown>, dropdown: Dropdown?): (r: set<Dropdown>)
    ensures dropdown == null ==> r == dropdowns
    ensures dropdown != null ==> dropdown in r && r - {dropdown} == dropdowns - {dropdown}
  {
    if dropdown == null then dropdowns else dropdowns + {dropdown}
  }

  lemma RegisteredIdempotent(dropdowns: set<Dropdown>, dropdown: Dropdown?)
    ensures Registered(Registered(dropdowns, dropdown), dropdown) == Registered(dropdowns, dropdown)
  {
  }

  /** The dropdowns of the set that are open. */
  function OpenOnes(dropdowns: set<Dropdown>): (r: set<Dropdown>)
    reads dropdowns
    ensures r <= dropdowns
    ensures forall dd :: dd in dropdowns ==> (dd in r <==> dd.open)
  {
    set dd | dd in dropdowns && dd.open
  }

  /** The PickerCore singleton; the pickers receive it as a parameter. */
  class PickerCore {
    var dropdowns: set<Dropdown>

    constructor ()
      ensures dropdowns == {}
    {
      dropdowns := {};
    }

    method RegisterDropdown(dropdown: Dropdown?)
      modifies this
      ensures dropdowns == Registered(old(dropdowns), dropdown)
    {
      if dropdown == null {
        return;
      }
      dropdowns := dropdowns + {dropdown};
    }

    /** closeAll(except): every registered dropdown other than except loses 'open';
        without except, every registered dropdown does. Unregistered ones are untouched. */
    method CloseAll(except: Dropdown?)
      modifies dropdowns
      ensures forall dd :: dd in dropdowns ==> dd.open == (dd == except && old(dd.open))
      ensures OpenOnes(dropdowns) <= (if except == null then {} else {except})
    {
      var pending := dropdowns;
      while pending != {}
        invariant pending <= dropdowns
        invariant forall dd :: dd in dropdowns && dd !in pending ==> dd.open == (dd == except && old(dd.open))
        invariant forall dd :: dd in pending ==> dd.open == old(dd.open)
        decreases pending
      {
        var dd :| dd in pending;
        if except == null || dd != except {
          dd.open := false;
        }
        pending := pending - {dd};
      }
    }
  }

  /** The input-click handler of every picker: an open dropdown closes; a closed one
      first closes all the others, then opens. */
  method ToggleFromInput(core: PickerCore, dropdown: Dropdown)
    requires dropdown in core.dropdowns
    modifies core.dropdowns
    ensures old(dropdown.open) ==> !dropdown.open && forall dd :: dd in core.dropdowns && dd != dropdown ==> dd.open == old(dd.open)
    ensures !old(dropdown.open) ==> OpenOnes(core.dropdowns) == {dropdown}
  {
    if dropdown.open {
      dropdown.open := false;
    } else {
      core.CloseAll(dropdown);
      dropdown.open := true;
    }
  }
}
