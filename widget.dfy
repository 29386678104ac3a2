/** The interaction state of the autocomplete widget (components/Autocomplete.tsx)
    with React and the DOM stripped away: five state fields, the fixed
    candidate list, the pending debounce timer, and one method per handler. */
module AutocompleteWidget {
  import opened AutocompleteFilter

  /** The keys handleKeyDown tells apart; every other key does nothing. */
  datatype Key = ArrowDown | ArrowUp | Enter | Escape | OtherKey

  /** The ArrowDown update of the highlighted index (line 79) for a list of n suggestions. */
  function NextIndex(i: int, n: int): (r: int)
    ensures 0 < n && -1 <= i < n ==> 0 <= r < n
    ensures 0 <= i < n ==> r == (i + 1) % n
    ensures i == -1 && 0 < n ==> r == 0
  {
    if i < n - 1 then i + 1 else 0
  }

  /** The ArrowUp update of the highlighted index (line 81) for a list of n suggestions. */
  function PrevIndex(i: int, n: int): (r: int)
    ensures 0 < n && -1 <= i < n ==> 0 <= r < n
    ensures 0 <= i < n ==> r == (i + n - 1) % n
    ensures i == -1 ==> r == n - 1
  {
    if i > 0 then i - 1 else n - 1
  }

  /** Within a non-empty list, ArrowUp undoes ArrowDown and ArrowDown undoes ArrowUp. */
  lemma NavigationRoundTrip(i: int, n: int)
    requires 0 <= i < n
    ensures PrevIndex(NextIndex(i, n), n) == i
    ensures NextIndex(PrevIndex(i, n), n) == i
  {
  }

  /** The highlight after pressing ArrowDown `times` times. */
  function NextIndexIter(i: int, n: int, times: nat): int {
    if times == 0 then i else NextIndex(NextIndexIter(i, n, times - 1), n)
  }

  /** Up to n presses of ArrowDown walk forward from i and wrap past the end once. */
  lemma {:induction false} NextIndexIterWraps(i: int, n: int, times: nat)
    requires 0 <= i < n && times <= n
    ensures NextIndexIter(i, n, times) == if i + times < n then i + times else i + times - n
  {
    if times > 0 {
      NextIndexIterWraps(i, n, times - 1);
    }
  }

  /** n presses of ArrowDown bring the highlight back to where it started. */
  lemma NavigationCycles(i: int, n: int)
    requires 0 <= i < n
    ensures NextIndexIter(i, n, n) == i
  {
    NextIndexIterWraps(i, n, n);
  }

  /** ArrowUp from an index more than one past the end of the list (left
      there by a re-filter) still lands outside the list. */
  lemma StaleIndexSurvivesArrowUp(i: int, n: int)
    requires 0 <= n < i - 1
    ensures PrevIndex(i, n) >= n
  {
  }

  class Autocomplete {
    /** The candidate list given by the caller (line 7); never changed by the widget. */
    const data: seq<string>
    /** Whether the dropdown is hidden: the `hide` state of line 11. */
    var hidden: bool
    /** The text in the input box (line 12). */
    var input: string
    /** The suggestion list shown in the dropdown (line 13). */
    var suggestions: seq<string>
    /** Set by a selection so that the next run of the input effect does not re-filter (line 14). */
    var selected: bool
    /** The highlighted row (line 15); -1 once the debounce fires with an empty input. */
    var activeIndex: int
    /** Whether a debounce timer (line 26) is scheduled and not yet cleared. */
    var pending: bool

    /** What holds in every reachable state: the suggestions are drawn from
        data and never outnumber it, they are never empty unless data is (so
        "No suggestions" is only ever shown for an empty candidate list), and
        the highlighted index is -1, 0, or an index into data. It may lie
        beyond the current suggestions. */
    ghost predicate Valid()
      reads this
    {
      && |suggestions| <= |data|
      && (forall k :: 0 <= k < |suggestions| ==> suggestions[k] in data)
      && (|data| > 0 ==> |suggestions| > 0)
      && -1 <= activeIndex
      && (activeIndex <= 0 || activeIndex < |data|)
    }

    /** The state on mount (lines 11-15), before the first run of the input effect. */
    constructor (candidates: seq<string>)
      ensures Valid()
      ensures data == candidates
      ensures hidden && input == "" && suggestions == data && !selected && activeIndex == 0 && !pending
    {
      data := candidates;
      hidden := true;
      input := "";
      suggestions := data;
      selected := false;
      activeIndex := 0;
      pending := false;
    }

    /** One run of the input/data effect (lines 20-26 and 34-35), which React
        runs on mount and after each render that changed input. The previous
        timer is cleared first. Just after a selection it only closes the
        dropdown and clears the flag; otherwise it schedules a new timer. */
    method InputEffect()
      requires Valid()
      modifies this
      ensures Valid()
      ensures old(selected) ==> hidden && !selected && !pending
      ensures !old(selected) ==> pending && hidden == old(hidden) && selected == old(selected)
      ensures input == old(input) && suggestions == old(suggestions) && activeIndex == old(activeIndex)
    {
      pending := false;
      if selected {
        hidden := true;
        selected := false;
        return;
      }
      pending := true;
    }

    /** The debounce timer firing (lines 27-33) with the latest input. A
        non-empty query re-filters and opens the dropdown but leaves the
        highlighted index alone; an empty query resets the suggestions to all
        of data and the index to -1, and leaves the dropdown as it was. */
    method DebounceFire()
      requires Valid() && pending
      modifies this
      ensures Valid()
      ensures !pending
      ensures |input| > 0 ==> suggestions == Suggest(data, input) && !hidden && activeIndex == old(activeIndex)
      ensures |input| == 0 ==> suggestions == data && activeIndex == -1 && hidden == old(hidden)
      ensures input == old(input) && selected == old(selected)
    {
      pending := false;
      if |input| > 0 {
        suggestions := Suggest(data, input);
        hidden := false;
      } else {
        suggestions := data;
        activeIndex := -1;
      }
    }

    /** handleInputChange (lines 60-63): the new text replaces the input and
        the selection flag is cleared; nothing else changes. */
    method InputChange(text: string)
      requires Valid()
      modifies this
      ensures Valid()
      ensures input == text && !selected
      ensures hidden == old(hidden) && suggestions == old(suggestions) && activeIndex == old(activeIndex)
      ensures pending == old(pending)
    {
      input := text;
      selected := false;
    }

    /** handleSelect (lines 65-70): the chosen text goes into the input, the
        dropdown closes, the chosen row is highlighted, and the flag that
        suppresses the next re-filter is set. */
    method Select(item: string, index: int)
      requires Valid()
      requires 0 <= index < |suggestions|
      modifies this
      ensures Valid()
      ensures input == item && hidden && activeIndex == index && selected
      ensures suggestions == old(suggestions) && pending == old(pending)
    {
      selected := true;
      input := item;
      hidden := true;
      activeIndex := index;
    }

    /** A click on the suggestion row at index (line 138): selects that suggestion. */
    method ClickSuggestion(index: int)
      requires Valid()
      requires 0 <= index < |suggestions|
      modifies this
      ensures Valid()
      ensures input == old(suggestions)[index] && hidden && activeIndex == index && selected
      ensures input in data
      ensures suggestions == old(suggestions) && pending == old(pending)
    {
      Select(suggestions[index], index);
    }

    /** handleInputClick (lines 72-75): toggles the dropdown and nothing else. */
    method InputClick()
      requires Valid()
      modifies this
      ensures Valid()
      ensures hidden == !old(hidden)
      ensures input == old(input) && suggestions == old(suggestions) && selected == old(selected)
      ensures activeIndex == old(activeIndex) && pending == old(pending)
    {
      hidden := !hidden;
    }

    /** handleClickOutside (lines 39-43): a click outside the widget closes
        the dropdown; a click inside changes nothing. */
    method ClickOutside(outside: bool)
      requires Valid()
      modifies this
      ensures Valid()
      ensures hidden == (old(hidden) || outside)
      ensures input == old(input) && suggestions == old(suggestions) && selected == old(selected)
      ensures activeIndex == old(activeIndex) && pending == old(pending)
    {
      if outside {
        hidden := true;
      }
    }

    /** Enter as written at line 83: selects suggestions[activeIndex] without
        checking the index, so it is only defined when the index lies in the
        current list. */
    method KeyEnterAsWritten()
      requires Valid()
      requires 0 <= activeIndex < |suggestions|
      modifies this
      ensures Valid()
      ensures input == old(suggestions)[old(activeIndex)] && hidden && selected
      ensures activeIndex == old(activeIndex) && suggestions == old(suggestions) && pending == old(pending)
    {
      Select(suggestions[activeIndex], activeIndex);
    }

    /** Enter with the bounds check the widget needs: selects the highlighted
        suggestion when there is one, and does nothing otherwise. */
    method KeyEnter()
      requires Valid()
      modifies this
      ensures Valid()
      ensures old(0 <= activeIndex < |suggestions|) ==>
        input == old(suggestions)[old(activeIndex)] && hidden && selected
      ensures !old(0 <= activeIndex < |suggestions|) ==>
        input == old(input) && hidden == old(hidden) && selected == old(selected)
      ensures activeIndex == old(activeIndex) && suggestions == old(suggestions) && pending == old(pending)
    {
      if 0 <= activeIndex < |suggestions| {
        Select(suggestions[activeIndex], activeIndex);
      }
    }

    /** handleKeyDown (lines 77-87). ArrowDown and ArrowUp move the highlight
        circularly through the current suggestions, Enter selects the
        highlighted suggestion (with the bounds check of KeyEnter), Escape
        closes the dropdown, and other keys change nothing. */
    method KeyDown(key: Key)
      requires Valid()
      modifies this
      ensures Valid()
      ensures suggestions == old(suggestions) && pending == old(pending)
      ensures key == ArrowDown ==> activeIndex == NextIndex(old(activeIndex), |suggestions|)
      ensures key == ArrowUp ==> activeIndex == PrevIndex(old(activeIndex), |suggestions|)
      ensures key.ArrowDown? || key.ArrowUp? || key.Escape? || key.OtherKey? ==>
        input == old(input) && selected == old(selected)
      ensures key.ArrowDown? || key.ArrowUp? || key.OtherKey? ==> hidden == old(hidden)
      ensures key == Escape ==> hidden && activeIndex == old(activeIndex)
      ensures key == OtherKey ==> activeIndex == old(activeIndex)
      ensures key == Enter && old(0 <= activeIndex < |suggestions|) ==>
        input == old(suggestions)[old(activeIndex)] && hidden && selected && activeIndex == old(activeIndex)
      ensures key == Enter && !old(0 <= activeIndex < |suggestions|) ==>
        input == old(input) && hidden == old(hidden) && selected == old(selected) && activeIndex == old(activeIndex)
    {
      match key
      case ArrowDown =>
        activeIndex := NextIndex(activeIndex, |suggestions|);
      case ArrowUp =>
        activeIndex := PrevIndex(activeIndex, |suggestions|);
      case Enter =>
        KeyEnter();
      case Escape =>
        hidden := true;
      case OtherKey =>
    }
  }
}
