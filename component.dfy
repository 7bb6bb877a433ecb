/** The component itself: its four pieces of state as fields that the
    handlers assign, the `data` prop as a constant, one method per handler,
    the layout effect, and the dispatch of one event. Each method is
    specified by the function of the same name in ChipTransitions, whose
    properties are proved there. */
module ChipAutocompleteComponent {
  import opened JsStrings
  import opened Candidates
  import T = ChipTransitions

  class ChipAutocomplete {
    const data: seq<Data>
    var chips: seq<ChipType>
    var showMenu: bool
    var filteredRes: seq<Data>
    var value: string

    /** The component state as a value. */
    function State(): T.Widget
      reads this
    {
      T.Widget(chips, filteredRes, value, showMenu)
    }

    /** The partition invariant of ChipTransitions, on this component. */
    ghost predicate Valid()
      reads this
    {
      T.Valid(data, State())
    }

    /** Mounting: the initial `useState` values, then the mount effect's
        reset. Every candidate is offered and the invariant holds. */
    constructor (data: seq<Data>)
      ensures this.data == data
      ensures State() == T.Mounted(data)
      ensures Valid()
    {
      this.data := data;
      chips := [];
      showMenu := false;
      filteredRes := [];
      value := "";
      new;
      ResetFilteredArr();
    }

    /** `resetFilteredArr`: collect the chip ids, then walk `data` keeping the
        candidates whose id is not among them. */
    method ResetFilteredArr()
      modifies this
      ensures State() == T.ResetFilteredArr(data, old(State()))
      ensures old(Valid()) ==> Valid()
    {
      ghost var before := State();
      var tmp := CollectChipIds(chips);
      var filteredArr := CollectFiltered(data, NotChipped(tmp));
      filteredRes := filteredArr;
      if T.Valid(data, before) {
        T.ResetPreservesValid(data, before);
      }
    }

    /** `handleOnInputChange`: store the raw text; a blank text resets the
        suggestions, any other keeps the unchipped candidates whose lowered
        name contains it. */
    method HandleOnInputChange(val: string)
      modifies this
      ensures State() == T.InputChange(data, old(State()), val)
      ensures old(Valid()) ==> Valid()
    {
      ghost var before := State();
      value := val;
      if Trim(val) == "" {
        ResetFilteredArr();
        return;
      }
      var tmp := CollectChipIds(chips);
      var filteredArr := CollectFiltered(data, MatchesQuery(val, tmp));
      filteredRes := filteredArr;
      if T.Valid(data, before) {
        T.InputChangePreservesValid(data, before, val);
      }
    }

    /** `handleOnSelect`: look the id up in `data`; if found, append it as an
        unhighlighted chip, drop its id from the suggestions and clear the
        query. */
    method HandleOnSelect(id: string)
      modifies this
      ensures State() == T.Select(data, old(State()), id)
      ensures old(Valid()) && id in Ids(old(filteredRes)) ==> Valid()
    {
      ghost var before := State();
      var ele := FindById(data, id);
      if ele.None? {
        return;
      }
      var filteredArr := Filter(filteredRes, OtherThan(ele.value.id));
      chips := chips + [ChipOf(ele.value, false)];
      filteredRes := filteredArr;
      value := "";
      if T.Valid(data, before) && id in Ids(before.filteredRes) {
        T.SelectPreservesValid(data, before, id);
      }
    }

    /** `handleOnDelete`: on copies of both lists, find the first chip with
        the id; if there is one, push its candidate onto the suggestions,
        splice the chip out, and store both copies. */
    method HandleOnDelete(id: string)
      modifies this
      ensures State() == T.Delete(old(State()), id)
      ensures old(Valid()) ==> Valid()
    {
      ghost var before := State();
      var tmpChips := chips;
      var tmpFilteredArr := filteredRes;
      var index := FindChipIndex(tmpChips, id);
      if index == -1 {
        return;
      }
      tmpFilteredArr := tmpFilteredArr + [tmpChips[index].AsData()];
      tmpChips := tmpChips[..index] + tmpChips[index + 1..];
      filteredRes := tmpFilteredArr;
      chips := tmpChips;
      if T.Valid(data, before) {
        T.DeletePreservesValid(data, before, id);
      }
    }

    /** `handleKeyUp`: on Backspace with chips and an empty query, remove a
        highlighted tail chip or highlight an unhighlighted one. The removed
        candidate is pushed onto a copy of the suggestions that is never
        stored. */
    method HandleKeyUp(key: string)
      modifies this
      ensures State() == T.KeyUp(old(State()), key)
      ensures old(Valid()) ==> Valid()
    {
      ghost var before := State();
      if key != "Backspace" {
        return;
      }
      if |chips| <= 0 {
        return;
      }
      var tmpChips := chips;
      var chip := tmpChips[|tmpChips| - 1];
      var tmpFilArr := filteredRes;
      if value != "" {
        return;
      }
      if chip.highlight {
        tmpChips := tmpChips[..|tmpChips| - 1];
        tmpFilArr := tmpFilArr + [chip.AsData()];
      } else {
        tmpChips := tmpChips[..|tmpChips| - 1] + [chip.(highlight := true)];
      }
      chips := tmpChips;
      if T.Valid(data, before) {
        T.KeyUpPreservesValid(data, before, key);
      }
    }

    /** `handleOnInputBlur`: close the menu and clear the query. */
    method HandleOnInputBlur()
      modifies this
      ensures State() == T.InputBlur(old(State()))
      ensures old(Valid()) ==> Valid()
    {
      showMenu := false;
      value := "";
    }

    /** `handleClickAwayListener`: ignore clicks on a chip's close icon and
        inside the container; blur on any other click. */
    method HandleClickAway(targetIsChip: bool, insideContainer: bool)
      modifies this
      ensures State() == T.ClickAway(old(State()), targetIsChip, insideContainer)
      ensures old(Valid()) ==> Valid()
    {
      if targetIsChip {
        return;
      }
      if !insideContainer {
        HandleOnInputBlur();
      }
    }

    /** The input's focus handler: open the menu. */
    method HandleOnFocus()
      modifies this
      ensures State() == T.Focus(old(State()))
      ensures old(Valid()) ==> Valid()
    {
      showMenu := true;
    }

    /** The layout effect: with the menu open, position it (left out) and
        reset the suggestions. */
    method LayoutEffect()
      modifies this
      ensures State() == T.LayoutEffect(data, old(State()))
      ensures old(Valid()) ==> Valid()
    {
      if !showMenu {
        return;
      }
      ResetFilteredArr();
    }

    /** One event: its handler, then the layout effect when `chips` or
        `showMenu` differ from their values before the handler (the effect's
        dependency check). Every event the rendered component can produce
        keeps the invariant. */
    method Dispatch(e: T.Event)
      modifies this
      ensures State() == T.Dispatch(data, old(State()), e)
      ensures old(Valid()) && T.Feasible(old(State()), e) ==> Valid()
    {
      ghost var before := State();
      var chipsWere := chips;
      var menuWas := showMenu;
      match e {
        case Change(text) => HandleOnInputChange(text);
        case SelectItem(id) => HandleOnSelect(id);
        case DeleteChip(id) => HandleOnDelete(id);
        case KeyRelease(key) => HandleKeyUp(key);
        case FocusInput => HandleOnFocus();
        case DocumentClick(targetIsChip, insideContainer) => HandleClickAway(targetIsChip, insideContainer);
      }
      if chips != chipsWere || showMenu != menuWas {
        LayoutEffect();
      }
      if T.Valid(data, before) && T.Feasible(before, e) {
        T.DispatchPreservesValid(data, before, e);
      }
    }
  }
}
