/** The chip-autocomplete component as a state machine over values: one
    function per event handler, the layout effect, and the dispatch of one
    browser event (handler, then the layout effect when its dependencies
    changed). The class in ChipAutocompleteComponent is specified by these
    functions; the lemmas here state what the handlers promise together. */
module ChipTransitions {
  import opened JsStrings
  import opened Candidates

  /** The component state between two events. `data` is a separate, fixed
      argument, as it is a prop the component never changes. */
  datatype Widget = Widget(chips: seq<ChipType>, filteredRes: seq<Data>, value: string, showMenu: bool)

  /** The suggestions for a blank query: the candidates, in the order of
      `data`, whose id is not the id of a chip. */
  function Unselected(data: seq<Data>, chips: seq<ChipType>): seq<Data> {
    Filter(data, NotChipped(ChipIds(chips)))
  }

  /** The state after mounting: the initial `useState` values, then the mount
      effect's reset, which, with no chips yet, shows every candidate. */
  function Mounted(data: seq<Data>): (w: Widget)
    ensures w.chips == [] && w.filteredRes == data && w.value == "" && !w.showMenu
  {
    FilterKeepsAll(data, NotChipped(ChipIds([])));
    Widget([], Unselected(data, []), "", false)
  }

  /** `resetFilteredArr`: the suggestions become exactly the candidates whose
      id is not a chip's, in `data` order; nothing else changes. */
  function ResetFilteredArr(data: seq<Data>, w: Widget): (r: Widget)
    ensures r.chips == w.chips && r.value == w.value && r.showMenu == w.showMenu
    ensures r.filteredRes == Unselected(data, w.chips)
    ensures IsSubsequence(r.filteredRes, data)
    ensures forall d :: d in r.filteredRes <==> d in data && d.id !in ChipIds(w.chips)
  {
    w.(filteredRes := Unselected(data, w.chips))
  }

  /** `handleOnInputChange`: the query becomes the raw text; a blank text
      shows the reset suggestions; otherwise the suggestions are the
      candidates not chipped whose LOWERED name holds the text as typed. Either
      way the result is a subsequence of the reset suggestions. */
  function InputChange(data: seq<Data>, w: Widget, val: string): (r: Widget)
    ensures r.value == val && r.chips == w.chips && r.showMenu == w.showMenu
    ensures IsBlank(val) ==> r.filteredRes == Unselected(data, w.chips)
    ensures !IsBlank(val) ==> r.filteredRes == Filter(data, MatchesQuery(val, ChipIds(w.chips)))
    ensures IsSubsequence(r.filteredRes, Unselected(data, w.chips))
    ensures forall d :: d in r.filteredRes <==>
      d in data && d.id !in ChipIds(w.chips) && (IsBlank(val) || Contains(ToLower(d.name), val))
  {
    var reset := Unselected(data, w.chips);
    if Trim(val) == "" then
      SubsequenceReflexive(reset);
      w.(value := val, filteredRes := reset)
    else
      var taken := ChipIds(w.chips);
      FilterNarrows(data, MatchesQuery(val, taken), NotChipped(taken));
      w.(value := val, filteredRes := Filter(data, MatchesQuery(val, taken)))
  }

  /** `handleOnSelect`: an id no candidate has changes nothing. Otherwise the
      first candidate with the id is appended as an unhighlighted chip, the
      earlier chips stay as they were, the suggestions lose exactly the entries
      with that id (order kept), and the query is cleared. */
  function Select(data: seq<Data>, w: Widget, id: string): (r: Widget)
    ensures id !in Ids(data) ==> r == w
    ensures id in Ids(data) ==>
      && |r.chips| == |w.chips| + 1
      && r.chips[..|w.chips|] == w.chips
      && r.chips[|w.chips|].id == id
      && !r.chips[|w.chips|].highlight
      && r.chips[|w.chips|].AsData() == data[FindDataIndex(data, id)]
      && r.filteredRes == Filter(w.filteredRes, OtherThan(id))
      && IsSubsequence(r.filteredRes, w.filteredRes)
      && (forall d :: d in r.filteredRes <==> d in w.filteredRes && d.id != id)
      && r.value == ""
      && r.showMenu == w.showMenu
  {
    match FindById(data, id)
    case None => w
    case Some(ele) =>
      Widget(w.chips + [ChipOf(ele, false)], Filter(w.filteredRes, OtherThan(ele.id)), "", w.showMenu)
  }

  /** `handleOnDelete`: an id no chip has changes nothing. Otherwise the first
      chip with the id is cut out, the others keeping their order, and its
      candidate is appended to the suggestions, so the two lists together
      keep their length; the query and the menu are left alone. */
  function Delete(w: Widget, id: string): (r: Widget)
    ensures id !in ChipIds(w.chips) ==> r == w
    ensures id in ChipIds(w.chips) ==>
      var k := FindChipIndex(w.chips, id);
      && 0 <= k < |w.chips| && w.chips[k].id == id
      && (forall j :: 0 <= j < k ==> w.chips[j].id != id)
      && r.chips == w.chips[..k] + w.chips[k + 1..]
      && r.filteredRes == w.filteredRes + [w.chips[k].AsData()]
      && |r.chips| + |r.filteredRes| == |w.chips| + |w.filteredRes|
      && r.value == w.value && r.showMenu == w.showMenu
  {
    var index := FindChipIndex(w.chips, id);
    if index == -1 then w
    else
      var chip := w.chips[index];
      w.(chips := w.chips[..index] + w.chips[index + 1..],
         filteredRes := w.filteredRes + [chip.AsData()])
  }

  /** `handleKeyUp`: nothing happens unless the key is Backspace, there is a
      chip and the query is empty. Then an unhighlighted tail chip becomes
      highlighted (and nothing else changes), and a highlighted tail chip is
      removed. The suggestions are never changed here: the candidate is pushed
      onto a copy that is then dropped. */
  function KeyUp(w: Widget, key: string): (r: Widget)
    ensures key != "Backspace" || w.chips == [] || w.value != "" ==> r == w
    ensures r.filteredRes == w.filteredRes && r.value == w.value && r.showMenu == w.showMenu
    ensures key == "Backspace" && w.chips != [] && w.value == "" ==>
      var n := |w.chips|;
      if w.chips[n - 1].highlight then r.chips == w.chips[..n - 1]
      else
        && |r.chips| == n
        && r.chips[..n - 1] == w.chips[..n - 1]
        && r.chips[n - 1] == w.chips[n - 1].(highlight := true)
  {
    if key != "Backspace" then w
    else if |w.chips| <= 0 then w
    else
      var tail := w.chips[|w.chips| - 1];
      if w.value != "" then w
      else if tail.highlight then w.(chips := w.chips[..|w.chips| - 1])
      else w.(chips := w.chips[..|w.chips| - 1] + [tail.(highlight := true)])
  }

  /** `handleOnInputBlur`: closes the menu and clears the query; the chips and
      the suggestions are untouched. */
  function InputBlur(w: Widget): (r: Widget)
    ensures !r.showMenu && r.value == ""
    ensures r.chips == w.chips && r.filteredRes == w.filteredRes
  {
    w.(showMenu := false, value := "")
  }

  /** `handleClickAwayListener`: a click on a chip's close icon (id "chip")
      or inside the container changes nothing; any other click blurs. */
  function ClickAway(w: Widget, targetIsChip: bool, insideContainer: bool): (r: Widget)
    ensures targetIsChip || insideContainer ==> r == w
    ensures !targetIsChip && !insideContainer ==> r == InputBlur(w)
  {
    if targetIsChip then w
    else if !insideContainer then InputBlur(w)
    else w
  }

  /** The input's focus handler: opens the menu and changes nothing else. */
  function Focus(w: Widget): (r: Widget)
    ensures r.showMenu && r.chips == w.chips && r.filteredRes == w.filteredRes && r.value == w.value
  {
    w.(showMenu := true)
  }

  /** The layout effect: with the menu open it positions the menu and resets
      the suggestions; with the menu closed it does nothing. */
  function LayoutEffect(data: seq<Data>, w: Widget): (r: Widget)
    ensures r.chips == w.chips && r.value == w.value && r.showMenu == w.showMenu
    ensures w.showMenu ==> r.filteredRes == Unselected(data, w.chips)
    ensures !w.showMenu ==> r == w
  {
    if !w.showMenu then w else ResetFilteredArr(data, w)
  }

  /** The browser events the component reacts to. */
  datatype Event =
    | Change(text: string)                                       // the input's onChange
    | SelectItem(id: string)                                     // a click on a menu item
    | DeleteChip(id: string)                                     // a click on a chip's close button
    | KeyRelease(key: string)                                    // the input's onKeyUp
    | FocusInput                                                 // the input's onFocus
    | DocumentClick(targetIsChip: bool, insideContainer: bool)  // the document's click listener

  /** The handler an event runs. Only a select, a delete and a key release
      touch the chips; only typing, a select and a delete touch the
      suggestions (a Backspace removal does not); only focus and a document
      click move the menu; only typing, a select and a document click touch
      the query. */
  function Handle(data: seq<Data>, w: Widget, e: Event): (r: Widget)
    ensures r.chips != w.chips ==> e.SelectItem? || e.DeleteChip? || e.KeyRelease?
    ensures r.filteredRes != w.filteredRes ==> e.Change? || e.SelectItem? || e.DeleteChip?
    ensures r.showMenu != w.showMenu ==> e.FocusInput? || e.DocumentClick?
    ensures r.value != w.value ==> e.Change? || e.SelectItem? || e.DocumentClick?
  {
    match e
    case Change(text) => InputChange(data, w, text)
    case SelectItem(id) => Select(data, w, id)
    case DeleteChip(id) => Delete(w, id)
    case KeyRelease(key) => KeyUp(w, key)
    case FocusInput => Focus(w)
    case DocumentClick(targetIsChip, insideContainer) => ClickAway(w, targetIsChip, insideContainer)
  }

  /** Whether the handler calls `setChips`. It always passes a new array, so
      the layout effect's `chips` dependency changes; and whenever it is
      called the contents change too, so "called" and "changed" agree. */
  function SetsChips(data: seq<Data>, w: Widget, e: Event): (b: bool)
    ensures b <==> Handle(data, w, e).chips != w.chips
  {
    match e
    case SelectItem(id) => id in Ids(data)
    case DeleteChip(id) => id in ChipIds(w.chips)
    case KeyRelease(key) => key == "Backspace" && w.chips != [] && w.value == ""
    case _ => false
  }

  /** One event: its handler, then the layout effect when `chips` was set or
      `showMenu` changed. Whenever the menu is open afterwards and the chips
      were set or the menu has just opened, the suggestions are the reset ones
      for the new chips; in every other case the handler's result stands. */
  function Dispatch(data: seq<Data>, w: Widget, e: Event): (r: Widget)
    ensures r.chips == Handle(data, w, e).chips && r.value == Handle(data, w, e).value
    ensures r.showMenu == Handle(data, w, e).showMenu
    ensures r.showMenu && (SetsChips(data, w, e) || !w.showMenu) ==> r.filteredRes == Unselected(data, r.chips)
    ensures !(r.showMenu && (SetsChips(data, w, e) || !w.showMenu)) ==> r == Handle(data, w, e)
  {
    var h := Handle(data, w, e);
    if SetsChips(data, w, e) || h.showMenu != w.showMenu then LayoutEffect(data, h) else h
  }

  // ---------------------------------------------------------------------------
  // The invariant: chips and suggestions partition the ids they hold

  /** No two chips share an id. */
  ghost predicate DistinctIds(chips: seq<ChipType>) {
    forall i, j :: 0 <= i < j < |chips| ==> chips[i].id != chips[j].id
  }

  /** Every chip and suggestion is a candidate, no two chips share an id, and
      no id is both a chip and a suggestion. */
  ghost predicate Valid(data: seq<Data>, w: Widget) {
    && (forall c :: c in w.chips ==> c.AsData() in data)
    && (forall d :: d in w.filteredRes ==> d in data)
    && DistinctIds(w.chips)
    && ChipIds(w.chips) !! Ids(w.filteredRes)
  }

  /** An event the rendered component can produce: a menu item exists only
      while the menu is open, and only for a suggestion. */
  predicate Feasible(w: Widget, e: Event) {
    e.SelectItem? ==> w.showMenu && e.id in Ids(w.filteredRes)
  }

  lemma MountedValid(data: seq<Data>)
    ensures Valid(data, Mounted(data))
  {
  }

  lemma ResetPreservesValid(data: seq<Data>, w: Widget)
    requires Valid(data, w)
    ensures Valid(data, ResetFilteredArr(data, w))
  {
  }

  lemma InputChangePreservesValid(data: seq<Data>, w: Widget, val: string)
    requires Valid(data, w)
    ensures Valid(data, InputChange(data, w, val))
  {
    var r := InputChange(data, w, val);
    forall d | d in r.filteredRes ensures d in data && d.id !in ChipIds(w.chips) {
    }
  }

  lemma SelectPreservesValid(data: seq<Data>, w: Widget, id: string)
    requires Valid(data, w) && id in Ids(w.filteredRes)
    ensures Valid(data, Select(data, w, id))
  {
    var d :| d in w.filteredRes && d.id == id;
    assert id in Ids(data);
    var ele := data[FindDataIndex(data, id)];
    var filtered := Filter(w.filteredRes, OtherThan(id));
    assert Select(data, w, id) == Widget(w.chips + [ChipOf(ele, false)], filtered, "", w.showMenu);
    AppendChip(w.chips, ChipOf(ele, false));
    assert Ids(filtered) <= Ids(w.filteredRes) - {id};
  }

  /** Cutting the chip at `k` out of a list with distinct ids leaves a list
      with distinct ids, of old chips, none of which has the cut chip's id. */
  lemma CutChip(chips: seq<ChipType>, k: nat)
    requires k < |chips| && DistinctIds(chips)
    ensures var r := chips[..k] + chips[k + 1..];
      && DistinctIds(r)
      && (forall c :: c in r ==> c in chips)
      && ChipIds(r) == ChipIds(chips) - {chips[k].id}
  {
    var r := chips[..k] + chips[k + 1..];
    forall i | 0 <= i < |r| ensures r[i] == chips[if i < k then i else i + 1] {
    }
    forall x | x in ChipIds(r) ensures x in ChipIds(chips) - {chips[k].id} {
      var i :| 0 <= i < |r| && r[i].id == x;
      assert chips[if i < k then i else i + 1] in chips;
    }
    forall x | x in ChipIds(chips) - {chips[k].id} ensures x in ChipIds(r) {
      var i :| 0 <= i < |chips| && chips[i].id == x;
      assert r[if i < k then i else i - 1] in r;
    }
  }

  /** Appending a chip whose id is new keeps the ids distinct and adds its id. */
  lemma AppendChip(chips: seq<ChipType>, c: ChipType)
    requires DistinctIds(chips) && c.id !in ChipIds(chips)
    ensures DistinctIds(chips + [c])
    ensures ChipIds(chips + [c]) == ChipIds(chips) + {c.id}
  {
    var r := chips + [c];
    forall i | 0 <= i < |chips| ensures r[i].id != c.id {
      assert chips[i] in chips;
    }
  }

  /** Replacing the tail chip by one with the same id keeps the ids. */
  lemma ReplaceTail(chips: seq<ChipType>, c: ChipType)
    requires chips != [] && c.id == chips[|chips| - 1].id
    ensures var r := chips[..|chips| - 1] + [c];
      && (forall i :: 0 <= i < |chips| ==> r[i].id == chips[i].id)
      && (DistinctIds(chips) ==> DistinctIds(r))
      && ChipIds(r) == ChipIds(chips)
  {
    var r := chips[..|chips| - 1] + [c];
    assert forall i :: 0 <= i < |chips| ==> r[i].id == chips[i].id;
    forall x | x in ChipIds(chips) ensures x in ChipIds(r) {
      var i :| 0 <= i < |chips| && chips[i].id == x;
      assert r[i] in r;
    }
  }

  lemma DeletePreservesValid(data: seq<Data>, w: Widget, id: string)
    requires Valid(data, w)
    ensures Valid(data, Delete(w, id))
  {
    if id in ChipIds(w.chips) {
      var k := FindChipIndex(w.chips, id);
      var back := w.chips[k].AsData();
      assert Delete(w, id) == w.(chips := w.chips[..k] + w.chips[k + 1..], filteredRes := w.filteredRes + [back]);
      CutChip(w.chips, k);
      assert w.chips[k] in w.chips;
      assert Ids(w.filteredRes + [back]) == Ids(w.filteredRes) + {id};
    }
  }

  lemma KeyUpPreservesValid(data: seq<Data>, w: Widget, key: string)
    requires Valid(data, w)
    ensures Valid(data, KeyUp(w, key))
  {
    if key == "Backspace" && w.chips != [] && w.value == "" {
      var n := |w.chips|;
      var tail := w.chips[n - 1];
      assert tail in w.chips;
      if tail.highlight {
        CutChip(w.chips, n - 1);
        assert w.chips[..n - 1] + w.chips[n..] == w.chips[..n - 1];
      } else {
        ReplaceTail(w.chips, tail.(highlight := true));
        assert forall c :: c in w.chips[..n - 1] ==> c in w.chips;
      }
    }
  }

  /** Every handler keeps the partition invariant for the events the
      component can receive. */
  lemma {:induction false} HandlePreservesValid(data: seq<Data>, w: Widget, e: Event)
    requires Valid(data, w) && Feasible(w, e)
    ensures Valid(data, Handle(data, w, e))
  {
    match e
    case Change(text) => InputChangePreservesValid(data, w, text);
    case SelectItem(id) => SelectPreservesValid(data, w, id);
    case DeleteChip(id) => DeletePreservesValid(data, w, id);
    case KeyRelease(key) => KeyUpPreservesValid(data, w, key);
    case FocusInput =>
    case DocumentClick(_, _) =>
  }

  /** The partition invariant holds after every event the component can
      receive, and so in every reachable state. */
  lemma {:induction false} DispatchPreservesValid(data: seq<Data>, w: Widget, e: Event)
    requires Valid(data, w) && Feasible(w, e)
    ensures Valid(data, Dispatch(data, w, e))
  {
    var h := Handle(data, w, e);
    HandlePreservesValid(data, w, e);
    ResetPreservesValid(data, h);
    assert Dispatch(data, w, e) == h || Dispatch(data, w, e) == ResetFilteredArr(data, h);
  }

  // ---------------------------------------------------------------------------
  // Highlight flags

  /** The ids of the highlighted chips. */
  ghost function HighlightedIds(chips: seq<ChipType>): set<string> {
    set c | c in chips && c.highlight :: c.id
  }

  /** A chip whose id was highlighted before is still highlighted. */
  ghost predicate HighlightsKept(before: seq<ChipType>, after: seq<ChipType>) {
    forall c :: c in after && c.id in HighlightedIds(before) ==> c.highlight
  }

  /** A chip highlighted after the event whose id was not highlighted before
      sits at the tail, and the event was a key release. */
  ghost predicate NewHighlightsAtTail(before: seq<ChipType>, after: seq<ChipType>, e: Event) {
    forall j :: 0 <= j < |after| && after[j].highlight && after[j].id !in HighlightedIds(before)
      ==> j == |after| - 1 && e.KeyRelease?
  }

  /** Two chips of a list with distinct ids that share an id are the same chip. */
  lemma SameIdSameChip(chips: seq<ChipType>, a: ChipType, b: ChipType)
    requires DistinctIds(chips) && a in chips && b in chips && a.id == b.id
    ensures a == b
  {
    var i :| 0 <= i < |chips| && chips[i] == a;
    var j :| 0 <= j < |chips| && chips[j] == b;
    assert !(i < j) && !(j < i);
  }

  /** When every chip after an event is an old chip or a new unhighlighted one
      with a new id, no highlight is lost and none is gained. */
  lemma OldOrFreshChips(before: seq<ChipType>, after: seq<ChipType>)
    requires DistinctIds(before)
    requires forall c :: c in after ==> c in before || (c.id !in ChipIds(before) && !c.highlight)
    ensures HighlightsKept(before, after)
    ensures forall c :: c in after && c.highlight ==> c.id in HighlightedIds(before)
  {
    forall c | c in after && c.id in HighlightedIds(before) ensures c.highlight {
      var b :| b in before && b.highlight && b.id == c.id;
      if c in before {
        SameIdSameChip(before, b, c);
      }
    }
  }

  /** Raising the tail chip's flag keeps every highlight and adds at most the
      tail's. */
  lemma RaiseTail(before: seq<ChipType>)
    requires before != [] && DistinctIds(before)
    ensures var n := |before|;
      var after := before[..n - 1] + [before[n - 1].(highlight := true)];
      && HighlightsKept(before, after)
      && forall j :: 0 <= j < n - 1 && after[j].highlight ==> after[j].id in HighlightedIds(before)
  {
    var n := |before|;
    var after := before[..n - 1] + [before[n - 1].(highlight := true)];
    forall j | 0 <= j < n - 1 ensures after[j] == before[j] {
    }
    forall c | c in after && c.id in HighlightedIds(before) ensures c.highlight {
      var j :| 0 <= j < n && after[j] == c;
      if j < n - 1 {
        var b :| b in before && b.highlight && b.id == c.id;
        SameIdSameChip(before, b, before[j]);
      }
    }
  }

  /** Selecting a suggestion appends one unhighlighted chip with a new id. */
  lemma SelectAppendsFresh(data: seq<Data>, w: Widget, id: string)
    requires Valid(data, w) && id in Ids(w.filteredRes)
    ensures var after := Select(data, w, id).chips;
      && |after| == |w.chips| + 1
      && after == w.chips + [after[|w.chips|]]
      && after[|w.chips|].id == id && !after[|w.chips|].highlight
      && id !in ChipIds(w.chips)
  {
    var d :| d in w.filteredRes && d.id == id;
    assert id in Ids(data);
  }

  /** Deleting the id of the last chip of a list with distinct ids removes
      that chip. */
  lemma DeleteLast(w: Widget, id: string)
    requires DistinctIds(w.chips) && w.chips != [] && w.chips[|w.chips| - 1].id == id
    ensures id in ChipIds(w.chips)
    ensures Delete(w, id).chips == w.chips[..|w.chips| - 1]
  {
    var n := |w.chips|;
    assert w.chips[n - 1] in w.chips;
    assert FindChipIndex(w.chips, id) == n - 1;
  }

  /** A handler whose chips carry no highlight that was not there before
      sets no flag anywhere, so in particular none away from the tail. */
  lemma NoNewHighlights(before: seq<ChipType>, after: seq<ChipType>, e: Event)
    requires forall c :: c in after && c.highlight ==> c.id in HighlightedIds(before)
    ensures NewHighlightsAtTail(before, after, e)
  {
    forall j | 0 <= j < |after| && after[j].highlight
      ensures after[j].id in HighlightedIds(before)
    {
      assert after[j] in after;
    }
  }

  lemma SelectHighlights(data: seq<Data>, w: Widget, id: string)
    requires Valid(data, w) && id in Ids(w.filteredRes)
    ensures HighlightsKept(w.chips, Select(data, w, id).chips)
    ensures NewHighlightsAtTail(w.chips, Select(data, w, id).chips, SelectItem(id))
  {
    var after := Select(data, w, id).chips;
    SelectAppendsFresh(data, w, id);
    assert after == w.chips + [after[|w.chips|]];
    OldOrFreshChips(w.chips, after);
    NoNewHighlights(w.chips, after, SelectItem(id));
  }

  lemma DeleteHighlights(data: seq<Data>, w: Widget, id: string)
    requires Valid(data, w)
    ensures HighlightsKept(w.chips, Delete(w, id).chips)
    ensures NewHighlightsAtTail(w.chips, Delete(w, id).chips, DeleteChip(id))
  {
    if id in ChipIds(w.chips) {
      CutChip(w.chips, FindChipIndex(w.chips, id));
    }
    OldOrFreshChips(w.chips, Delete(w, id).chips);
    NoNewHighlights(w.chips, Delete(w, id).chips, DeleteChip(id));
  }

  lemma KeyUpHighlights(data: seq<Data>, w: Widget, key: string)
    requires Valid(data, w)
    ensures HighlightsKept(w.chips, KeyUp(w, key).chips)
    ensures NewHighlightsAtTail(w.chips, KeyUp(w, key).chips, KeyRelease(key))
  {
    var before := w.chips;
    var n := |before|;
    var after := KeyUp(w, key).chips;
    if key == "Backspace" && before != [] && w.value == "" {
      if before[n - 1].highlight {
        CutChip(before, n - 1);
        assert before[..n - 1] + before[n..] == before[..n - 1];
        OldOrFreshChips(before, after);
        NoNewHighlights(before, after, KeyRelease(key));
      } else {
        RaiseTail(before);
      }
    } else {
      OldOrFreshChips(before, before);
      NoNewHighlights(before, before, KeyRelease(key));
    }
  }

  /** The highlight discipline for the chips a handler leaves. */
  lemma {:induction false} HandleHighlights(data: seq<Data>, w: Widget, e: Event)
    requires Valid(data, w) && Feasible(w, e)
    ensures HighlightsKept(w.chips, Handle(data, w, e).chips)
    ensures NewHighlightsAtTail(w.chips, Handle(data, w, e).chips, e)
  {
    match e
    case SelectItem(id) => SelectHighlights(data, w, id);
    case DeleteChip(id) => DeleteHighlights(data, w, id);
    case KeyRelease(key) => KeyUpHighlights(data, w, key);
    case _ =>
      assert Handle(data, w, e).chips == w.chips;
      OldOrFreshChips(w.chips, w.chips);
      NoNewHighlights(w.chips, w.chips, e);
  }

  /** Highlight flags only ever go from false to true; new chips start
      unhighlighted, and only the tail chip is ever set, by a key release. */
  lemma HighlightOnlyRises(data: seq<Data>, w: Widget, e: Event)
    requires Valid(data, w) && Feasible(w, e)
    ensures HighlightsKept(w.chips, Dispatch(data, w, e).chips)
    ensures NewHighlightsAtTail(w.chips, Dispatch(data, w, e).chips, e)
  {
    HandleHighlights(data, w, e);
  }

  // ---------------------------------------------------------------------------
  // Multi-step properties

  /** Two Backspaces on an empty query whose tail chip is not highlighted
      remove exactly that chip: the first arms it, the second removes it, and
      the handlers leave the suggestions and the query as they were. */
  lemma BackspaceTwiceRemovesTail(w: Widget)
    requires w.chips != [] && w.value == "" && !w.chips[|w.chips| - 1].highlight
    ensures KeyUp(KeyUp(w, "Backspace"), "Backspace") == w.(chips := w.chips[..|w.chips| - 1])
  {
    var once := KeyUp(w, "Backspace");
    var n := |w.chips|;
    assert once.chips[..n - 1] == w.chips[..n - 1];
  }

  /** The same two key releases dispatched as events (each followed by the
      layout effect) also remove exactly the tail chip. */
  lemma BackspaceEventsRemoveTail(data: seq<Data>, w: Widget)
    requires w.chips != [] && w.value == "" && !w.chips[|w.chips| - 1].highlight
    ensures
      var e := KeyRelease("Backspace");
      Dispatch(data, Dispatch(data, w, e), e).chips == w.chips[..|w.chips| - 1]
  {
    var e := KeyRelease("Backspace");
    var n := |w.chips|;
    var once := Dispatch(data, w, e);
    assert once.chips == KeyUp(w, "Backspace").chips && once.value == "";
    assert once.chips[..n - 1] == w.chips[..n - 1] && once.chips[n - 1].highlight;
    assert Dispatch(data, once, e).chips == KeyUp(once, "Backspace").chips;
  }

  /** Selecting a suggestion from the open menu appends a chip with a new id
      and clears the query; the menu stays open. */
  lemma SelectDispatched(data: seq<Data>, w: Widget, id: string)
    requires Valid(data, w) && w.showMenu && id in Ids(w.filteredRes)
    ensures var s := Dispatch(data, w, SelectItem(id));
      && s.chips == w.chips + [s.chips[|w.chips|]]
      && s.chips[|w.chips|].id == id
      && DistinctIds(s.chips)
      && s.showMenu && s.value == ""
  {
    var s := Dispatch(data, w, SelectItem(id));
    SelectAppendsFresh(data, w, id);
    AppendChip(w.chips, s.chips[|w.chips|]);
  }

  /** Deleting the tail chip from the open menu's widget gives back the
      chips before it, with the suggestions reset for them. */
  lemma DeleteTailDispatched(data: seq<Data>, s: Widget, chips: seq<ChipType>, id: string)
    requires s.showMenu && DistinctIds(s.chips)
    requires |s.chips| == |chips| + 1 && s.chips == chips + [s.chips[|chips|]] && s.chips[|chips|].id == id
    ensures Dispatch(data, s, DeleteChip(id)) == Widget(chips, Unselected(data, chips), s.value, true)
  {
    DeleteLast(s, id);
    assert s.chips[..|chips|] == chips;
    assert SetsChips(data, s, DeleteChip(id));
  }

  /** With the menu closed, the layout effect does not run, so two dispatched
      Backspaces remove the tail chip and leave the suggestions exactly as
      they were: the removed candidate is not offered again. */
  lemma BackspaceClosedMenuKeepsSuggestions(data: seq<Data>, w: Widget)
    requires !w.showMenu && w.chips != [] && w.value == "" && !w.chips[|w.chips| - 1].highlight
    ensures
      var e := KeyRelease("Backspace");
      Dispatch(data, Dispatch(data, w, e), e) == w.(chips := w.chips[..|w.chips| - 1])
  {
    var once := Dispatch(data, w, KeyRelease("Backspace"));
    assert once.chips[..|w.chips| - 1] == w.chips[..|w.chips| - 1];
  }

  /** With the menu open, selecting a suggestion and then deleting its chip
      gives back the chips, clears the query, and replaces whatever the
      suggestions were (a narrowed query result, say) by the full list of
      unselected candidates. */
  lemma SelectThenDeleteResets(data: seq<Data>, w: Widget, id: string)
    requires Valid(data, w) && w.showMenu && id in Ids(w.filteredRes)
    ensures Dispatch(data, Dispatch(data, w, SelectItem(id)), DeleteChip(id))
      == Widget(w.chips, Unselected(data, w.chips), "", true)
  {
    SelectDispatched(data, w, id);
    DeleteTailDispatched(data, Dispatch(data, w, SelectItem(id)), w.chips, id);
  }

  /** With the menu open and the suggestions settled, selecting a suggestion
      and then deleting its chip restores the state, except that the query is
      cleared. */
  lemma SelectThenDeleteRestores(data: seq<Data>, w: Widget, id: string)
    requires Valid(data, w) && w.showMenu && id in Ids(w.filteredRes)
    requires w.filteredRes == Unselected(data, w.chips)
    ensures Dispatch(data, Dispatch(data, w, SelectItem(id)), DeleteChip(id)) == w.(value := "")
  {
    SelectThenDeleteResets(data, w, id);
  }

  /** With unique candidate ids, the first candidate with the id of suggestion
      `k` is that suggestion. */
  lemma FoundIsSuggestion(data: seq<Data>, w: Widget, k: nat)
    requires Valid(data, w) && k < |w.filteredRes|
    requires UniqueIds(data)
    ensures w.filteredRes[k].id in Ids(data)
    ensures data[FindDataIndex(data, w.filteredRes[k].id)] == w.filteredRes[k]
  {
    var f := w.filteredRes;
    assert f[k] in f;
    var i :| 0 <= i < |data| && data[i] == f[k];
  }

  /** Moving entry `k` of a list to its end keeps the same multiset. */
  lemma MoveToEnd<T>(f: seq<T>, k: nat)
    requires k < |f|
    ensures multiset(f[..k] + f[k + 1..] + [f[k]]) == multiset(f)
  {
    assert f == f[..k] + [f[k]] + f[k + 1..];
  }

  /** Without the layout effect (menu closed), selecting a suggestion and
      deleting its chip gives back the chips exactly and the same suggestions
      up to order: the candidate returns at the end of the list. */
  lemma SelectThenDeletePermutes(data: seq<Data>, w: Widget, id: string, k: nat)
    requires Valid(data, w)
    requires UniqueIds(data)
    requires k < |w.filteredRes| && w.filteredRes[k].id == id
    requires forall j :: 0 <= j < |w.filteredRes| && j != k ==> w.filteredRes[j].id != id
    ensures Delete(Select(data, w, id), id).chips == w.chips
    ensures multiset(Delete(Select(data, w, id), id).filteredRes) == multiset(w.filteredRes)
  {
    var f := w.filteredRes;
    var n := |w.chips|;
    assert f[k] in f;
    FoundIsSuggestion(data, w, k);
    var s := Select(data, w, id);
    SelectAppendsFresh(data, w, id);
    FilterRemovesOne(f, id, k);
    assert s.filteredRes == f[..k] + f[k + 1..];
    AppendChip(w.chips, s.chips[n]);
    DeleteLast(s, id);
    assert s.chips[..n] == w.chips;
    assert Delete(s, id).filteredRes == f[..k] + f[k + 1..] + [f[k]];
    MoveToEnd(f, k);
  }

  /** With unique candidate ids, no two suggestions share an id after any
      event: the filters keep a subsequence of a list with unique ids, and a
      delete appends a chip's candidate, whose id the partition invariant
      keeps out of the suggestions. */
  lemma {:induction false} DispatchKeepsUniqueSuggestions(data: seq<Data>, w: Widget, e: Event)
    requires Valid(data, w) && UniqueIds(data) && UniqueIds(w.filteredRes)
    ensures UniqueIds(Dispatch(data, w, e).filteredRes)
  {
    var h := Handle(data, w, e);
    FilterKeepsUnique(data, NotChipped(ChipIds(h.chips)));
    match e
    case Change(text) =>
      FilterKeepsUnique(data, NotChipped(ChipIds(w.chips)));
      FilterKeepsUnique(data, MatchesQuery(text, ChipIds(w.chips)));
    case SelectItem(id) =>
      FilterKeepsUnique(w.filteredRes, OtherThan(id));
    case DeleteChip(id) =>
      if id in ChipIds(w.chips) {
        var k := FindChipIndex(w.chips, id);
        assert w.chips[k] in w.chips;
        AppendUnique(w.filteredRes, w.chips[k].AsData());
      }
    case KeyRelease(_) =>
    case FocusInput =>
    case DocumentClick(_, _) =>
  }

  /** In a state where no two suggestions share an id, as every state reached
      from mounting on unique candidate ids is, selecting a suggestion and
      deleting its chip without the layout effect gives back the chips
      exactly and the suggestions up to order. */
  lemma SelectThenDeletePermutesUnique(data: seq<Data>, w: Widget, id: string)
    requires Valid(data, w) && UniqueIds(data) && UniqueIds(w.filteredRes)
    requires id in Ids(w.filteredRes)
    ensures Delete(Select(data, w, id), id).chips == w.chips
    ensures multiset(Delete(Select(data, w, id), id).filteredRes) == multiset(w.filteredRes)
  {
    var d :| d in w.filteredRes && d.id == id;
    var k :| 0 <= k < |w.filteredRes| && w.filteredRes[k] == d;
    SelectThenDeletePermutes(data, w, id, k);
  }

  /** Re-running the same query on the same chips gives the same state. */
  lemma RequeryIdempotent(data: seq<Data>, w: Widget, query: string)
    ensures InputChange(data, InputChange(data, w, query), query) == InputChange(data, w, query)
  {
  }

  /** Clearing the query, whatever was typed before, shows every candidate
      that is not a chip. */
  lemma ClearingQueryShowsUnselected(data: seq<Data>, w: Widget, query: string)
    ensures InputChange(data, InputChange(data, w, query), "").filteredRes == Unselected(data, w.chips)
  {
  }

  /** Because the name is lowered and the query is not, a query holding an
      upper-case ASCII letter matches no candidate at all. */
  lemma UpperCaseQueryMatchesNothing(data: seq<Data>, w: Widget, query: string, j: nat)
    requires j < |query| && IsUpperAscii(query[j])
    ensures InputChange(data, w, query).filteredRes == []
  {
    assert !IsBlank(query) by { assert !IsTrimmable(query[j]); }
    var c := MatchesQuery(query, ChipIds(w.chips));
    forall d | d in data ensures !Keeps(c, d) {
      UpperCaseNotInLowered(ToLower(d.name), query, j);
    }
    FilterKeepsNone(data, c);
  }

  /** Focusing a freshly mounted widget opens the menu on every candidate. */
  lemma FocusAfterMount(data: seq<Data>)
    ensures Dispatch(data, Mounted(data), FocusInput) == Widget([], data, "", true)
  {
    var m := Mounted(data);
    assert Handle(data, m, FocusInput) == Widget([], data, "", true);
    FilterKeepsAll(data, NotChipped(ChipIds([])));
  }

  /** With candidates Ann and Bo, the suggestions for the chip list
      holding Ann are just Bo. */
  lemma OnlyBoUnselected(ann: Data, bo: Data)
    requires ann.id == "1" && bo.id == "2"
    ensures Unselected([ann, bo], [ChipOf(ann, false)]) == [bo]
  {
    var chips := [ChipOf(ann, false)];
    assert ChipIds(chips) == {"1"} by {
      assert forall x :: x in ChipIds(chips) <==> x == chips[0].id;
    }
    FilterPair(ann, bo, NotChipped({"1"}));
  }

  /** Filtering a two-entry list that drops the first entry and keeps the
      second leaves just the second. */
  lemma FilterPair(a: Data, b: Data, c: Criterion)
    requires !Keeps(c, a) && Keeps(c, b)
    ensures Filter([a, b], c) == [b]
  {
    assert [a] == [] + [a];
    FilterSnoc([], a, c);
    assert [a, b] == [a] + [b];
    FilterSnoc([a], b, c);
  }

  /** A worked run: with candidates Ann (id "1") and Bo (id "2"), focusing
      the input offers both, and selecting Ann makes her the only chip, leaves
      Bo as the only suggestion and clears the query. */
  lemma SelectScenario()
    ensures
      var ann, bo := Data("1", "Ann", "ann@mail", "a.png"), Data("2", "Bo", "bo@mail", "b.png");
      var shown := Dispatch([ann, bo], Mounted([ann, bo]), FocusInput);
      var selected := Dispatch([ann, bo], shown, SelectItem("1"));
      && shown.filteredRes == [ann, bo] && shown.showMenu
      && selected.chips == [ChipOf(ann, false)] && selected.filteredRes == [bo] && selected.value == ""
  {
    var ann, bo := Data("1", "Ann", "ann@mail", "a.png"), Data("2", "Bo", "bo@mail", "b.png");
    var data := [ann, bo];
    FocusAfterMount(data);
    var shown := Widget([], data, "", true);
    assert FindDataIndex(data, "1") == 0;
    var chips := [ChipOf(ann, false)];
    assert Select(data, shown, "1").chips == chips;
    OnlyBoUnselected(ann, bo);
  }
}
