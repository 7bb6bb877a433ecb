/** The records the widget works on and the list operations its handlers apply
    to them: the id set of the chips, the three filters over candidate lists,
    and the `find`/`findIndex` look-ups. */
module Candidates {
  import opened JsStrings

  datatype Option<T> = None | Some(value: T)

  /** A person that can be picked (`Data`). The widget never creates or
      changes one; it only copies them between its lists. */
  datatype Data = Data(id: string, name: string, email: string, avatar: string)

  /** A selected candidate (`ChipType`): the candidate's four fields plus
      `highlight`, which marks the chip as armed for deletion by Backspace. */
  datatype ChipType = ChipType(highlight: bool, id: string, name: string, email: string, avatar: string)
  {
    /** The candidate record rebuilt from the chip's four fields. */
    function AsData(): Data {
      Data(id, name, email, avatar)
    }
  }

  /** The spread `{ ...d, highlight: h }`. */
  function ChipOf(d: Data, h: bool): (c: ChipType)
    ensures c.AsData() == d && c.highlight == h
  {
    ChipType(h, d.id, d.name, d.email, d.avatar)
  }

  /** A chip is the spread of the candidate rebuilt from it, with its own
      flag: no field is lost between the two records. */
  lemma ChipOfAsData(c: ChipType)
    ensures ChipOf(c.AsData(), c.highlight) == c
  {
  }

  /** The ids of the chips (the set `tmp` both filters build first). */
  function ChipIds(chips: seq<ChipType>): set<string> {
    set c | c in chips :: c.id
  }

  /** The ids of a candidate list. */
  function Ids(s: seq<Data>): set<string> {
    set d | d in s :: d.id
  }

  /** No two entries of a candidate list share an id. */
  predicate UniqueIds(s: seq<Data>) {
    forall i, j :: 0 <= i < j < |s| ==> s[i].id != s[j].id
  }

  /** Appending an entry whose id is new keeps the ids unique. */
  lemma AppendUnique(s: seq<Data>, d: Data)
    requires UniqueIds(s) && d.id !in Ids(s)
    ensures UniqueIds(s + [d])
  {
    var r := s + [d];
    forall i | 0 <= i < |s| ensures r[i].id != d.id {
      assert s[i] in s;
    }
  }

  /** `a` is what is left of `b` after deleting some of its elements, with the
      order of the rest kept (matched greedily from the end). */
  predicate IsSubsequence<T(==)>(a: seq<T>, b: seq<T>)
    decreases |b|
  {
    if a == [] then true
    else if b == [] then false
    else if a[|a| - 1] == b[|b| - 1] then IsSubsequence(a[..|a| - 1], b[..|b| - 1])
    else IsSubsequence(a, b[..|b| - 1])
  }

  lemma {:induction false} SubsequenceReflexive<T>(s: seq<T>)
    ensures IsSubsequence(s, s)
  {
    if s != [] {
      SubsequenceReflexive(s[..|s| - 1]);
    }
  }

  lemma SubsequenceExtendBoth<T>(a: seq<T>, b: seq<T>, x: T)
    requires IsSubsequence(a, b)
    ensures IsSubsequence(a + [x], b + [x])
  {
    assert (a + [x])[..|a|] == a && (b + [x])[..|b|] == b;
  }

  lemma SubsequenceExtendRight<T>(a: seq<T>, b: seq<T>, x: T)
    requires IsSubsequence(a, b)
    requires a != [] ==> a[|a| - 1] != x
    ensures IsSubsequence(a, b + [x])
  {
    assert (b + [x])[..|b|] == b;
  }

  /** The three conditions under which a candidate list keeps an entry. */
  datatype Criterion =
    | NotChipped(taken: set<string>)                // the reset filter
    | MatchesQuery(query: string, taken: set<string>)  // the query filter
    | OtherThan(id: string)                        // the filter applied on select

  predicate Keeps(c: Criterion, d: Data) {
    match c
    case NotChipped(taken) => d.id !in taken
    case MatchesQuery(query, taken) => IndexOf(ToLower(d.name), query) > -1 && d.id !in taken
    case OtherThan(id) => d.id != id
  }

  /** The entries of `s` that `c` keeps, in the order of `s`: a subsequence of
      `s` that holds every copy of each entry `c` keeps and no copy of any
      other entry. */
  function Filter(s: seq<Data>, c: Criterion): (r: seq<Data>)
    ensures IsSubsequence(r, s)
    ensures forall d :: multiset(r)[d] == if Keeps(c, d) then multiset(s)[d] else 0
    ensures forall d :: d in r <==> d in s && Keeps(c, d)
  {
    if s == [] then []
    else
      var init, last := s[..|s| - 1], s[|s| - 1];
      var r := Filter(init, c);
      assert s == init + [last];
      assert multiset(s) == multiset(init) + multiset{last};
      if Keeps(c, last) then
        SubsequenceExtendBoth(r, init, last);
        r + [last]
      else
        assert r != [] ==> r[|r| - 1] in r;
        SubsequenceExtendRight(r, init, last);
        r
  }

  /** A criterion that keeps no more than another gives a subsequence of what
      the other gives. */
  lemma {:induction false} FilterNarrows(s: seq<Data>, narrow: Criterion, wide: Criterion)
    requires forall d :: Keeps(narrow, d) ==> Keeps(wide, d)
    ensures IsSubsequence(Filter(s, narrow), Filter(s, wide))
  {
    if s != [] {
      var init, last := s[..|s| - 1], s[|s| - 1];
      FilterNarrows(init, narrow, wide);
      var a, b := Filter(init, narrow), Filter(init, wide);
      if Keeps(narrow, last) {
        assert Filter(s, narrow) == a + [last] && Filter(s, wide) == b + [last];
        SubsequenceExtendBoth(a, b, last);
      } else if Keeps(wide, last) {
        assert Filter(s, narrow) == a && Filter(s, wide) == b + [last];
        assert a != [] ==> a[|a| - 1] in a;
        SubsequenceExtendRight(a, b, last);
      } else {
        assert Filter(s, narrow) == a && Filter(s, wide) == b;
      }
    }
  }

  /** Filtering a list with one more entry at the end filters the rest and
      keeps that entry if the criterion does. */
  lemma FilterSnoc(init: seq<Data>, last: Data, c: Criterion)
    ensures Filter(init + [last], c) == if Keeps(c, last) then Filter(init, c) + [last] else Filter(init, c)
  {
    assert (init + [last])[..|init|] == init;
  }

  /** A list all of whose entries a criterion keeps is left as it is. */
  lemma {:induction false} FilterKeepsAll(s: seq<Data>, c: Criterion)
    requires forall d :: d in s ==> Keeps(c, d)
    ensures Filter(s, c) == s
  {
    if s != [] {
      var init, last := s[..|s| - 1], s[|s| - 1];
      assert s == init + [last];
      FilterKeepsAll(init, c);
      FilterSnoc(init, last, c);
    }
  }

  /** A criterion that keeps no entry of a list leaves nothing of it. */
  lemma FilterKeepsNone(s: seq<Data>, c: Criterion)
    requires forall d :: d in s ==> !Keeps(c, d)
    ensures Filter(s, c) == []
  {
    var r := Filter(s, c);
    assert multiset(r) == multiset{};
    assert |r| == |multiset(r)|;
  }

  /** Cutting entry `k` out of a list with one more entry at the end. */
  lemma CutSnoc<T>(init: seq<T>, last: T, k: nat)
    requires k <= |init|
    ensures var s := init + [last];
      s[..k] + s[k + 1..] == if k == |init| then init else init[..k] + init[k + 1..] + [last]
  {
    var s := init + [last];
    assert s[..k] == init[..k];
    if k < |init| {
      assert s[k + 1..] == init[k + 1..] + [last];
    }
  }

  /** Removing an id that occurs once, at `k`, cuts out exactly that entry. */
  lemma {:induction false} FilterRemovesOne(s: seq<Data>, id: string, k: nat)
    requires k < |s| && s[k].id == id
    requires forall j :: 0 <= j < |s| && j != k ==> s[j].id != id
    ensures Filter(s, OtherThan(id)) == s[..k] + s[k + 1..]
  {
    var init, last := s[..|s| - 1], s[|s| - 1];
    var c := OtherThan(id);
    assert s == init + [last];
    FilterSnoc(init, last, c);
    CutSnoc(init, last, k);
    forall j | 0 <= j < |init| && j != k ensures init[j].id != id {
      assert init[j] == s[j];
    }
    if k == |s| - 1 {
      FilterKeepsAll(init, c);
    } else {
      FilterRemovesOne(init, id, k);
    }
  }

  /** Filtering a list with unique ids gives a list with unique ids. */
  lemma {:induction false} FilterKeepsUnique(s: seq<Data>, c: Criterion)
    requires UniqueIds(s)
    ensures UniqueIds(Filter(s, c))
  {
    if s != [] {
      var init, last := s[..|s| - 1], s[|s| - 1];
      UniqueInit(s);
      FilterKeepsUnique(init, c);
      FilterSnoc(init, last, c);
      if Keeps(c, last) {
        FilterIdsWithin(init, c);
        AppendUnique(Filter(init, c), last);
      }
    }
  }

  /** Dropping the last entry of a list with unique ids keeps them unique,
      and the dropped entry's id is not among the rest. */
  lemma UniqueInit(s: seq<Data>)
    requires UniqueIds(s) && s != []
    ensures UniqueIds(s[..|s| - 1]) && s[|s| - 1].id !in Ids(s[..|s| - 1])
  {
    var init := s[..|s| - 1];
    forall d | d in init ensures d.id != s[|s| - 1].id {
      var i :| 0 <= i < |init| && init[i] == d;
    }
  }

  /** A filter keeps no id its input lacks. */
  lemma FilterIdsWithin(s: seq<Data>, c: Criterion)
    ensures Ids(Filter(s, c)) <= Ids(s)
  {
  }

  /** `chips.findIndex((chip) => chip.id === id)`: the first index holding the
      id, or -1 when no chip has it. */
  function FindChipIndex(chips: seq<ChipType>, id: string): (r: int)
    ensures -1 <= r < |chips|
    ensures r == -1 <==> id !in ChipIds(chips)
    ensures r != -1 ==> chips[r].id == id && forall j :: 0 <= j < r ==> chips[j].id != id
  {
    if chips == [] then -1
    else if chips[0].id == id then 0
    else
      var k := FindChipIndex(chips[1..], id);
      assert forall j :: 0 < j < |chips| ==> chips[j] == chips[1..][j - 1];
      if k == -1 then -1 else k + 1
  }

  /** The index of the first candidate with the id, or -1 when none has it. */
  function FindDataIndex(data: seq<Data>, id: string): (r: int)
    ensures -1 <= r < |data|
    ensures r == -1 <==> id !in Ids(data)
    ensures r != -1 ==> data[r].id == id && forall j :: 0 <= j < r ==> data[j].id != id
  {
    if data == [] then -1
    else if data[0].id == id then 0
    else
      var k := FindDataIndex(data[1..], id);
      assert forall j :: 0 < j < |data| ==> data[j] == data[1..][j - 1];
      if k == -1 then -1 else k + 1
  }

  /** `data.find((d) => d.id === id)`: the first candidate with the id, or
      nothing when no candidate has it. */
  function FindById(data: seq<Data>, id: string): (r: Option<Data>)
    ensures r.None? <==> id !in Ids(data)
    ensures r.Some? ==> r.value in data && r.value.id == id
    ensures r.Some? ==> r.value == data[FindDataIndex(data, id)]
  {
    var k := FindDataIndex(data, id);
    if k == -1 then None else Some(data[k])
  }

  /** The loop `chips.forEach((chip) => tmp.add(chip.id))`. */
  method CollectChipIds(chips: seq<ChipType>) returns (tmp: set<string>)
    ensures tmp == ChipIds(chips)
  {
    tmp := {};
    for i := 0 to |chips|
      invariant tmp == ChipIds(chips[..i])
    {
      assert ChipIds(chips[..i + 1]) == ChipIds(chips[..i]) + {chips[i].id} by {
        assert forall j :: 0 <= j < i ==> chips[..i + 1][j] == chips[..i][j];
      }
      tmp := tmp + {chips[i].id};
    }
    assert chips[..|chips|] == chips;
  }

  /** The loop that walks `data` and pushes onto `filteredArr` every entry the
      criterion keeps. */
  method CollectFiltered(data: seq<Data>, c: Criterion) returns (filteredArr: seq<Data>)
    ensures filteredArr == Filter(data, c)
  {
    filteredArr := [];
    for i := 0 to |data|
      invariant filteredArr == Filter(data[..i], c)
    {
      assert data[..i + 1][..i] == data[..i];
      if Keeps(c, data[i]) {
        filteredArr := filteredArr + [data[i]];
      }
    }
    assert data[..|data|] == data;
  }
}
