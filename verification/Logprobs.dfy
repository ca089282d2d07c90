/** Flat log-probability storage: vllm/logprobs.py.

    A Python dictionary is its list of items in insertion order, with distinct keys; reading back the
    same `Dict` therefore also means reading it back in the same order. */
module Logprobs {
  import opened Wrappers

  datatype Logprob = Logprob(logprob: real, rank: Option<int>, decodedToken: Option<string>)

  datatype Item = Item(tokenId: int, value: Logprob)

  predicate UniqueKeys(items: seq<Item>) {
    forall i, j | 0 <= i < j < |items| :: items[i].tokenId != items[j].tokenId
  }

  type Dict = d: seq<Item> | UniqueKeys(d)

  // ----- dictionaries

  /** The place of a key, or the length. */
  function Find(d: seq<Item>, key: int): (i: nat)
    ensures i <= |d| && (i < |d| ==> d[i].tokenId == key)
    ensures forall j | 0 <= j < i :: d[j].tokenId != key
  {
    if d == [] || d[0].tokenId == key then 0 else 1 + Find(d[1..], key)
  }

  /** `d[key] = value`: a known key keeps its place. */
  function Put(d: Dict, item: Item): Dict {
    var i := Find(d, item.tokenId);
    if i < |d| then d[i := item] else d + [item]
  }

  /** The dictionary a comprehension builds from items that may repeat keys. */
  function ToDict(items: seq<Item>): (r: Dict) {
    if items == [] then [] else Put(ToDict(items[..|items| - 1]), items[|items| - 1])
  }

  /** The items of a dictionary build that dictionary. */
  lemma {:induction false} ToDictOfDict(d: Dict)
    ensures ToDict(d) == d
  {
    if d != [] {
      var init, last := d[..|d| - 1], d[|d| - 1];
      assert d == init + [last];
      ToDictOfDict(init);
    }
  }

  /** The value of the last item with a key. */
  function LastValue(items: seq<Item>, key: int): Option<Logprob> {
    if items == [] then None
    else if items[|items| - 1].tokenId == key then Some(items[|items| - 1].value)
    else LastValue(items[..|items| - 1], key)
  }

  /** The keys in the order of their first appearance. */
  function FirstKeys(items: seq<Item>): seq<int> {
    if items == [] then []
    else
      var keys, key := FirstKeys(items[..|items| - 1]), items[|items| - 1].tokenId;
      if key in keys then keys else keys + [key]
  }

  function Keys(d: seq<Item>): seq<int> {
    seq(|d|, i requires 0 <= i < |d| => d[i].tokenId)
  }

  lemma PutAt(d: Dict, item: Item, key: int)
    ensures
      var r := Put(d, item);
      && Find(r, key) == (if Find(d, key) < |d| then Find(d, key) else if key == item.tokenId then |d| else |r|)
      && Keys(r) == (if item.tokenId in Keys(d) then Keys(d) else Keys(d) + [item.tokenId])
  {
    var r, i, f := Put(d, item), Find(d, item.tokenId), Find(d, key);
    assert i < |d| ==> Keys(d)[i] == item.tokenId;
    assert forall k | 0 <= k < |d| :: r[k].tokenId == d[k].tokenId;
    assert f < |d| ==> r[f].tokenId == key;
    assert i == |d| ==> r[|d|] == item;
    var g := Find(r, key);
    assert g < |d| ==> d[g].tokenId == key;
  }

  /** A dictionary holds every key that occurs, in the order of first appearance, with the value of its
      last item. */
  lemma {:induction false} ToDictExact(items: seq<Item>, key: int)
    ensures
      var d := ToDict(items);
      && Keys(d) == FirstKeys(items)
      && (Find(d, key) < |d| <==> LastValue(items, key).Some?)
      && (Find(d, key) < |d| ==> d[Find(d, key)].value == LastValue(items, key).value)
  {
    if items != [] {
      var init, last := items[..|items| - 1], items[|items| - 1];
      ToDictExact(init, key);
      PutAt(ToDict(init), last, key);
    }
  }

  // ----- the flat form

  datatype Flat = Flat(
    starts: seq<int>,
    ends: seq<int>,
    tokenIds: seq<int>,
    logprobs: seq<real>,
    ranks: seq<Option<int>>,
    decodedTokens: seq<Option<string>>)

  /** The columns have one length, and positions are ascending, possibly gapped ranges of it. */
  predicate Valid(f: Flat) {
    && |f.starts| == |f.ends|
    && |f.tokenIds| == |f.logprobs| == |f.ranks| == |f.decodedTokens|
    && (forall k | 0 <= k < |f.starts| :: 0 <= f.starts[k] <= f.ends[k] <= |f.tokenIds|)
    && (forall k, l | 0 <= k < l < |f.starts| :: f.ends[k] <= f.starts[l])
  }

  predicate Columned(f: Flat) {
    |f.starts| == |f.ends| && |f.tokenIds| == |f.logprobs| == |f.ranks| == |f.decodedTokens|
  }

  function ItemAt(f: Flat, i: nat): Item
    requires Columned(f) && i < |f.tokenIds|
  {
    Item(f.tokenIds[i], Logprob(f.logprobs[i], f.ranks[i], f.decodedTokens[i]))
  }

  /** Where Python's `column[i]` reads, if it does not raise. */
  function PyIndex(length: nat, i: int): Option<nat> {
    if 0 <= i < length then Some(i) else if i < 0 <= i + length then Some(i + length) else None
  }

  predicate Readable(f: Flat, lo: int, hi: int) {
    forall i | lo <= i < hi :: PyIndex(|f.tokenIds|, i).Some?
  }

  /** The items at column indices `lo` to `hi`, negative ones counted from the end. */
  function PyRows(f: Flat, lo: int, hi: int): seq<Item>
    requires Columned(f) && lo <= hi && Readable(f, lo, hi)
  {
    seq(hi - lo, j requires 0 <= j < hi - lo => ItemAt(f, PyIndex(|f.tokenIds|, lo + j).value))
  }

  /** `self[k]` for a position `k`: None stands for IndexError. */
  function ReadAt(f: Flat, k: nat): Option<Dict>
    requires Columned(f) && k < |f.starts|
  {
    if f.ends[k] <= f.starts[k] then Some([])
    else if !Readable(f, f.starts[k], f.ends[k]) then None
    else Some(ToDict(PyRows(f, f.starts[k], f.ends[k])))
  }

  function Rows(f: Flat, lo: nat, hi: nat): seq<Item>
    requires Columned(f) && lo <= hi <= |f.tokenIds|
  {
    seq(hi - lo, j requires 0 <= j < hi - lo => ItemAt(f, lo + j))
  }

  /** The list of dictionaries a valid flat form stands for. */
  function Contents(f: Flat): (r: seq<Dict>)
    requires Valid(f)
    ensures |r| == |f.starts|
  {
    seq(|f.starts|, k requires 0 <= k < |f.starts| => ToDict(Rows(f, f.starts[k], f.ends[k])))
  }

  lemma ReadAtContents(f: Flat, k: nat)
    requires Valid(f) && k < |f.starts|
    ensures ReadAt(f, k) == Some(Contents(f)[k])
  {
    var lo, hi := f.starts[k], f.ends[k];
    assert Contents(f)[k] == ToDict(Rows(f, lo, hi));
    assert forall i | lo <= i < hi :: PyIndex(|f.tokenIds|, i) == Some(i);
    assert forall j | 0 <= j < hi - lo :: Rows(f, lo, hi)[j] == PyRows(f, lo, hi)[j];
    assert Rows(f, lo, hi) == PyRows(f, lo, hi);
  }

  // ----- appending

  function Zip(
    tokenIds: seq<int>, logprobs: seq<real>, ranks: seq<Option<int>>, decodedTokens: seq<Option<string>>): (r: seq<Item>)
    ensures |r| <= |tokenIds| && |r| <= |logprobs| && |r| <= |ranks| && |r| <= |decodedTokens|
  {
    if tokenIds == [] || logprobs == [] || ranks == [] || decodedTokens == [] then []
    else
      [Item(tokenIds[0], Logprob(logprobs[0], ranks[0], decodedTokens[0]))] +
      Zip(tokenIds[1..], logprobs[1..], ranks[1..], decodedTokens[1..])
  }

  function WithItems(f: Flat, items: seq<Item>): Flat {
    f.(
      tokenIds := f.tokenIds + seq(|items|, i requires 0 <= i < |items| => items[i].tokenId),
      logprobs := f.logprobs + seq(|items|, i requires 0 <= i < |items| => items[i].value.logprob),
      ranks := f.ranks + seq(|items|, i requires 0 <= i < |items| => items[i].value.rank),
      decodedTokens := f.decodedTokens + seq(|items|, i requires 0 <= i < |items| => items[i].value.decodedToken))
  }

  /** One more position holding the given items. */
  function WithPosition(f: Flat, items: seq<Item>): Flat {
    var g := WithItems(f, items);
    g.(starts := f.starts + [|f.logprobs|], ends := f.ends + [|g.logprobs|])
  }

  lemma WithItemsAt(f: Flat, items: seq<Item>, i: nat)
    requires Columned(f) && i < |f.tokenIds| + |items|
    ensures Columned(WithItems(f, items)) && |WithItems(f, items).tokenIds| == |f.tokenIds| + |items|
    ensures ItemAt(WithItems(f, items), i) ==
            if i < |f.tokenIds| then ItemAt(f, i) else items[i - |f.tokenIds|]
  {}

  lemma WithPositionRows(f: Flat, items: seq<Item>, lo: nat, hi: nat)
    requires Columned(f) && lo <= hi <= |f.tokenIds|
    ensures Columned(WithPosition(f, items)) && |WithPosition(f, items).tokenIds| == |f.tokenIds| + |items|
    ensures Rows(WithPosition(f, items), lo, hi) == Rows(f, lo, hi)
    ensures Rows(WithPosition(f, items), |f.tokenIds|, |f.tokenIds| + |items|) == items
  {
    var g := WithPosition(f, items);
    forall i | 0 <= i < |f.tokenIds| + |items|
      ensures ItemAt(g, i) == if i < |f.tokenIds| then ItemAt(f, i) else items[i - |f.tokenIds|]
    {
      WithItemsAt(f, items, i);
    }
  }

  lemma WithPositionValid(f: Flat, items: seq<Item>)
    requires Valid(f)
    ensures Valid(WithPosition(f, items))
  {
    WithPositionRows(f, items, 0, 0);
  }

  lemma WithPositionContents(f: Flat, items: seq<Item>)
    requires Valid(f)
    ensures Valid(WithPosition(f, items))
    ensures Contents(WithPosition(f, items)) == Contents(f) + [ToDict(items)]
  {
    var g, n := WithPosition(f, items), |f.starts|;
    WithPositionValid(f, items);
    forall k | 0 <= k <= n ensures Contents(g)[k] == if k < n then Contents(f)[k] else ToDict(items) {
      if k < n {
        WithPositionRows(f, items, f.starts[k], f.ends[k]);
      } else {
        WithPositionRows(f, items, 0, 0);
      }
    }
  }

  // ----- slicing

  /** A Python slice object. */
  datatype Slice = Slice(start: Option<int>, stop: Option<int>, step: Option<int>)

  function StepOf(s: Slice): int {
    if s.step.Some? then s.step.value else 1
  }

  /** `range(start, stop, step)` */
  function Range(start: int, stop: int, step: int): (r: seq<int>)
    requires step != 0
    ensures forall i | 0 <= i < |r| :: if step > 0 then start <= r[i] < stop else stop < r[i] <= start
    ensures forall i, j | 0 <= i < j < |r| :: if step > 0 then r[i] < r[j] else r[i] > r[j]
    decreases if step > 0 then stop - start else start - stop
  {
    if (if step > 0 then start >= stop else start <= stop) then [] else [start] + Range(start + step, stop, step)
  }

  /** A slice bound as CPython adjusts it: counted from the end if negative, then clamped. */
  function Clamp(length: nat, step: int, v: int): int {
    var lower, upper := if step > 0 then 0 else -1, if step > 0 then length else length - 1;
    var w := if v < 0 then v + length else v;
    if w < lower then lower else if w > upper then upper else w
  }

  function StartOf(length: nat, s: Slice): int {
    if s.start.Some? then Clamp(length, StepOf(s), s.start.value) else if StepOf(s) > 0 then 0 else length - 1
  }

  function StopOf(length: nat, s: Slice): int {
    if s.stop.Some? then Clamp(length, StepOf(s), s.stop.value) else if StepOf(s) > 0 then length else -1
  }

  /** The list indices a slice selects. */
  function Indices(length: nat, s: Slice): (r: seq<int>)
    requires StepOf(s) != 0
    ensures forall i | 0 <= i < |r| :: 0 <= r[i] < length
    ensures forall i, j | 0 <= i < j < |r| :: if StepOf(s) > 0 then r[i] < r[j] else r[i] > r[j]
  {
    Range(StartOf(length, s), StopOf(length, s), StepOf(s))
  }

  /** Element `j` of a range is `start + j * step`, and it is there exactly while that is before `stop`. */
  lemma {:induction false} RangeAt(start: int, stop: int, step: int, j: nat)
    requires step != 0
    ensures j < |Range(start, stop, step)| <==> if step > 0 then start + j * step < stop else start + j * step > stop
    ensures j < |Range(start, stop, step)| ==> Range(start, stop, step)[j] == start + j * step
    decreases j
  {
    if j > 0 {
      StepOn(start, step, j);
      RangeAt(start + step, stop, step, j - 1);
    }
  }

  lemma StepOn(start: int, step: int, j: nat)
    requires j > 0 && step != 0
    ensures start + step + (j - 1) * step == start + j * step
    ensures if step > 0 then start <= start + j * step else start >= start + j * step
  {
    assert (j - 1) * step == j * step - step;
    if step > 0 {
      assert j * step >= 0;
    } else {
      assert j * (-step) >= 0;
      assert j * step == -(j * (-step));
    }
  }

  /** A bound counts from the end when it is negative. */
  function FromEnd(length: nat, v: int): int {
    if v < 0 then length + v else v
  }

  predicate Reaches(first: int, step: int, j: nat, i: int) {
    i == first + j * step
  }

  /** The first position in the direction of the step that the start bound admits. */
  function FirstAdmitted(length: nat, s: Slice): int {
    if StepOf(s) > 0 then
      if s.start.Some? && FromEnd(length, s.start.value) > 0 then FromEnd(length, s.start.value) else 0
    else
      if s.start.Some? && FromEnd(length, s.start.value) < length then FromEnd(length, s.start.value) else length - 1
  }

  /** Position `i` of a list is in a slice of it: inside both bounds, and a whole number of steps from the
      first admitted position. */
  ghost predicate InSlice(length: nat, s: Slice, i: int) {
    && 0 <= i < length
    && (s.start.Some? ==>
          if StepOf(s) > 0 then FromEnd(length, s.start.value) <= i else i <= FromEnd(length, s.start.value))
    && (s.stop.Some? ==>
          if StepOf(s) > 0 then i < FromEnd(length, s.stop.value) else FromEnd(length, s.stop.value) < i)
    && exists j: nat :: Reaches(FirstAdmitted(length, s), StepOf(s), j, i)
  }

  lemma RangeHolds(start: int, stop: int, step: int, i: int)
    requires step != 0
    ensures i in Range(start, stop, step) <==>
            (if step > 0 then i < stop else i > stop) && exists j: nat :: Reaches(start, step, j, i)
  {
    var r := Range(start, stop, step);
    if i in r {
      var j :| 0 <= j < |r| && r[j] == i;
      RangeAt(start, stop, step, j);
      assert Reaches(start, step, j, i);
    }
    if j: nat :| Reaches(start, step, j, i) {
      RangeAt(start, stop, step, j);
    }
  }

  lemma ReachesOnward(first: int, step: int, i: int)
    requires step != 0 && exists j: nat :: Reaches(first, step, j, i)
    ensures if step > 0 then first <= i else i <= first
  {
    var j: nat :| Reaches(first, step, j, i);
    if j > 0 {
      StepOn(first, step, j);
    }
  }

  /** A slice selects, in the order of its step, exactly the positions in it. */
  lemma IndicesExactly(length: nat, s: Slice, i: int)
    requires StepOf(s) != 0
    ensures i in Indices(length, s) <==> InSlice(length, s, i)
  {
    var step := StepOf(s);
    var start, stop := StartOf(length, s), StopOf(length, s);
    assert Indices(length, s) == Range(start, stop, step);
    RangeHolds(start, stop, step, i);
    if exists j: nat :: Reaches(start, step, j, i) {
      ReachesOnward(start, step, i);
    }
    if exists j: nat :: Reaches(FirstAdmitted(length, s), step, j, i) {
      ReachesOnward(FirstAdmitted(length, s), step, i);
    }
    StartIsFirst(length, s);
  }

  /** Clamping the start changes it only where the slice is empty anyway. */
  lemma StartIsFirst(length: nat, s: Slice)
    requires StepOf(s) != 0
    ensures
      var start, first := StartOf(length, s), FirstAdmitted(length, s);
      start == first || (if StepOf(s) > 0 then length <= start < first else first < start < 0)
  {}

  /** `list[-k:]` is the last `k` elements, or all. */
  lemma LastPositions<T>(list: seq<T>, k: int)
    requires k > 0
    ensures Select(list, Indices(|list|, Slice(Some(-k), None, None))) == if k <= |list| then list[|list| - k..] else list
  {
    var n := |list|;
    var start := if k <= n then n - k else 0;
    var r := Indices(n, Slice(Some(-k), None, None));
    assert r == Range(start, n, 1);
    RangeIsSegment(start, n);
  }

  /** `list[a:b]` is the usual segment. */
  lemma MiddlePositions<T>(list: seq<T>, a: nat, b: nat)
    requires a <= b <= |list|
    ensures Select(list, Indices(|list|, Slice(Some(a), Some(b), None))) == list[a..b]
  {
    assert Indices(|list|, Slice(Some(a), Some(b), None)) == Range(a, b, 1);
    RangeIsSegment(a, b);
  }

  lemma {:induction false} RangeIsSegment(a: int, b: int)
    requires a <= b
    ensures |Range(a, b, 1)| == b - a && forall j | 0 <= j < b - a :: Range(a, b, 1)[j] == a + j
    decreases b - a
  {
    if a < b {
      RangeIsSegment(a + 1, b);
    }
  }

  function Select<T>(list: seq<T>, indices: seq<int>): seq<T>
    requires forall i | 0 <= i < |indices| :: 0 <= indices[i] < |list|
  {
    seq(|indices|, i requires 0 <= i < |indices| => list[indices[i]])
  }

  function Shift(list: seq<int>, lo: int): seq<int> {
    seq(|list|, i requires 0 <= i < |list| => list[i] - lo)
  }

  /** `column[lo:hi]` for bounds inside the column. */
  function Cut<T>(column: seq<T>, lo: nat, hi: nat): seq<T>
    requires lo <= |column| && hi <= |column|
  {
    if lo <= hi then column[lo..hi] else []
  }

  predicate Selects(f: Flat, indices: seq<int>) {
    && indices != []
    && forall i | 0 <= i < |indices| :: 0 <= indices[i] < |f.starts|
  }

  /** `self[s]`, when the slice selects the given positions. */
  function Sliced(f: Flat, indices: seq<int>): (g: Flat)
    requires Valid(f) && Selects(f, indices)
    ensures Columned(g) && |g.starts| == |indices|
  {
    var lo, hi := f.starts[indices[0]], f.ends[indices[|indices| - 1]];
    Flat(
      Shift(Select(f.starts, indices), lo),
      Shift(Select(f.ends, indices), lo),
      Cut(f.tokenIds, lo, hi),
      Cut(f.logprobs, lo, hi),
      Cut(f.ranks, lo, hi),
      Cut(f.decodedTokens, lo, hi))
  }

  predicate Ascending(indices: seq<int>) {
    forall i, j | 0 <= i < j < |indices| :: indices[i] < indices[j]
  }

  lemma SlicedValid(f: Flat, indices: seq<int>)
    requires Valid(f) && Selects(f, indices) && Ascending(indices)
    ensures Valid(Sliced(f, indices))
    ensures f.starts[indices[0]] <= f.ends[indices[|indices| - 1]]
  {
    var first, last := indices[0], indices[|indices| - 1];
    assert forall k | 0 <= k < |indices| ::
      f.starts[first] <= f.starts[indices[k]] <= f.ends[indices[k]] <= f.ends[last];
  }

  lemma SlicedRows(f: Flat, indices: seq<int>, k: nat)
    requires Valid(f) && Selects(f, indices) && Ascending(indices) && k < |indices|
    requires Valid(Sliced(f, indices)) && f.starts[indices[0]] <= f.ends[indices[|indices| - 1]]
    ensures
      var g := Sliced(f, indices);
      Rows(g, g.starts[k], g.ends[k]) == Rows(f, f.starts[indices[k]], f.ends[indices[k]])
  {
    var g, lo := Sliced(f, indices), f.starts[indices[0]];
    forall i | 0 <= i < |g.tokenIds| ensures ItemAt(g, i) == ItemAt(f, lo + i) {}
  }

  lemma SlicedAscending(f: Flat, indices: seq<int>)
    requires Valid(f) && Selects(f, indices) && Ascending(indices)
    ensures Valid(Sliced(f, indices))
    ensures Contents(Sliced(f, indices)) == Select(Contents(f), indices)
  {
    SlicedValid(f, indices);
    forall k | 0 <= k < |indices| ensures Contents(Sliced(f, indices))[k] == Contents(f)[indices[k]] {
      SlicedRows(f, indices, k);
    }
  }

  /** Reading the slice gives the selected dictionaries. */
  ghost predicate ReadsSelected(f: Flat, indices: seq<int>)
    requires Valid(f) && Selects(f, indices)
  {
    forall k | 0 <= k < |indices| :: ReadAt(Sliced(f, indices), k) == Some(Contents(f)[indices[k]])
  }

  lemma ToDictEmpty(items: seq<Item>)
    ensures ToDict(items) == [] <==> items == []
  {}

  lemma SlicedDescending(f: Flat, indices: seq<int>)
    requires Valid(f) && Selects(f, indices) && |indices| > 1
    requires forall i, j | 0 <= i < j < |indices| :: indices[i] > indices[j]
    ensures ReadsSelected(f, indices) <==> forall k | 0 <= k < |indices| :: Contents(f)[indices[k]] == []
  {
    var g := Sliced(f, indices);
    assert f.ends[indices[|indices| - 1]] <= f.starts[indices[0]];
    assert g.tokenIds == [];
    forall k | 0 <= k < |indices|
      ensures ReadAt(g, k) == Some(Contents(f)[indices[k]]) <==> Contents(f)[indices[k]] == []
    {
      var rows := Rows(f, f.starts[indices[k]], f.ends[indices[k]]);
      ToDictEmpty(rows);
      assert Contents(f)[indices[k]] == ToDict(rows);
      if rows != [] {
        assert PyIndex(0, g.starts[k]).None?;
        assert !Readable(g, g.starts[k], g.ends[k]);
      }
    }
  }

  /** Slicing, exactly: a slice that selects something reads back what the list slice would hold if
      and only if its step is positive, or it selects one position, or all it selects is empty. */
  lemma SliceExact(f: Flat, s: Slice)
    requires Valid(f) && StepOf(s) != 0 && Indices(|f.starts|, s) != []
    ensures
      var indices := Indices(|f.starts|, s);
      ReadsSelected(f, indices) <==>
        || StepOf(s) > 0
        || |indices| == 1
        || forall k | 0 <= k < |indices| :: Contents(f)[indices[k]] == []
  {
    var indices := Indices(|f.starts|, s);
    if StepOf(s) > 0 || |indices| == 1 {
      SlicedAscending(f, indices);
      forall k | 0 <= k < |indices| ensures ReadAt(Sliced(f, indices), k) == Some(Contents(f)[indices[k]]) {
        ReadAtContents(Sliced(f, indices), k);
      }
    } else {
      SlicedDescending(f, indices);
    }
  }
}
