/** The `FlatLogprobs` container of vllm/logprobs.py as an object, and whole runs of it against a plain
    list of dictionaries. */
module FlatLogprobs {
  import opened Wrappers
  import opened Logprobs

  datatype Error = IndexError | ValueError

  function ItemsOf(position: Option<Dict>): Dict {
    if position.Some? then position.value else []
  }

  function MapSeq<T, U>(f: T -> U, s: seq<T>): (r: seq<U>)
    ensures |r| == |s| && forall i | 0 <= i < |s| :: r[i] == f(s[i])
  {
    seq(|s|, i requires 0 <= i < |s| => f(s[i]))
  }

  /** The ranks given to the sampled token and then to the top tokens. */
  function RankColumn(rank: int, numLogprobs: int): seq<Option<int>> {
    [Some(rank)] + if numLogprobs <= 0 then [] else seq(numLogprobs, i requires 0 <= i < numLogprobs => Some(i + 1))
  }

  /** Dictionary branch of `append_logprobs_for_next_position`. */
  function AppendToList(
    list: seq<Dict>, tokenIds: seq<int>, logprobs: seq<real>, decodedTokens: seq<Option<string>>,
    rank: int, numLogprobs: int): seq<Dict>
  {
    var n := if numLogprobs == -1 then |logprobs| else numLogprobs;
    list + [ToDict(Zip(tokenIds, logprobs, RankColumn(rank, n), decodedTokens))]
  }

  function Least(a: int, b: int): int { if a <= b then a else b }

  /** How many items the next position gets: the sampled token and the top tokens asked for, as far as all
      columns go. */
  function ItemCount(
    tokenIds: seq<int>, logprobs: seq<real>, decodedTokens: seq<Option<string>>, numLogprobs: int): (n: nat)
  {
    var columns := Least(|tokenIds|, Least(|logprobs|, |decodedTokens|));
    if numLogprobs == -1 then columns else Least(columns, 1 + if numLogprobs < 0 then 0 else numLogprobs)
  }

  /** The next position, item by item: the sampled token comes first with its own rank, top token `j` has
      rank `j`, and logprob and text come from the same place of their columns. */
  lemma NextPositionExact(
    list: seq<Dict>, tokenIds: seq<int>, logprobs: seq<real>, decodedTokens: seq<Option<string>>,
    rank: int, numLogprobs: int)
    ensures
      var n := ItemCount(tokenIds, logprobs, decodedTokens, numLogprobs);
      var items := seq(n, j requires 0 <= j < n =>
        Item(tokenIds[j], Logprob(logprobs[j], Some(if j == 0 then rank else j), decodedTokens[j])));
      AppendToList(list, tokenIds, logprobs, decodedTokens, rank, numLogprobs) == list + [ToDict(items)]
  {
    var n := ItemCount(tokenIds, logprobs, decodedTokens, numLogprobs);
    var ranks := RankColumn(rank, if numLogprobs == -1 then |logprobs| else numLogprobs);
    var zipped := Zip(tokenIds, logprobs, ranks, decodedTokens);
    ZipLength(tokenIds, logprobs, ranks, decodedTokens);
    assert |zipped| == n;
    forall j | 0 <= j < n
      ensures zipped[j] == Item(tokenIds[j], Logprob(logprobs[j], Some(if j == 0 then rank else j), decodedTokens[j]))
    {
      ZipAt(tokenIds, logprobs, ranks, decodedTokens, j);
    }
    assert zipped == seq(n, j requires 0 <= j < n =>
      Item(tokenIds[j], Logprob(logprobs[j], Some(if j == 0 then rank else j), decodedTokens[j])));
  }

  class FlatLogprobs {
    var startIndices: seq<int>
    var endIndices: seq<int>
    var tokenIds: seq<int>
    var logprobs: seq<real>
    var ranks: seq<Option<int>>
    var decodedTokens: seq<Option<string>>

    function View(): Flat
      reads this
    {
      Flat(startIndices, endIndices, tokenIds, logprobs, ranks, decodedTokens)
    }

    constructor (f: Flat)
      ensures View() == f
    {
      startIndices, endIndices := f.starts, f.ends;
      tokenIds, logprobs, ranks, decodedTokens := f.tokenIds, f.logprobs, f.ranks, f.decodedTokens;
    }

    method AppendItem(item: Item)
      modifies this
      ensures View() == WithItems(old(View()), [item])
    {
      tokenIds := tokenIds + [item.tokenId];
      logprobs := logprobs + [item.value.logprob];
      ranks := ranks + [item.value.rank];
      decodedTokens := decodedTokens + [item.value.decodedToken];
      SingleItem(old(View()), item);
    }

    /** `append`; None reads back as the empty dictionary. */
    method Append(position: Option<Dict>)
      requires Valid(View())
      modifies this
      ensures View() == WithPosition(old(View()), ItemsOf(position))
      ensures Valid(View()) && Contents(View()) == old(Contents(View())) + [ItemsOf(position)]
    {
      ghost var before, items := View(), ItemsOf(position);
      startIndices := startIndices + [|logprobs|];
      ghost var start := View();
      if position.Some? && position.value != [] {
        for i := 0 to |position.value|
          invariant View() == WithItems(start, items[..i])
        {
          AppendItem(position.value[i]);
          WithItemsStep(start, items, i);
        }
        assert items[..|items|] == items;
      }
      endIndices := endIndices + [|logprobs|];
      WithPositionContents(before, items);
      ToDictOfDict(items);
    }

    /** `append_fast`: stops at the shortest column, lets a repeated token id overwrite. */
    method AppendFast(
      newIds: seq<int>, newLogprobs: seq<real>, newRanks: seq<Option<int>>, newTokens: seq<Option<string>>)
      requires Valid(View())
      modifies this
      ensures View() == WithPosition(old(View()), Zip(newIds, newLogprobs, newRanks, newTokens))
      ensures Valid(View())
      ensures Contents(View()) == old(Contents(View())) + [ToDict(Zip(newIds, newLogprobs, newRanks, newTokens))]
    {
      ghost var before, items := View(), Zip(newIds, newLogprobs, newRanks, newTokens);
      startIndices := startIndices + [|logprobs|];
      ghost var start := View();
      var i := 0;
      ZipLength(newIds, newLogprobs, newRanks, newTokens);
      while i < |newIds| && i < |newLogprobs| && i < |newRanks| && i < |newTokens|
        invariant i <= |items|
        invariant View() == WithItems(start, items[..i])
      {
        ZipAt(newIds, newLogprobs, newRanks, newTokens, i);
        AppendItem(Item(newIds[i], Logprob(newLogprobs[i], newRanks[i], newTokens[i])));
        WithItemsStep(start, items, i);
        i := i + 1;
      }
      assert items[..i] == items;
      endIndices := endIndices + [|logprobs|];
      WithPositionContents(before, items);
    }

    /** `extend` */
    method Extend(positions: seq<Option<Dict>>)
      requires Valid(View())
      modifies this
      ensures Valid(View()) && Contents(View()) == old(Contents(View())) + MapSeq(ItemsOf, positions)
    {
      for i := 0 to |positions|
        invariant Valid(View()) && Contents(View()) == old(Contents(View())) + MapSeq(ItemsOf, positions[..i])
      {
        Append(positions[i]);
        assert MapSeq(ItemsOf, positions[..i + 1]) == MapSeq(ItemsOf, positions[..i]) + [ItemsOf(positions[i])];
      }
      assert positions[..|positions|] == positions;
    }

    /** `__getitem__` of a position; negative positions count from the end. */
    method GetItem(position: int) returns (r: Option<Dict>)
      requires Columned(View())
      ensures r == var k := PyIndex(|startIndices|, position); if k.None? then None else ReadAt(View(), k.value)
      ensures Valid(View()) ==>
        var n, list := |startIndices|, Contents(View());
        r == if 0 <= position < n then Some(list[position])
             else if -n <= position < 0 then Some(list[n + position])
             else None
    {
      var k := PyIndex(|startIndices|, position);
      if k.None? {
        return None;
      }
      var lo, hi := startIndices[k.value], endIndices[k.value];
      var d: Dict := [];
      var i := lo;
      while i < hi
        invariant lo <= i <= hi || (hi < lo && i == lo)
        invariant Readable(View(), lo, i) && d == ToDict(PyRows(View(), lo, i))
      {
        var column := PyIndex(|tokenIds|, i);
        if column.None? {
          assert !Readable(View(), lo, hi);
          return None;
        }
        PyRowsStep(View(), lo, i);
        var c := column.value;
        d := Put(d, Item(tokenIds[c], Logprob(logprobs[c], ranks[c], decodedTokens[c])));
        i := i + 1;
      }
      r := Some(d);
      if Valid(View()) {
        ReadAtContents(View(), k.value);
      }
    }

    /** `__getitem__` of a slice: a new container. */
    method GetSlice(s: Slice) returns (r: Result<FlatLogprobs, Error>)
      requires Valid(View())
      ensures StepOf(s) == 0 <==> r == Err(ValueError)
      ensures StepOf(s) != 0 && Indices(|startIndices|, s) == [] <==> r == Err(IndexError)
      ensures r.Ok? ==> fresh(r.value) && r.value.View() == Sliced(View(), Indices(|startIndices|, s))
      ensures r.Ok? && StepOf(s) > 0 ==>
        && Valid(r.value.View())
        && Contents(r.value.View()) == Select(Contents(View()), Indices(|startIndices|, s))
    {
      if StepOf(s) == 0 {
        return Err(ValueError);
      }
      var indices := Indices(|startIndices|, s);
      if indices == [] {
        return Err(IndexError);
      }
      var starts, ends := Select(startIndices, indices), Select(endIndices, indices);
      var lo, hi := starts[0], ends[|ends| - 1];
      var slice := new FlatLogprobs(Flat(
        Shift(starts, lo), Shift(ends, lo),
        Cut(tokenIds, lo, hi), Cut(logprobs, lo, hi), Cut(ranks, lo, hi), Cut(decodedTokens, lo, hi)));
      if StepOf(s) > 0 {
        SlicedAscending(View(), indices);
      }
      r := Ok(slice);
    }

    /** `__iter__`, run to its end. */
    method ToList() returns (r: seq<Dict>)
      requires Valid(View())
      ensures r == Contents(View())
    {
      r := [];
      for i := 0 to |startIndices|
        invariant r == Contents(View())[..i]
      {
        ReadAtContents(View(), i);
        var d := GetItem(i);
        r := r + [d.value];
      }
    }

    /** Flat branch of `append_logprobs_for_next_position`. */
    method AppendNextPosition(
      newIds: seq<int>, newLogprobs: seq<real>, newTokens: seq<Option<string>>, rank: int, numLogprobs: int)
      requires Valid(View())
      modifies this
      ensures Valid(View())
      ensures Contents(View()) == AppendToList(old(Contents(View())), newIds, newLogprobs, newTokens, rank, numLogprobs)
    {
      var n := if numLogprobs == -1 then |newLogprobs| else numLogprobs;
      AppendFast(newIds, newLogprobs, RankColumn(rank, n), newTokens);
    }
  }

  // ----- small facts about the columns

  lemma SingleItem(f: Flat, item: Item)
    ensures
      var g := WithItems(f, [item]);
      && g.tokenIds == f.tokenIds + [item.tokenId]
      && g.logprobs == f.logprobs + [item.value.logprob]
      && g.ranks == f.ranks + [item.value.rank]
      && g.decodedTokens == f.decodedTokens + [item.value.decodedToken]
  {}

  lemma WithItemsStep(f: Flat, items: seq<Item>, i: nat)
    requires i < |items|
    ensures WithItems(f, items[..i + 1]) == WithItems(WithItems(f, items[..i]), [items[i]])
  {
    var g, h := WithItems(f, items[..i + 1]), WithItems(WithItems(f, items[..i]), [items[i]]);
    assert g.tokenIds == h.tokenIds && g.logprobs == h.logprobs;
    assert g.ranks == h.ranks && g.decodedTokens == h.decodedTokens;
  }

  lemma ZipLength(
    tokenIds: seq<int>, logprobs: seq<real>, ranks: seq<Option<int>>, decodedTokens: seq<Option<string>>)
    ensures
      var n := |Zip(tokenIds, logprobs, ranks, decodedTokens)|;
      n == |tokenIds| || n == |logprobs| || n == |ranks| || n == |decodedTokens|
  {}

  lemma {:induction false} ZipAt(
    tokenIds: seq<int>, logprobs: seq<real>, ranks: seq<Option<int>>, decodedTokens: seq<Option<string>>, i: nat)
    requires i < |tokenIds| && i < |logprobs| && i < |ranks| && i < |decodedTokens|
    ensures i < |Zip(tokenIds, logprobs, ranks, decodedTokens)|
    ensures Zip(tokenIds, logprobs, ranks, decodedTokens)[i] ==
            Item(tokenIds[i], Logprob(logprobs[i], ranks[i], decodedTokens[i]))
  {
    if i > 0 {
      ZipAt(tokenIds[1..], logprobs[1..], ranks[1..], decodedTokens[1..], i - 1);
    }
  }

  lemma PyRowsStep(f: Flat, lo: int, i: int)
    requires Columned(f) && lo <= i && Readable(f, lo, i) && PyIndex(|f.tokenIds|, i).Some?
    ensures Readable(f, lo, i + 1)
    ensures ToDict(PyRows(f, lo, i + 1)) ==
            Put(ToDict(PyRows(f, lo, i)), ItemAt(f, PyIndex(|f.tokenIds|, i).value))
  {
    assert PyRows(f, lo, i + 1)[..i - lo] == PyRows(f, lo, i);
  }

  // ----- whole runs

  datatype Op =
    | Append(position: Option<Dict>)
    | AppendFast(tokenIds: seq<int>, logprobs: seq<real>, ranks: seq<Option<int>>, decodedTokens: seq<Option<string>>)
    | Extend(positions: seq<Option<Dict>>)
    | TakeSlice(slice: Slice)

  /** The same operation on a list of dictionaries. */
  function OnList(op: Op, list: seq<Dict>): seq<Dict>
    requires op.TakeSlice? ==> StepOf(op.slice) > 0
  {
    match op
    case Append(position) => list + [ItemsOf(position)]
    case AppendFast(ids, logprobs, ranks, tokens) => list + [ToDict(Zip(ids, logprobs, ranks, tokens))]
    case Extend(positions) => list + MapSeq(ItemsOf, positions)
    case TakeSlice(slice) => Select(list, Indices(|list|, slice))
  }

  /** A run on a list of dictionaries; None once a slice selects nothing. */
  function AllOnList(ops: seq<Op>, list: seq<Dict>): Option<seq<Dict>>
    requires forall op | op in ops :: op.TakeSlice? ==> StepOf(op.slice) > 0
  {
    if ops == [] then Some(list)
    else if ops[0].TakeSlice? && OnList(ops[0], list) == [] then None
    else AllOnList(ops[1..], OnList(ops[0], list))
  }

  method Apply(flat: FlatLogprobs, op: Op) returns (r: Result<FlatLogprobs, Error>)
    requires Valid(flat.View()) && (op.TakeSlice? ==> StepOf(op.slice) > 0)
    modifies flat
    ensures r == Err(IndexError) <==> op.TakeSlice? && OnList(op, old(Contents(flat.View()))) == []
    ensures r != Err(ValueError)
    ensures r.Ok? ==>
      && (r.value == flat || fresh(r.value))
      && Valid(r.value.View())
      && Contents(r.value.View()) == OnList(op, old(Contents(flat.View())))
  {
    r := Ok(flat);
    match op
    case Append(position) => flat.Append(position);
    case AppendFast(ids, logprobs, ranks, tokens) => flat.AppendFast(ids, logprobs, ranks, tokens);
    case Extend(positions) => flat.Extend(positions);
    case TakeSlice(slice) => r := flat.GetSlice(slice);
  }

  /** Any run of appends, extends and positive-step slices, also slices of slices and appends after
      slices, reads as the list of dictionaries would, unless a slice selects nothing. */
  method Run(ops: seq<Op>) returns (r: Result<FlatLogprobs, Error>)
    requires forall op | op in ops :: op.TakeSlice? ==> StepOf(op.slice) > 0
    ensures r == Err(IndexError) <==> AllOnList(ops, []).None?
    ensures r != Err(ValueError)
    ensures r.Ok? ==> Valid(r.value.View()) && AllOnList(ops, []) == Some(Contents(r.value.View()))
  {
    var flat := new FlatLogprobs(Flat([], [], [], [], [], []));
    for i := 0 to |ops|
      invariant fresh(flat) && Valid(flat.View())
      invariant AllOnList(ops, []) == AllOnList(ops[i..], Contents(flat.View()))
    {
      ghost var list := Contents(flat.View());
      assert ops[i..][0] == ops[i] && ops[i..][1..] == ops[i + 1..];
      var next := Apply(flat, ops[i]);
      if next.Err? {
        assert next.error == IndexError && AllOnList(ops[i..], list).None?;
        return next;
      }
      flat := next.value;
    }
    r := Ok(flat);
  }
}
