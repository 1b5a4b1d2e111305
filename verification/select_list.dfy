/** `SelectList`: a list of items narrowed by a case-insensitive filter, followed
    by "extra" options, with one selection that wraps around over both groups. */
module SelectListWidget {
  import opened Options
  import opened Strings
  import opened Keys

  /** What Enter picked: an index into the ORIGINAL items, or into the extras. */
  datatype SelectResult = Item(index: nat) | Extra(index: nat)

  datatype Action = Selected(result: SelectResult) | Cancel | Continue | Terminate(status: int)

  datatype SelectList = SelectList(
    labelText: string,
    items: seq<string>,
    extras: seq<string>,
    filter: string,
    filtered: seq<nat>,      // indices into `items` that pass the filter
    selected: Option<nat>)   // index into the filtered items followed by the extras

  /** An item passes the filter when its lowercase form contains the filter's. */
  predicate Matches(item: string, filter: string) {
    Contains(Lower(item), Lower(filter))
  }

  function FilterFrom(items: seq<string>, filter: string, j: nat): (r: seq<nat>)
    requires j <= |items|
    ensures forall a :: 0 <= a < |r| ==> j <= r[a] < |items| && Matches(items[r[a]], filter)
    decreases |items| - j
  {
    if j == |items| then []
    else if Matches(items[j], filter) then [j] + FilterFrom(items, filter, j + 1)
    else FilterFrom(items, filter, j + 1)
  }

  /** The indices of the items that pass `filter`, in their original order. */
  function FilterIndices(items: seq<string>, filter: string): (r: seq<nat>)
    ensures forall a, b :: 0 <= a < b < |r| ==> r[a] < r[b]
    ensures forall a :: 0 <= a < |r| ==> r[a] < |items|
    ensures forall k: nat :: k in r <==> k < |items| && Matches(items[k], filter)
  {
    var r := FilterFrom(items, filter, 0);
    FilterFromSorted(items, filter, 0);
    FilterFromComplete(items, filter, 0);
    assert Increasing(r);
    r
  }

  predicate Increasing(r: seq<nat>) {
    forall a, b :: 0 <= a < b < |r| ==> r[a] < r[b]
  }

  lemma IncreasingCons(j: nat, rest: seq<nat>)
    requires Increasing(rest) && forall a :: 0 <= a < |rest| ==> j < rest[a]
    ensures Increasing([j] + rest)
  {
    var r := [j] + rest;
    forall a, b | 0 <= a < b < |r|
      ensures r[a] < r[b]
    {
      assert r[b] == rest[b - 1];
      if a > 0 {
        assert r[a] == rest[a - 1];
      }
    }
  }

  lemma FilterFromUnfold(items: seq<string>, filter: string, j: nat)
    requires j < |items|
    ensures FilterFrom(items, filter, j)
            == (if Matches(items[j], filter) then [j] else []) + FilterFrom(items, filter, j + 1)
  {
  }

  /** Every index from `j` on whose item passes is kept. */
  lemma {:induction false} FilterFromComplete(items: seq<string>, filter: string, j: nat)
    requires j <= |items|
    ensures forall k :: j <= k < |items| && Matches(items[k], filter) ==> k in FilterFrom(items, filter, j)
    decreases |items| - j
  {
    if j < |items| {
      FilterFromComplete(items, filter, j + 1);
      FilterFromUnfold(items, filter, j);
    }
  }

  /** The kept indices are strictly increasing. */
  lemma {:induction false} FilterFromSorted(items: seq<string>, filter: string, j: nat)
    requires j <= |items|
    ensures Increasing(FilterFrom(items, filter, j))
    decreases |items| - j
  {
    if j < |items| {
      var rest := FilterFrom(items, filter, j + 1);
      FilterFromSorted(items, filter, j + 1);
      FilterFromUnfold(items, filter, j);
      if Matches(items[j], filter) {
        IncreasingCons(j, rest);
      } else {
        assert [] + rest == rest;
      }
    }
  }

  /** `0..n` collected into a vector. */
  function Range(n: nat): (r: seq<nat>)
    ensures |r| == n && forall i :: 0 <= i < n ==> r[i] == i
  {
    seq(n, i requires 0 <= i < n => i)
  }

  lemma MatchesEmptyFilter(item: string)
    ensures Matches(item, "")
  {
    assert Lower("") == "";
    assert StartsWith(Lower(item), "");
  }

  /** `j, j+1, ..., j+n-1`. */
  predicate Consecutive(r: seq<nat>, j: nat) {
    forall i :: 0 <= i < |r| ==> r[i] == j + i
  }

  lemma ConsecutiveCons(j: nat, rest: seq<nat>)
    requires Consecutive(rest, j + 1)
    ensures Consecutive([j] + rest, j)
  {
    var r := [j] + rest;
    forall i | 0 < i < |r|
      ensures r[i] == j + i
    {
      assert r[i] == rest[i - 1];
    }
  }

  /** A filter every remaining item passes keeps them all... */
  lemma {:induction false} FilterFromAllLength(items: seq<string>, filter: string, j: nat)
    requires j <= |items|
    requires forall k :: j <= k < |items| ==> Matches(items[k], filter)
    ensures |FilterFrom(items, filter, j)| == |items| - j
    decreases |items| - j
  {
    if j < |items| {
      assert Matches(items[j], filter);
      FilterFromUnfold(items, filter, j);
      FilterFromAllLength(items, filter, j + 1);
    }
  }

  /** ...in order. */
  lemma {:induction false} FilterFromAllInOrder(items: seq<string>, filter: string, j: nat)
    requires j <= |items|
    requires forall k :: j <= k < |items| ==> Matches(items[k], filter)
    ensures Consecutive(FilterFrom(items, filter, j), j)
    decreases |items| - j
  {
    if j < |items| {
      assert Matches(items[j], filter);
      FilterFromUnfold(items, filter, j);
      FilterFromAllInOrder(items, filter, j + 1);
      ConsecutiveCons(j, FilterFrom(items, filter, j + 1));
    }
  }

  /** The empty filter keeps every item, in order. */
  lemma EmptyFilterKeepsAll(items: seq<string>)
    ensures FilterIndices(items, "") == Range(|items|)
  {
    forall k | 0 <= k < |items|
      ensures Matches(items[k], "")
    {
      MatchesEmptyFilter(items[k]);
    }
    FilterFromAllLength(items, "", 0);
    FilterFromAllInOrder(items, "", 0);
    assert Consecutive(FilterIndices(items, ""), 0);
    assert forall i :: 0 <= i < |items| ==> FilterIndices(items, "")[i] == Range(|items|)[i];
  }

  /** Number of selectable entries: the filtered items plus the extras. */
  function Total(l: SelectList): nat {
    |l.filtered| + |l.extras|
  }

  /** The first entry when there is one, else no selection. */
  function FirstEntry(total: nat): (s: Option<nat>)
    ensures s.None? <==> total == 0
    ensures s.Some? ==> s.value == 0
  {
    if total > 0 then Some(0) else None
  }

  /** The widget invariant: the filtered indices are those of the current
      filter, and the selection is absent exactly when there is nothing to
      select, and otherwise names an entry. */
  predicate Valid(l: SelectList) {
    && l.filtered == FilterIndices(l.items, l.filter)
    && (l.selected.None? <==> Total(l) == 0)
    && (l.selected.Some? ==> l.selected.value < Total(l))
  }

  function New(labelText: string, items: seq<string>, extras: seq<string>): (l: SelectList)
    ensures Valid(l) && l.items == items && l.extras == extras && l.filter == ""
    ensures l.filtered == Range(|items|)
    ensures l.selected == (if |items| > 0 || |extras| > 0 then Some(0) else None)
  {
    EmptyFilterKeepsAll(items);
    var filtered := Range(|items|);
    SelectList(labelText, items, extras, "", filtered,
               if |filtered| > 0 || |extras| > 0 then Some(0) else None)
  }

  /** Sets the filter, recomputes the filtered indices, and resets the
      selection to the first entry. */
  function UpdateFilter(l: SelectList, filter: string): (r: SelectList)
    ensures Valid(r) && r.filter == filter
    ensures r.labelText == l.labelText && r.items == l.items && r.extras == l.extras
    ensures r.selected == FirstEntry(Total(r))
  {
    var filtered := FilterIndices(l.items, filter);
    l.(filter := filter, filtered := filtered,
       selected := if |filtered| + |l.extras| > 0 then Some(0) else None)
  }

  /** `String::pop`: drops the last character, if any. */
  function Pop(s: string): (r: string)
    ensures |s| > 0 ==> r + [s[|s| - 1]] == s
    ensures |s| == 0 ==> r == s
  {
    if |s| == 0 then s else s[..|s| - 1]
  }

  /** Moves the selection one entry up, wrapping from the first to the last. */
  function MoveUp(l: SelectList): (r: SelectList)
    requires Valid(l)
    ensures Valid(r) && r == l.(selected := r.selected)
    ensures Total(l) == 0 ==> r == l
    ensures Total(l) > 0 ==> r.selected == Some((l.selected.value + Total(l) - 1) % Total(l))
  {
    var total := Total(l);
    if total == 0 then l
    else
      var current := l.selected.GetOr(0);
      WrapUp(current, total);
      l.(selected := Some(if current == 0 then total - 1 else current - 1))
  }

  lemma WrapUp(c: nat, t: nat)
    requires c < t
    ensures (c + t - 1) % t == if c == 0 then t - 1 else c - 1
  {
    if c > 0 {
      assert c + t - 1 == (c - 1) + t;
    }
  }

  lemma WrapDown(c: nat, t: nat)
    requires c < t
    ensures (c + 1) % t == if c + 1 >= t then 0 else c + 1
  {
  }

  /** Moves the selection one entry down, wrapping from the last to the first. */
  function MoveDown(l: SelectList): (r: SelectList)
    requires Valid(l)
    ensures Valid(r) && r == l.(selected := r.selected)
    ensures Total(l) == 0 ==> r == l
    ensures Total(l) > 0 ==> r.selected == Some((l.selected.value + 1) % Total(l))
  {
    var total := Total(l);
    if total == 0 then l
    else
      var current := l.selected.GetOr(0);
      WrapDown(current, total);
      l.(selected := Some(if current + 1 >= total then 0 else current + 1))
  }

  /** The entry at selection index `sel`: a filtered item (by original index)
      or an extra option. */
  function EntryAt(l: SelectList, sel: nat): (r: SelectResult)
    requires sel < Total(l)
  {
    if sel < |l.filtered| then Item(l.filtered[sel]) else Extra(sel - |l.filtered|)
  }

  function HandleEvent(l: SelectList, e: Event): (r: (SelectList, Action))
    requires Valid(l)
    ensures Valid(r.0) && r.0.items == l.items && r.0.extras == l.extras
    ensures IsInterrupt(e) ==> r == (l, Terminate(InterruptStatus))
    ensures r.1.Selected? ==> IsKey(e, Enter) && r.0 == l && l.selected.Some?
    ensures r.1.Selected? && r.1.result.Item? ==>
              r.1.result.index < |l.items| && Matches(l.items[r.1.result.index], l.filter)
    ensures r.1.Selected? && r.1.result.Extra? ==> r.1.result.index < |l.extras|
    ensures !IsInterrupt(e) && IsKey(e, Enter) ==>
              r == (l, if l.selected.Some? then Selected(EntryAt(l, l.selected.value)) else Continue)
    ensures !IsInterrupt(e) && IsKey(e, Esc) ==> r == (l, Cancel)
    ensures r.1 == Cancel ==> IsKey(e, Esc)
    ensures !IsInterrupt(e) && IsKey(e, Up) ==> r == (MoveUp(l), Continue)
    ensures !IsInterrupt(e) && IsKey(e, Down) ==> r == (MoveDown(l), Continue)
    ensures !IsInterrupt(e) && e.Key? && e.code.Char? ==>
              r == (UpdateFilter(l, l.filter + [e.code.c]), Continue)
    ensures !IsInterrupt(e) && IsKey(e, Backspace) ==> r == (UpdateFilter(l, Pop(l.filter)), Continue)
    ensures (e.NonKey? || e.code in {Delete, Left, Right, Home, End, Tab, OtherKey}) ==> r == (l, Continue)
  {
    match e
    case NonKey => (l, Continue)
    case Key(code, _) =>
      if IsInterrupt(e) then (l, Terminate(InterruptStatus))
      else
        match code
        case Enter =>
          (match l.selected
           case Some(sel) =>
             var count := |l.filtered|;
             if sel < count then (l, Selected(Item(l.filtered[sel])))
             else (l, Selected(Extra(sel - count)))
           case None => (l, Continue))
        case Esc => (l, Cancel)
        case Up => (MoveUp(l), Continue)
        case Down => (MoveDown(l), Continue)
        case Backspace => (UpdateFilter(l, Pop(l.filter)), Continue)
        case Char(c) => (UpdateFilter(l, l.filter + [c]), Continue)
        case _ => (l, Continue)
  }

  // ---------------------------------------------------------------- rendering

  /** One row of the rendered list. */
  datatype Row = ItemRow(index: nat) | SeparatorRow | ExtraRow(index: nat)

  /** 1 when a separator row is drawn between the two groups, else 0. */
  function SeparatorCount(l: SelectList): nat {
    if |l.extras| > 0 && |l.filtered| > 0 then 1 else 0
  }

  /** The rows the list draws: the filtered items, a separator when both
      groups are present, then the extras. */
  function Rows(l: SelectList): (rows: seq<Row>)
    ensures |rows| == Total(l) + SeparatorCount(l)
  {
    seq(|l.filtered|, i requires 0 <= i < |l.filtered| => ItemRow(l.filtered[i]))
    + (if SeparatorCount(l) == 1 then [SeparatorRow] else [])
    + seq(|l.extras|, i requires 0 <= i < |l.extras| => ExtraRow(i))
  }

  /** The row an entry is drawn on. */
  function RowOf(r: SelectResult): Row {
    match r
    case Item(i) => ItemRow(i)
    case Extra(i) => ExtraRow(i)
  }

  /** The row the highlight is drawn on, shifted past the separator for the
      extras; it is always the row of the selected entry, never the separator. */
  function VisualSelection(l: SelectList): (v: Option<nat>)
    requires Valid(l)
    ensures v.None? <==> l.selected.None?
    ensures v.Some? ==> v.value < |Rows(l)| && Rows(l)[v.value] == RowOf(EntryAt(l, l.selected.value))
    ensures v.Some? ==> Rows(l)[v.value] != SeparatorRow
  {
    match l.selected
    case None => None
    case Some(sel) =>
      var v := if sel < |l.filtered| then sel else sel + SeparatorCount(l);
      RowAt(l, v);
      Some(v)
  }

  /** Row `k` is an item row, the separator or an extra row, by position. */
  lemma RowAt(l: SelectList, k: nat)
    requires k < |Rows(l)|
    ensures Rows(l)[k] == if k < |l.filtered| then ItemRow(l.filtered[k])
                          else if k < |l.filtered| + SeparatorCount(l) then SeparatorRow
                          else ExtraRow(k - |l.filtered| - SeparatorCount(l))
  {
    var items := seq(|l.filtered|, i requires 0 <= i < |l.filtered| => ItemRow(l.filtered[i]));
    var sep: seq<Row> := if SeparatorCount(l) == 1 then [SeparatorRow] else [];
    var extras := seq(|l.extras|, i requires 0 <= i < |l.extras| => ExtraRow(i));
    assert Rows(l) == items + sep + extras;
    if k < |items| {
      assert (items + sep + extras)[k] == items[k];
    } else if k < |items| + |sep| {
      assert (items + sep + extras)[k] == sep[k - |items|];
    } else {
      assert (items + sep + extras)[k] == extras[k - |items| - |sep|];
    }
  }

  // ---------------------------------------------------------------- properties

  /** Up undoes Down and Down undoes Up. */
  lemma MoveDownThenUp(l: SelectList)
    requires Valid(l)
    ensures MoveUp(MoveDown(l)) == l
  {
  }

  lemma MoveUpThenDown(l: SelectList)
    requires Valid(l)
    ensures MoveDown(MoveUp(l)) == l
  {
  }

  /** Enter picks exactly what the highlighted row shows. */
  lemma EnterPicksHighlightedRow(l: SelectList)
    requires Valid(l) && l.selected.Some?
    ensures var v := VisualSelection(l).value;
            exists s :: HandleEvent(l, Press(Enter)).1 == Selected(s) && RowOf(s) == Rows(l)[v]
  {
    var s := EntryAt(l, l.selected.value);
    assert HandleEvent(l, Press(Enter)).1 == Selected(s);
  }

  /** A filter that no item contains leaves only the extras selectable. */
  lemma UnmatchedFilter(l: SelectList, filter: string)
    requires forall k :: 0 <= k < |l.items| ==> !Matches(l.items[k], filter)
    ensures UpdateFilter(l, filter).filtered == []
    ensures UpdateFilter(l, filter).selected == (if |l.extras| > 0 then Some(0) else None)
  {
    HeadIsMember(UpdateFilter(l, filter).filtered);
  }

  lemma HeadIsMember(r: seq<nat>)
    ensures |r| > 0 ==> r[0] in r
  {
  }

  /** Typing a character and erasing it restores the filter and its matches,
      with the selection back on the first entry. */
  lemma TypeThenErase(l: SelectList, c: char)
    requires Valid(l)
    ensures var l1 := HandleEvent(l, Press(Char(c))).0;
            var l2 := HandleEvent(l1, Press(Backspace)).0;
            l2.filter == l.filter && l2.filtered == l.filtered && l2.selected == FirstEntry(Total(l))
  {
    assert Pop(l.filter + [c]) == l.filter;
  }
}
