/**
 * The Pokémon list (src/stateful_list.rs): a backing vector, the vector that
 * is shown, and a selection cursor that `next` and `previous` move with
 * wrap-around.
 */
module StatefulLists {
  import opened Wrappers

  /**
   * The selection `next` moves to on a list of `len` items. From a set
   * cursor the source computes `len - 1` in `usize`, so the list must then
   * be non-empty; with no cursor it selects the first item whatever `len`.
   */
  function NextIndex(selected: Option<nat>, len: nat): (r: nat)
    requires selected.Some? ==> len > 0
    ensures len > 0 ==> r < len
    ensures selected.None? ==> r == 0
    ensures selected.Some? && selected.value < len - 1 ==> r == selected.value + 1
    ensures selected.Some? && selected.value >= len - 1 ==> r == 0
  {
    match selected
    case None => 0
    case Some(i) => if i >= len - 1 then 0 else i + 1
  }

  /**
   * The selection `previous` moves to on a list of `len` items. Only the
   * wrap from the first item computes `len - 1`, so only that case needs a
   * non-empty list.
   */
  function PreviousIndex(selected: Option<nat>, len: nat): (r: nat)
    requires selected == Some(0) ==> len > 0
    ensures selected.None? ==> r == 0
    ensures selected == Some(0) ==> r == len - 1
    ensures selected.Some? && selected.value > 0 ==> r == selected.value - 1
    ensures selected.Some? && selected.value < len ==> r < len
  {
    match selected
    case None => 0
    case Some(i) => if i == 0 then len - 1 else i - 1
  }

  /** From a cursor in range, `previous` undoes `next`. */
  lemma PreviousAfterNext(i: nat, len: nat)
    requires i < len
    ensures PreviousIndex(Some(NextIndex(Some(i), len)), len) == i
  {
  }

  /** From a cursor in range, `next` undoes `previous`. */
  lemma NextAfterPrevious(i: nat, len: nat)
    requires i < len
    ensures NextIndex(Some(PreviousIndex(Some(i), len)), len) == i
  {
  }

  /** The selection after `k` calls of `next`. */
  function NextIterate(selected: Option<nat>, len: nat, k: nat): (r: Option<nat>)
    requires len > 0
    decreases k
  {
    if k == 0 then selected else NextIterate(Some(NextIndex(selected, len)), len, k - 1)
  }

  lemma {:induction false} NextIterateAdd(selected: Option<nat>, len: nat, a: nat, b: nat)
    requires len > 0
    ensures NextIterate(selected, len, a + b) == NextIterate(NextIterate(selected, len, a), len, b)
    decreases a
  {
    if a > 0 {
      NextIterateAdd(Some(NextIndex(selected, len)), len, a - 1, b);
    }
  }

  /** Without reaching the end, `k` calls of `next` advance the cursor by `k`. */
  lemma {:induction false} NextIterateAdvances(i: nat, len: nat, k: nat)
    requires i + k < len
    ensures NextIterate(Some(i), len, k) == Some(i + k)
    decreases k
  {
    if k > 0 {
      NextIterateAdvances(i + 1, len, k - 1);
    }
  }

  /** `len` calls of `next` bring an in-range cursor back to where it started. */
  lemma NextCycle(i: nat, len: nat)
    requires i < len
    ensures NextIterate(Some(i), len, len) == Some(i)
  {
    var toEnd := len - 1 - i;
    NextIterateAdd(Some(i), len, toEnd, 1 + i);
    NextIterateAdvances(i, len, toEnd);
    NextIterateAdd(Some(len - 1), len, 1, i);
    NextIterateAdvances(0, len, i);
  }

  class StatefulList<T> {
    /** `state.selected()`. */
    var selected: Option<nat>
    var items: seq<T>
    var itemsToRender: seq<T>

    /** Whether the cursor points at an item that is shown. */
    ghost predicate CursorInRange()
      reads this
    {
      selected.Some? && selected.value < |itemsToRender|
    }

    /** `with_items`: both vectors hold the items and the first is selected, even in an empty list. */
    constructor WithItems(items: seq<T>)
      ensures this.items == items && itemsToRender == items
      ensures selected == Some(0)
      ensures items != [] ==> CursorInRange()
    {
      this.items := items;
      itemsToRender := items;
      selected := Some(0);
    }

    /** `next`: advance with wrap-around; only the selection changes. */
    method Next()
      requires selected.Some? ==> |itemsToRender| > 0
      modifies this`selected
      ensures selected == Some(NextIndex(old(selected), |itemsToRender|))
      ensures |itemsToRender| > 0 ==> CursorInRange()
      ensures items == old(items) && itemsToRender == old(itemsToRender)
    {
      var i := match selected
        case Some(i) => if i >= |itemsToRender| - 1 then 0 else i + 1
        case None => 0;
      selected := Some(i);
    }

    /** `previous`: step back with wrap-around; only the selection changes. */
    method Previous()
      requires selected == Some(0) ==> |itemsToRender| > 0
      modifies this`selected
      ensures selected == Some(PreviousIndex(old(selected), |itemsToRender|))
      ensures old(CursorInRange()) || (old(selected).None? && |itemsToRender| > 0) ==> CursorInRange()
      ensures items == old(items) && itemsToRender == old(itemsToRender)
    {
      var i := match selected
        case Some(i) => if i == 0 then |itemsToRender| - 1 else i - 1
        case None => 0;
      selected := Some(i);
    }

    /** `get_selected`: the shown item under the cursor, if the cursor is set and in range. */
    method GetSelected() returns (r: Option<T>)
      ensures r.Some? <==> selected.Some? && selected.value < |itemsToRender|
      ensures r.Some? ==> r.value == itemsToRender[selected.value]
    {
      r := None;
      if selected.Some? && selected.value < |itemsToRender| {
        r := Some(itemsToRender[selected.value]);
      }
    }
  }

  /** A client: on a non-empty list, `next` then `previous` leaves the cursor where it was. */
  method NextThenPrevious<T>(list: StatefulList<T>)
    requires |list.itemsToRender| > 0 && list.CursorInRange()
    modifies list`selected
    ensures list.selected == old(list.selected)
  {
    list.Next();
    list.Previous();
    PreviousAfterNext(old(list.selected).value, |list.itemsToRender|);
  }
}
