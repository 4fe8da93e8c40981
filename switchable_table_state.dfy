/**
 * The cursor of a table whose length is only known at the call
 * (src/switchable_table_state.rs). With no count, or a count of zero,
 * moving does nothing; otherwise it wraps around like the list cursor.
 */
module TableStates {
  import opened Wrappers
  import opened StatefulLists

  /** The selection after `next(items_count)`. */
  function TableNext(selected: Option<nat>, itemsCount: Option<nat>): (r: Option<nat>)
    ensures itemsCount.GetOr(0) == 0 ==> r == selected
    ensures itemsCount.GetOr(0) > 0 ==> r.Some? && r.value < itemsCount.value
  {
    if itemsCount.GetOr(0) > 0 then
      Some(match selected
           case Some(i) => if i >= itemsCount.GetOr(0) - 1 then 0 else i + 1
           case None => 0)
    else selected
  }

  /** The selection after `previous(items_count)`. */
  function TablePrevious(selected: Option<nat>, itemsCount: Option<nat>): (r: Option<nat>)
    ensures itemsCount.GetOr(0) == 0 ==> r == selected
    ensures itemsCount.GetOr(0) > 0 && (selected.None? || selected.value < itemsCount.value) ==>
              r.Some? && r.value < itemsCount.value
  {
    if itemsCount.GetOr(0) > 0 then
      Some(match selected
           case Some(i) => if i != 0 then i - 1 else itemsCount.GetOr(0) - 1
           case None => 0)
    else selected
  }

  /**
   * With a positive count the table cursor moves exactly like the list
   * cursor on a list of that length: from no selection to 0, forwards from
   * the last index (or beyond) to 0, backwards from 0 to the last index.
   */
  lemma {:induction false} TableMovesLikeList(selected: Option<nat>, n: nat)
    requires n > 0
    ensures TableNext(selected, Some(n)) == Some(NextIndex(selected, n))
    ensures TablePrevious(selected, Some(n)) == Some(PreviousIndex(selected, n))
  {
    match selected
    case None =>
    case Some(i) =>
      if i >= n - 1 {
        assert TableNext(selected, Some(n)) == Some(0);
      } else {
        assert TableNext(selected, Some(n)) == Some(i + 1);
      }
  }

  /** From an in-range cursor, `previous` undoes `next`. */
  lemma TablePreviousAfterNext(i: nat, n: nat)
    requires i < n
    ensures TablePrevious(TableNext(Some(i), Some(n)), Some(n)) == Some(i)
  {
    TableMovesLikeList(Some(i), n);
    TableMovesLikeList(Some(NextIndex(Some(i), n)), n);
    PreviousAfterNext(i, n);
  }

  /** The selection after `k` calls of `next` with the same count. */
  function TableNextIterate(selected: Option<nat>, itemsCount: Option<nat>, k: nat): Option<nat>
    decreases k
  {
    if k == 0 then selected else TableNextIterate(TableNext(selected, itemsCount), itemsCount, k - 1)
  }

  lemma {:induction false} TableIterateLikeList(selected: Option<nat>, n: nat, k: nat)
    requires n > 0 && selected.Some?
    ensures TableNextIterate(selected, Some(n), k) == NextIterate(selected, n, k)
    decreases k
  {
    if k > 0 {
      TableMovesLikeList(selected, n);
      TableIterateLikeList(Some(NextIndex(selected, n)), n, k - 1);
    }
  }

  /** `n` calls of `next` with count `n` bring an in-range cursor back. */
  lemma TableNextCycle(i: nat, n: nat)
    requires i < n
    ensures TableNextIterate(Some(i), Some(n), n) == Some(i)
  {
    TableIterateLikeList(Some(i), n, n);
    NextCycle(i, n);
  }

  class SwitchableTableState {
    /** The wrapped `TableState`'s selection. */
    var selected: Option<nat>

    /** `new`: nothing selected. */
    constructor New()
      ensures selected == None
    {
      selected := None;
    }

    method Next(itemsCount: Option<nat>)
      modifies this
      ensures selected == TableNext(old(selected), itemsCount)
    {
      if itemsCount.GetOr(0) > 0 {
        selected := Some(match selected
          case Some(i) => if i >= itemsCount.GetOr(0) - 1 then 0 else i + 1
          case None => 0);
      }
    }

    method Previous(itemsCount: Option<nat>)
      modifies this
      ensures selected == TablePrevious(old(selected), itemsCount)
    {
      if itemsCount.GetOr(0) > 0 {
        selected := Some(match selected
          case Some(i) => if i != 0 then i - 1 else itemsCount.GetOr(0) - 1
          case None => 0);
      }
    }
  }
}
