/**
 * The sort state of the `CurrencyTable` component and the handlers that
 * change it.
 *
 * The component keeps four pieces of state: `result`, the list the
 * asynchronous ticker fetch last resolved with (`None` until the first fetch
 * resolves); `tableData`, the list on display; `order`, the sort direction;
 * and `orderBy`, the active column (`None` for `''`, no column). Each React
 * state setter becomes an assignment to the matching field.
 */
module Table {
  import opened Wrappers
  import opened Ticker
  import opened ArraySort
  import opened Sorting

  /** The sort label of one column header: highlighted or not, and its arrow. */
  datatype HeaderLabel = HeaderLabel(active: bool, direction: Order)

  class CurrencyTable {
    var result: Option<seq<CurrencyDetail>>
    var tableData: Option<seq<CurrencyDetail>>
    var order: Order
    var orderBy: Option<Field>

    /** The state on mount. */
    constructor ()
      ensures result == None && tableData == Some([])
      ensures order == Asc && orderBy == None
    {
      result := None;
      tableData := Some([]);
      order := Asc;
      orderBy := None;
    }

    /** The `TableSortLabel` of column `h`. */
    function Header(h: Field): (shown: HeaderLabel)
      reads this
      ensures shown.active <==> orderBy == Some(h)
      ensures shown.direction == (if shown.active then order else Asc)
    {
      HeaderLabel(orderBy == Some(h), if orderBy == Some(h) then order else Asc)
    }

    /**
     * The header click handler: clicking the active column flips the
     * direction, clicking another selects it ascending; the display becomes a
     * sorted copy of the fetched list, or the fetched list itself for `''`.
     * While a fetch is in flight only a spinner is shown, so a header can be
     * clicked with no fetched list only after the first fetch failed, or on
     * the first render before the mount effect starts the fetch. The
     * handler then throws after setting the direction and the column, and the
     * display is left as it was. `thrown` reports that case.
     */
    method HandleSort(property: Option<Field>) returns (thrown: bool)
      modifies this
      ensures order == (if old(orderBy) == property then Flip(old(order)) else Asc)
      ensures orderBy == property
      ensures result == old(result)
      ensures thrown <==> result.None?
      ensures thrown ==> tableData == old(tableData)
      ensures !thrown && property == None ==> tableData == result
      ensures !thrown && property.Some? ==>
                tableData == Some(StableSort(result.value, GetComparator(order, property.value)))
      ensures forall h :: Header(h).active <==> property == Some(h)
      ensures property.Some? ==> Header(property.value).direction == order
    {
      var newOrder := if orderBy == property then Flip(order) else Asc;
      order := newOrder;
      orderBy := property;
      if result.None? {
        return true;
      }
      var fetched := result.value;
      var copy := new CurrencyDetail[|fetched|](i requires 0 <= i < |fetched| => fetched[i]);
      assert copy[..] == fetched;
      if property.Some? {
        SortInPlace(copy, GetComparator(newOrder, property.value));
      }
      tableData := if property == None then result else Some(copy[..]);
      thrown := false;
    }

    /**
     * The reload button: starts a new fetch and resets the sort state; the
     * display keeps its rows until the fetch resolves.
     */
    method Reload()
      modifies this
      ensures order == Asc && orderBy == None
      ensures result == old(result) && tableData == old(tableData)
      ensures forall h :: Header(h) == HeaderLabel(false, Asc)
    {
      order := Asc;
      orderBy := None;
    }

    /**
     * The fetch resolved and `result` changed to `r`; the effect on `result`
     * shows any defined result (every array is truthy, the empty one too).
     */
    method OnResult(r: Option<seq<CurrencyDetail>>)
      modifies this
      ensures result == r
      ensures tableData == if r.Some? then r else old(tableData)
      ensures order == old(order) && orderBy == old(orderBy)
    {
      result := r;
      if r.Some? {
        tableData := r;
      }
    }
  }

  /**
   * A client of the component. The first fetch fails, so the table is shown
   * with no rows and no result: two clicks on "Bid" both throw, yet the second
   * still flips the direction. After a reload whose fetch resolves, two clicks
   * on "Last" sort it descending; a second reload shows the newly fetched rows
   * unsorted with no active column.
   */
  method ReloadAfterSortScenario(rows: seq<CurrencyDetail>, reloaded: seq<CurrencyDetail>)
  {
    var t := new CurrencyTable();
    var thrown := t.HandleSort(Some(Bid));
    assert thrown && t.orderBy == Some(Bid) && t.order == Asc && t.tableData == Some([]);
    thrown := t.HandleSort(Some(Bid));
    assert thrown && t.order == Desc && t.Header(Bid).active;
    t.Reload();
    t.OnResult(Some(rows));
    assert t.tableData == Some(rows) && t.orderBy == None;
    thrown := t.HandleSort(Some(Last));
    assert !thrown && t.order == Asc;
    thrown := t.HandleSort(Some(Last));
    assert t.order == Desc && t.orderBy == Some(Last);
    SortByField(rows, Desc, Last);
    assert NonIncreasing(t.tableData.value, Last);
    t.Reload();
    t.OnResult(Some(reloaded));
    assert t.orderBy == None && t.order == Asc && t.tableData == Some(reloaded);
    assert !t.Header(Last).active;
  }
}
