/** The input and output shapes of the measurement service. */
module ViewModels {
  import opened Wrappers

  /**
   The list query: inclusive bounds on date and readings, an exact category,
   a sort key and direction, and a 1-based page. `None` means the bound is unset.
   */
  datatype MeasurementFilter = MeasurementFilter(
    from: Option<int>,
    to: Option<int>,
    minSys: Option<int>,
    maxSys: Option<int>,
    minDia: Option<int>,
    maxDia: Option<int>,
    category: Option<string>,
    page: int,
    pageSize: int,
    sortBy: Option<string>,
    desc: bool)

  /** The filter a request gets when it sets nothing: first page of ten, newest first. */
  function DefaultFilter(): (f: MeasurementFilter)
    ensures f.page == 1 && f.pageSize == 10 && f.sortBy == Some("Date") && f.desc
    ensures f.from.None? && f.to.None? && f.category.None?
    ensures f.minSys.None? && f.maxSys.None? && f.minDia.None? && f.maxDia.None?
  {
    MeasurementFilter(None, None, None, None, None, None, None, 1, 10, Some("Date"), true)
  }

  /** The fields a user submits to create or edit a measurement. */
  datatype CreateInput = CreateInput(
    systolic: int,
    diastolic: int,
    dateOfMeasurement: int,
    pulse: Option<int>,
    notes: Option<string>,
    positionId: Option<int>)

  /**
   The input's declared constraints, checked at the boundary before the service
   is called: Systolic 20..400, Diastolic 10..300, Notes absent or at most 512
   characters. The required date always has a value in this model.
   */
  predicate ValidCreateInput(vm: CreateInput)
  {
    && 20 <= vm.systolic <= 400
    && 10 <= vm.diastolic <= 300
    && (vm.notes.Some? ==> |vm.notes.value| <= 512)
  }

  /** One row of the list page: the stored fields plus the derived category and its display class. */
  datatype ListItem = ListItem(
    id: int,
    systolic: int,
    diastolic: int,
    dateOfMeasurement: int,
    category: string,
    categoryClass: string,
    position: Option<string>,
    pulse: Option<int>,
    notes: Option<string>)

  /** One page of results together with the number of matches before paging. */
  datatype PagedResult<T> = PagedResult(items: seq<T>, page: int, pageSize: int, totalCount: int)
  {
    /** The number of pages needed to show `totalCount` items, `pageSize` per page: the ceiling of their quotient. */
    function TotalPages(): (n: int)
      requires pageSize > 0 && totalCount >= 0
      ensures n >= 0
      ensures n * pageSize >= totalCount
      ensures totalCount > 0 ==> (n - 1) * pageSize < totalCount
      ensures n == 0 <==> totalCount == 0
    {
      var q := (totalCount + pageSize - 1) / pageSize;
      var r := (totalCount + pageSize - 1) % pageSize;
      assert totalCount + pageSize - 1 == q * pageSize + r && 0 <= r < pageSize;
      q
    }
  }

  /** A result as constructed with no properties set: no items, all numbers zero. */
  function EmptyPagedResult<T>(): (r: PagedResult<T>)
    ensures r.items == [] && r.totalCount == 0
  {
    PagedResult([], 0, 0, 0)
  }
}
