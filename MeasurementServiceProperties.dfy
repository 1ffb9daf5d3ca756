/**
 What the measurement service promises across its operations: listed rows come
 from the owner's live matching records, bounds hold, filters only narrow, pages
 slice the ordered matches, the breakdown counts what the trend lists, and
 deletion and ownership hide records.
 */
module MeasurementServiceProperties {
  import opened Wrappers
  import opened Linq
  import opened Models
  import opened ViewModels
  import opened MeasurementService

  lemma OrderedIsPermutation(table: seq<BpMeasurement>, owner: string, f: MeasurementFilter)
    ensures multiset(Ordered(table, owner, f)) == multiset(Matching(table, owner, f))
    ensures forall m :: m in Ordered(table, owner, f) <==> m in table && InScope(m, owner) && MatchesFilter(m, f)
  {
    WhereContents(table, Selector(owner, f));
    var o := Ordered(table, owner, f);
    forall m ensures m in o <==> m in Matching(table, owner, f) {
      assert m in o <==> multiset(o)[m] > 0;
    }
  }

  // ---------------------------------------------------------------------------
  // Listing

  /** Every listed row is the projection of one of the owner's live records that passes the filter. */
  lemma ListItemsFromScope(table: seq<BpMeasurement>, positions: map<int, string>, owner: string, f: MeasurementFilter)
    requires Pageable(f)
    ensures forall it :: it in List(table, positions, owner, f).items ==>
              exists m :: m in table && InScope(m, owner) && MatchesFilter(m, f) && it == ToListItem(m, positions)
  {
    var r := List(table, positions, owner, f);
    var o := Ordered(table, owner, f);
    OrderedIsPermutation(table, owner, f);
    forall it | it in r.items
      ensures exists m :: m in table && InScope(m, owner) && MatchesFilter(m, f) && it == ToListItem(m, positions)
    {
      var k :| 0 <= k < |r.items| && r.items[k] == it;
      var m := o[Offset(f) + k];
      assert m in o;
    }
  }

  /** Every listed row satisfies each bound the filter sets, inclusively, and the category filter exactly. */
  lemma ListedItemsWithinBounds(table: seq<BpMeasurement>, positions: map<int, string>, owner: string, f: MeasurementFilter)
    requires Pageable(f)
    ensures forall it :: it in List(table, positions, owner, f).items ==>
              && (f.from.Some? ==> it.dateOfMeasurement >= f.from.value)
              && (f.to.Some? ==> it.dateOfMeasurement <= f.to.value)
              && (f.minSys.Some? ==> it.systolic >= f.minSys.value)
              && (f.maxSys.Some? ==> it.systolic <= f.maxSys.value)
              && (f.minDia.Some? ==> it.diastolic >= f.minDia.value)
              && (f.maxDia.Some? ==> it.diastolic <= f.maxDia.value)
              && (!IsNullOrWhiteSpace(f.category) ==> it.category == f.category.value)
  {
    ListItemsFromScope(table, positions, owner, f);
  }

  /** The value of the chosen sort key on a list row. */
  function ItemSortValue(k: SortKey, it: ListItem): int
  {
    match k
    case BySystolic => it.systolic
    case ByDiastolic => it.diastolic
    case ByDate => it.dateOfMeasurement
  }

  /** The rows of a page are ordered by the requested key, descending exactly when `desc` is set. */
  lemma ListItemsSorted(table: seq<BpMeasurement>, positions: map<int, string>, owner: string, f: MeasurementFilter)
    requires Pageable(f)
    ensures var items := List(table, positions, owner, f).items;
            forall i, j :: 0 <= i < j < |items| ==>
              InOrder(ItemSortValue(SortKeyOf(f.sortBy), items[i]), ItemSortValue(SortKeyOf(f.sortBy), items[j]), f.desc)
  {
    var r := List(table, positions, owner, f);
    var o := Ordered(table, owner, f);
    assert SortedBy(o, KeyFn(SortKeyOf(f.sortBy)), f.desc);
    assert forall n :: 0 <= n < |r.items| ==> Offset(f) + n < |o| && r.items[n] == ToListItem(o[Offset(f) + n], positions);
    SliceOfSortedIsSorted(o, Offset(f), r.items, positions, SortKeyOf(f.sortBy), f.desc);
  }

  /** Rows projected from a contiguous slice of a sorted sequence are sorted by the same key. */
  lemma SliceOfSortedIsSorted(o: seq<BpMeasurement>, off: int, items: seq<ListItem>, positions: map<int, string>,
                              k: SortKey, desc: bool)
    requires SortedBy(o, KeyFn(k), desc)
    requires off >= 0
    requires forall n :: 0 <= n < |items| ==> off + n < |o| && items[n] == ToListItem(o[off + n], positions)
    ensures forall i, j :: 0 <= i < j < |items| ==> InOrder(ItemSortValue(k, items[i]), ItemSortValue(k, items[j]), desc)
  {
    forall i, j | 0 <= i < j < |items|
      ensures InOrder(ItemSortValue(k, items[i]), ItemSortValue(k, items[j]), desc)
    {
      assert ItemSortValue(k, items[i]) == KeyFn(k)(o[off + i]);
      assert ItemSortValue(k, items[j]) == KeyFn(k)(o[off + j]);
    }
  }

  lemma {:induction false} MulMonotone(a: int, b: int, c: nat)
    requires a <= b
    ensures a * c <= b * c
  {
    assert b * c - a * c == (b - a) * c;
  }

  /** The total counts the matches before paging, so it does not depend on the page asked for. */
  lemma TotalIndependentOfPage(table: seq<BpMeasurement>, positions: map<int, string>, owner: string,
                               f: MeasurementFilter, p: int)
    requires Pageable(f) && Pageable(f.(page := p))
    ensures List(table, positions, owner, f.(page := p)).totalCount == List(table, positions, owner, f).totalCount
  {
    WhereCongruent(table, Selector(owner, f.(page := p)), Selector(owner, f));
  }

  /** A page holds rows exactly when its number is at most TotalPages: a page past the end is empty. */
  lemma PageNonEmptyIffWithinTotalPages(table: seq<BpMeasurement>, positions: map<int, string>, owner: string,
                                        f: MeasurementFilter)
    requires Pageable(f)
    ensures var r := List(table, positions, owner, f);
            |r.items| > 0 <==> f.page <= r.TotalPages()
  {
    PageRowsIffWithinTotalPages(List(table, positions, owner, f), f);
  }

  lemma PageRowsIffWithinTotalPages(r: PagedResult<ListItem>, f: MeasurementFilter)
    requires Pageable(f) && r.page == f.page && r.pageSize == f.pageSize && r.totalCount >= 0
    requires |r.items| == Min(f.pageSize, Max(0, r.totalCount - Offset(f)))
    ensures |r.items| > 0 <==> f.page <= r.TotalPages()
  {
    PageLengthPositive(|r.items|, f.pageSize, r.totalCount, Offset(f));
    PageStartsBeforeEnd(r.totalCount, f.page, f.pageSize, Offset(f), r.TotalPages());
  }

  lemma PageLengthPositive(len: int, size: int, total: int, off: int)
    requires size >= 1 && len == Min(size, Max(0, total - off))
    ensures len > 0 <==> off < total
  {
  }

  /** With `n` the ceiling of `total / size`, page `page` starts before the end exactly when `page <= n`. */
  lemma PageStartsBeforeEnd(total: int, page: int, size: int, off: int, n: int)
    requires total >= 0 && page >= 1 && size >= 1 && n >= 0 && off == (page - 1) * size
    requires n * size >= total && (total > 0 ==> (n - 1) * size < total) && (n == 0 <==> total == 0)
    ensures off < total <==> page <= n
  {
    if page <= n {
      MulMonotone(page - 1, n - 1, size);
    } else {
      MulMonotone(n, page - 1, size);
    }
  }

  // ---------------------------------------------------------------------------
  // Filtering

  /** `g` sets every bound `f` sets, at least as tightly, and the same non-blank category. */
  predicate Tighter(g: MeasurementFilter, f: MeasurementFilter)
  {
    && (f.from.Some? ==> g.from.Some? && g.from.value >= f.from.value)
    && (f.to.Some? ==> g.to.Some? && g.to.value <= f.to.value)
    && (f.minSys.Some? ==> g.minSys.Some? && g.minSys.value >= f.minSys.value)
    && (f.maxSys.Some? ==> g.maxSys.Some? && g.maxSys.value <= f.maxSys.value)
    && (f.minDia.Some? ==> g.minDia.Some? && g.minDia.value >= f.minDia.value)
    && (f.maxDia.Some? ==> g.maxDia.Some? && g.maxDia.value <= f.maxDia.value)
    && (!IsNullOrWhiteSpace(f.category) ==> g.category == f.category)
  }

  /** Adding or tightening a filter only shrinks the set of matches and the total. */
  lemma FilterNarrows(table: seq<BpMeasurement>, owner: string, f: MeasurementFilter, g: MeasurementFilter)
    requires Tighter(g, f)
    ensures multiset(Matching(table, owner, g)) <= multiset(Matching(table, owner, f))
    ensures |Matching(table, owner, g)| <= |Matching(table, owner, f)|
  {
    WhereMonotone(table, Selector(owner, g), Selector(owner, f));
  }

  /** No date or reading bound is set and the category is blank. */
  predicate NoBounds(f: MeasurementFilter)
  {
    && f.from.None? && f.to.None? && f.minSys.None? && f.maxSys.None? && f.minDia.None? && f.maxDia.None?
    && IsNullOrWhiteSpace(f.category)
  }

  /** Unset bounds and a blank category impose nothing: every live record of the owner matches. */
  lemma UnsetBoundsImposeNothing(table: seq<BpMeasurement>, owner: string, f: MeasurementFilter)
    requires NoBounds(f)
    ensures Matching(table, owner, f) == Scoped(table, owner, None, None)
    ensures NoBounds(DefaultFilter())
  {
    WhereCongruent(table, Selector(owner, f), ScopeSelector(owner, None, None));
  }

  /**
   A non-blank category with no other bound keeps exactly the owner's live
   records whose derived category is that string; a string other than the five
   labels keeps nothing.
   */
  lemma CategoryFilterExact(table: seq<BpMeasurement>, owner: string, f: MeasurementFilter)
    requires !IsNullOrWhiteSpace(f.category)
    requires f.from.None? && f.to.None? && f.minSys.None? && f.maxSys.None? && f.minDia.None? && f.maxDia.None?
    ensures forall m :: m in Matching(table, owner, f) <==>
              m in table && InScope(m, owner) && Categorize(m.systolic, m.diastolic) == f.category.value
    ensures f.category.value !in Labels ==> Matching(table, owner, f) == []
  {
    WhereContents(table, Selector(owner, f));
    if f.category.value !in Labels && Matching(table, owner, f) != [] {
      var m := Matching(table, owner, f)[0];
      assert m in Matching(table, owner, f);
    }
  }

  // ---------------------------------------------------------------------------
  // Aggregations

  function HasCategory(c: string): BpMeasurement -> bool
  {
    (m: BpMeasurement) => m.Category() == c
  }

  /** A category is a key of the group count exactly when it occurs, and then maps to its number of records. */
  lemma {:induction false} GroupCountIsCount(s: seq<BpMeasurement>, c: string)
    ensures c in GroupCount(s) <==> CountWhere(s, HasCategory(c)) > 0
    ensures c in GroupCount(s) ==> GroupCount(s)[c] == CountWhere(s, HasCategory(c))
  {
    if s != [] {
      GroupCountIsCount(s[1..], c);
    }
  }

  /** The breakdown's entries: exactly the categories of in-scope records, each with its record count. */
  lemma BreakdownCounts(table: seq<BpMeasurement>, owner: string, from: Option<int>, to: Option<int>, c: string)
    ensures var b := CategoryBreakdown(table, owner, from, to);
            && (c in b <==> exists m :: m in table && InScope(m, owner) && WithinDates(m, from, to) && m.Category() == c)
            && (c in b ==> b[c] == CountWhere(Scoped(table, owner, from, to), HasCategory(c)) >= 1)
  {
    var s := Scoped(table, owner, from, to);
    GroupCountIsCount(s, c);
    var w := Where(s, HasCategory(c));
    WhereContents(table, ScopeSelector(owner, from, to));
    WhereContents(s, HasCategory(c));
    if m :| m in table && InScope(m, owner) && WithinDates(m, from, to) && m.Category() == c {
      assert m in s && m in w;
    }
    if w != [] {
      assert w[0] in w && w[0] in s;
    }
  }

  /** The sum of a count map's values over the given keys (absent keys count 0). */
  function SumOver(counts: map<string, nat>, keys: seq<string>): nat
  {
    if keys == [] then 0
    else (if keys[0] in counts then counts[keys[0]] else 0) + SumOver(counts, keys[1..])
  }

  /** Incrementing one key's count raises the sum by the number of times the key is listed. */
  lemma {:induction false} SumOverBump(counts: map<string, nat>, keys: seq<string>, c: string)
    ensures SumOver(counts[c := (if c in counts then counts[c] else 0) + 1], keys)
            == SumOver(counts, keys) + multiset(keys)[c]
  {
    if keys != [] {
      SumOverBump(counts, keys[1..], c);
      assert keys == [keys[0]] + keys[1..];
    }
  }

  lemma {:induction false} SumOverEmpty(keys: seq<string>)
    ensures SumOver(map[], keys) == 0
  {
    if keys != [] {
      SumOverEmpty(keys[1..]);
    }
  }

  lemma LabelListedOnce(c: string)
    requires c in Labels
    ensures multiset(LabelList)[c] == 1
  {
    LabelsDistinct();
  }

  /** The group counts add up to the number of records grouped. */
  lemma {:induction false} GroupCountTotal(s: seq<BpMeasurement>)
    ensures SumOver(GroupCount(s), LabelList) == |s|
  {
    if s == [] {
      SumOverEmpty(LabelList);
    } else {
      GroupCountTotal(s[1..]);
      var c := s[0].Category();
      assert c in Labels;
      var rest := GroupCount(s[1..]);
      assert GroupCount(s) == rest[c := (if c in rest then rest[c] else 0) + 1];
      SumOverBump(rest, LabelList, c);
      LabelListedOnce(c);
    }
  }

  /**
   The breakdown's values sum to the number of the owner's live records in the
   date bounds, which is the length of the trend for the same arguments.
   */
  lemma BreakdownTotalIsTrendLength(table: seq<BpMeasurement>, owner: string, from: Option<int>, to: Option<int>)
    ensures CategoryBreakdown(table, owner, from, to).Keys <= Labels
    ensures SumOver(CategoryBreakdown(table, owner, from, to), LabelList)
            == |Scoped(table, owner, from, to)| == |Trend(table, owner, from, to)|
  {
    GroupCountTotal(Scoped(table, owner, from, to));
  }

  /** The trend holds one point per in-scope record and nothing else. */
  lemma TrendPointsFromScope(table: seq<BpMeasurement>, owner: string, from: Option<int>, to: Option<int>)
    ensures forall p :: p in Trend(table, owner, from, to) ==>
              exists m :: m in table && InScope(m, owner) && WithinDates(m, from, to) && p == ToPoint(m)
    ensures forall m :: m in Scoped(table, owner, from, to) ==> ToPoint(m) in Trend(table, owner, from, to)
  {
    var s := Scoped(table, owner, from, to);
    var o := OrderBy(s, KeyFn(ByDate), false);
    var t := Trend(table, owner, from, to);
    TrendIsProjection(table, owner, from, to);
    forall p | p in t
      ensures exists m :: m in table && InScope(m, owner) && WithinDates(m, from, to) && p == ToPoint(m)
    {
      var k :| 0 <= k < |t| && t[k] == p;
      InScopeOf(table, owner, from, to, o[k]);
    }
    forall m | m in s ensures ToPoint(m) in t {
      assert multiset(o)[m] > 0;
      var k :| 0 <= k < |o| && o[k] == m;
      assert t[k] == ToPoint(m);
    }
  }

  /** The trend is the date-ordered scope, point by point. */
  lemma TrendIsProjection(table: seq<BpMeasurement>, owner: string, from: Option<int>, to: Option<int>)
    ensures var o := OrderBy(Scoped(table, owner, from, to), KeyFn(ByDate), false);
            var t := Trend(table, owner, from, to);
            |t| == |o| && forall k :: 0 <= k < |t| ==> t[k] == ToPoint(o[k])
  {
  }

  /** Whatever the date-ordered scope holds is one of the owner's live records in the date bounds. */
  lemma InScopeOf(table: seq<BpMeasurement>, owner: string, from: Option<int>, to: Option<int>, m: BpMeasurement)
    requires m in OrderBy(Scoped(table, owner, from, to), KeyFn(ByDate), false)
    ensures m in table && InScope(m, owner) && WithinDates(m, from, to)
  {
    var s := Scoped(table, owner, from, to);
    WhereContents(table, ScopeSelector(owner, from, to));
    assert m in multiset(OrderBy(s, KeyFn(ByDate), false));
    assert m in multiset(s);
  }

  // ---------------------------------------------------------------------------
  // Soft delete and ownership

  /** With no live record of `owner` carrying `id`, no listed row and no aggregated record has that id. */
  lemma NotLiveIsInvisible(table: seq<BpMeasurement>, positions: map<int, string>, owner: string, id: int,
                           f: MeasurementFilter, from: Option<int>, to: Option<int>)
    requires Pageable(f)
    requires forall m :: m in table ==> !IsLive(m, owner, id)
    ensures forall it :: it in List(table, positions, owner, f).items ==> it.id != id
    ensures forall m :: m in Scoped(table, owner, from, to) ==> m.id != id
  {
    WhereContents(table, ScopeSelector(owner, from, to));
    ListItemsFromScope(table, positions, owner, f);
  }

  /**
   Soft-deleting a live, in-range record removes exactly that record from the
   owner's scope, so the trend loses one point and the breakdown one count.
   */
  lemma DeleteShrinksScope(table: seq<BpMeasurement>, i: nat, owner: string, from: Option<int>, to: Option<int>)
    requires i < |table| && InScope(table[i], owner) && WithinDates(table[i], from, to)
    ensures multiset(Scoped(table[i := Retired(table[i])], owner, from, to))
            == multiset(Scoped(table, owner, from, to)) - multiset{table[i]}
    ensures |Trend(table[i := Retired(table[i])], owner, from, to)| == |Trend(table, owner, from, to)| - 1
    ensures SumOver(CategoryBreakdown(table[i := Retired(table[i])], owner, from, to), LabelList)
            == SumOver(CategoryBreakdown(table, owner, from, to), LabelList) - 1
  {
    WhereReplace(table, i, Retired(table[i]), ScopeSelector(owner, from, to));
    BreakdownTotalIsTrendLength(table, owner, from, to);
    BreakdownTotalIsTrendLength(table[i := Retired(table[i])], owner, from, to);
  }

  function OwnedBy(owner: string): BpMeasurement -> bool
  {
    (m: BpMeasurement) => m.userId == owner
  }

  /**
   Ownership isolation: tables that hold the same records of `owner`, in the
   same order, give that owner the same list, breakdown and trend, however many
   records of other owners they hold and wherever those stand.
   */
  lemma OtherOwnersInvisible(table: seq<BpMeasurement>, table': seq<BpMeasurement>, positions: map<int, string>,
                             owner: string, f: MeasurementFilter, from: Option<int>, to: Option<int>)
    requires Pageable(f)
    requires Where(table, OwnedBy(owner)) == Where(table', OwnedBy(owner))
    ensures List(table, positions, owner, f) == List(table', positions, owner, f)
    ensures CategoryBreakdown(table, owner, from, to) == CategoryBreakdown(table', owner, from, to)
    ensures Trend(table, owner, from, to) == Trend(table', owner, from, to)
  {
    WhereWhere(table, Selector(owner, f), OwnedBy(owner));
    WhereWhere(table', Selector(owner, f), OwnedBy(owner));
    WhereWhere(table, ScopeSelector(owner, from, to), OwnedBy(owner));
    WhereWhere(table', ScopeSelector(owner, from, to), OwnedBy(owner));
  }

  /** A record another owner adds (their CreateAsync) changes nothing this owner sees. */
  lemma OtherOwnersCreateInvisible(table: seq<BpMeasurement>, x: BpMeasurement, positions: map<int, string>,
                                   owner: string, f: MeasurementFilter, from: Option<int>, to: Option<int>)
    requires Pageable(f)
    requires x.userId != owner
    ensures List(table + [x], positions, owner, f) == List(table, positions, owner, f)
    ensures CategoryBreakdown(table + [x], owner, from, to) == CategoryBreakdown(table, owner, from, to)
    ensures Trend(table + [x], owner, from, to) == Trend(table, owner, from, to)
  {
    WhereAppend(table, [x], OwnedBy(owner));
    assert Where(table, OwnedBy(owner)) + Where([x], OwnedBy(owner)) == Where(table, OwnedBy(owner));
    OtherOwnersInvisible(table + [x], table, positions, owner, f, from, to);
  }

  // ---------------------------------------------------------------------------
  // Create and update

  /**
   Round trip: a created record is among the owner's matches for any filter
   without bounds, and its list row repeats the input with the derived category.
   */
  lemma CreatedIsListed(table: seq<BpMeasurement>, positions: map<int, string>, owner: string, vm: CreateInput,
                        now: int, id: int, f: MeasurementFilter)
    requires NoBounds(f)
    ensures Created(owner, vm, now, id) in Matching(table + [Created(owner, vm, now, id)], owner, f)
    ensures var it := ToListItem(Created(owner, vm, now, id), positions);
            && it.id == id && it.systolic == vm.systolic && it.diastolic == vm.diastolic
            && it.dateOfMeasurement == vm.dateOfMeasurement && it.pulse == vm.pulse && it.notes == vm.notes
            && it.category == Categorize(vm.systolic, vm.diastolic)
            && (vm.positionId.Some? && vm.positionId.value in positions ==>
                  it.position == Some(positions[vm.positionId.value]))
            && (vm.positionId.None? ==> it.position.None?)
  {
    WhereContents(table + [Created(owner, vm, now, id)], Selector(owner, f));
    var m := Created(owner, vm, now, id);
    assert m in table + [m];
  }

  /**
   The foreign key pays off in the list: when every record's position reference
   resolves (as the store's invariant keeps it), a listed row has a position
   exactly when its record has one, and then, by ToListItem, it is that
   position's name: a row never shows a missing name for a set reference.
   */
  lemma ListedPositionsResolve(table: seq<BpMeasurement>, positions: map<int, string>, owner: string,
                               f: MeasurementFilter)
    requires Pageable(f)
    requires forall m :: m in table ==> PositionResolves(positions, m.positionId)
    ensures forall it :: it in List(table, positions, owner, f).items ==>
              exists m :: m in table && it == ToListItem(m, positions) && (m.positionId.None? <==> it.position.None?)
  {
    ListItemsFromScope(table, positions, owner, f);
  }

  /** An input that passes validation yields records within the entity's declared ranges, created or edited. */
  lemma ValidInputGivesValidRecord(vm: CreateInput, owner: string, now: int, id: int, m: BpMeasurement)
    requires ValidCreateInput(vm)
    ensures InDeclaredRanges(Created(owner, vm, now, id))
    ensures InDeclaredRanges(Edited(m, vm, now))
  {
  }

  /** The entity's range attributes and the input's constraints agree: a record is in range exactly when its editable fields would pass validation. */
  lemma EntityRangesMatchInputRanges(m: BpMeasurement)
    ensures InDeclaredRanges(m) <==> ValidCreateInput(EditableFields(m))
  {
  }

  /** The input limits are inclusive at both ends, and notes of 512 characters pass where 513 do not. */
  lemma CreateInputBoundaries(date: int)
    ensures ValidCreateInput(CreateInput(20, 10, date, None, None, None))
    ensures ValidCreateInput(CreateInput(400, 300, date, None, Some(seq(512, _ => 'x')), None))
    ensures !ValidCreateInput(CreateInput(19, 10, date, None, None, None))
    ensures !ValidCreateInput(CreateInput(401, 300, date, None, None, None))
    ensures !ValidCreateInput(CreateInput(20, 9, date, None, None, None))
    ensures !ValidCreateInput(CreateInput(400, 301, date, None, None, None))
    ensures !ValidCreateInput(CreateInput(120, 80, date, None, Some(seq(513, _ => 'x')), None))
  {
  }

  /** Editing overwrites: a second edit leaves no trace of the first, and the category follows the new readings. */
  lemma EditLastWriteWins(m: BpMeasurement, a: CreateInput, b: CreateInput, t1: int, t2: int)
    ensures Edited(Edited(m, a, t1), b, t2) == Edited(m, b, t2)
    ensures Edited(m, b, t2).Category() == Categorize(b.systolic, b.diastolic)
  {
  }

  /**
   The reference scenario: one crisis-level reading created for "u1" on an empty
   table is the single row of the default list, and the only entry of the breakdown.
   */
  lemma EndToEndScenario(positions: map<int, string>, date: int, now: int, id: int)
    ensures var vm := CreateInput(181, 110, date, None, None, None);
            var table := [Created("u1", vm, now, id)];
            var r := List(table, positions, "u1", DefaultFilter());
            && r.totalCount == 1 && |r.items| == 1
            && r.items[0].id == id && r.items[0].category == "Hypertensive Crisis"
            && CategoryBreakdown(table, "u1", None, None) == map["Hypertensive Crisis" := 1]
  {
    var vm := CreateInput(181, 110, date, None, None, None);
    var m := Created("u1", vm, now, id);
    var table := [m];
    var f := DefaultFilter();
    assert m.Category() == Crisis;
    assert Scoped(table, "u1", None, None) == [m] by {
      assert table == [m] + [];
    }
    UnsetBoundsImposeNothing(table, "u1", f);
    assert |Ordered(table, "u1", f)| == 1;
    var r := List(table, positions, "u1", f);
    assert r.items[0] == ToListItem(m, positions);
    assert GroupCount([m]) == GroupCount([])[Crisis := 1];
  }

  /**
   The same scenario through the store: a fresh store, one CreateAsync, then the
   default list and the breakdown of its table. The single row carries the id
   that Create returned.
   */
  method CreateThenList(positions: map<int, string>, date: int, now: int)
    returns (id: int, r: PagedResult<ListItem>, breakdown: map<string, nat>)
    ensures id > 0
    ensures r.totalCount == 1 && |r.items| == 1
    ensures r.items[0].id == id && r.items[0].category == "Hypertensive Crisis"
    ensures breakdown == map["Hypertensive Crisis" := 1]
  {
    var store := new MeasurementStore(positions);
    var vm := CreateInput(181, 110, date, None, None, None);
    var created := store.Create("u1", vm, now);
    id := created.value;
    EndToEndScenario(positions, date, now, id);
    r := List(store.table, positions, "u1", DefaultFilter());
    breakdown := CategoryBreakdown(store.table, "u1", None, None);
  }
}
