/**
 The measurement service over an in-memory table of records: the owner-scoped
 list query (filter, order, page, project), the two aggregations (category
 breakdown and date trend), and the three mutators (create, update, soft delete).
 The query side is pure functions of the table; the mutators are methods of
 MeasurementStore, which holds the table.
 */
module MeasurementService {
  import opened Wrappers
  import opened Linq
  import opened Models
  import opened ViewModels

  const Int32Max: int := 0x7fff_ffff

  // ---------------------------------------------------------------------------
  // Presentation of categories

  /** The display class of a category; anything but the five labels falls back to "bg-secondary". */
  function CategoryClassMap(category: string): (cls: string)
    ensures cls == "bg-secondary" <==> category !in Labels
  {
    if category == Normal then "bg-success"
    else if category == Elevated then "bg-warning text-dark"
    else if category == Stage1 then "bg-info text-dark"
    else if category == Stage2 then "bg-danger"
    else if category == Crisis then "bg-dark"
    else "bg-secondary"
  }

  /** The five labels get five different classes. */
  lemma CategoryClassesDistinct(a: string, b: string)
    requires a in Labels && b in Labels && a != b
    ensures CategoryClassMap(a) != CategoryClassMap(b)
  {
    LabelsDistinct();
    assert "bg-warning text-dark"[3] != "bg-info text-dark"[3];
    assert "bg-success"[3] != "bg-danger"[3] && "bg-success"[3] != "bg-dark"[3];
    assert "bg-danger"[5] != "bg-dark"[5];
  }

  // ---------------------------------------------------------------------------
  // Scoping and filtering

  /** A record is visible to `owner` when it is theirs and not soft-deleted. */
  predicate InScope(m: BpMeasurement, owner: string)
  {
    m.userId == owner && !m.isDeleted
  }

  /** The inclusive date bounds, each imposing nothing when unset. */
  predicate WithinDates(m: BpMeasurement, from: Option<int>, to: Option<int>)
  {
    && (from.Some? ==> m.dateOfMeasurement >= from.value)
    && (to.Some? ==> m.dateOfMeasurement <= to.value)
  }

  /** .NET's Char.IsWhiteSpace: the Unicode space, line and paragraph separators, U+0009..U+000D and U+0085. */
  predicate IsWhiteSpace(c: char)
  {
    || c == ' ' || ('\t' <= c <= '\r') || c == '\U{0085}' || c == '\U{00A0}' || c == '\U{1680}'
    || ('\U{2000}' <= c <= '\U{200A}') || c == '\U{2028}' || c == '\U{2029}'
    || c == '\U{202F}' || c == '\U{205F}' || c == '\U{3000}'
  }

  /** string.IsNullOrWhiteSpace. */
  predicate IsNullOrWhiteSpace(s: Option<string>)
    ensures s.None? || s == Some("") ==> IsNullOrWhiteSpace(s)
    ensures s.Some? && s.value in Labels ==> !IsNullOrWhiteSpace(s)
  {
    assert s.Some? && s.value in Labels ==> s.value[0] in "NESH";
    s.None? || forall i :: 0 <= i < |s.value| ==> IsWhiteSpace(s.value[i])
  }

  /**
   The conjunction of every bound the filter sets: inclusive date, systolic and
   diastolic ranges, and, when the category is not blank, exact equality of the
   derived category with it.
   */
  predicate MatchesFilter(m: BpMeasurement, f: MeasurementFilter)
  {
    && WithinDates(m, f.from, f.to)
    && (f.minSys.Some? ==> m.systolic >= f.minSys.value)
    && (f.maxSys.Some? ==> m.systolic <= f.maxSys.value)
    && (f.minDia.Some? ==> m.diastolic >= f.minDia.value)
    && (f.maxDia.Some? ==> m.diastolic <= f.maxDia.value)
    && (!IsNullOrWhiteSpace(f.category) ==> m.Category() == f.category.value)
  }

  function Selector(owner: string, f: MeasurementFilter): BpMeasurement -> bool
  {
    m => InScope(m, owner) && MatchesFilter(m, f)
  }

  /** The owner's live records that pass the filter, in table order. */
  function Matching(table: seq<BpMeasurement>, owner: string, f: MeasurementFilter): seq<BpMeasurement>
  {
    Where(table, Selector(owner, f))
  }

  // ---------------------------------------------------------------------------
  // Ordering

  datatype SortKey = BySystolic | ByDiastolic | ByDate

  function AsciiLower(c: char): char
  {
    if 'A' <= c <= 'Z' then (c as int + 32) as char else c
  }

  function ToLower(s: string): string
  {
    seq(|s|, i requires 0 <= i < |s| => AsciiLower(s[i]))
  }

  /** `SortBy?.ToLower()` chooses systolic or diastolic; anything else, or no value, chooses the date. */
  function SortKeyOf(sortBy: Option<string>): (k: SortKey)
    ensures k == BySystolic <==> sortBy.Some? && SpellsIgnoringCase(sortBy.value, "systolic", "SYSTOLIC")
    ensures k == ByDiastolic <==> sortBy.Some? && SpellsIgnoringCase(sortBy.value, "diastolic", "DIASTOLIC")
    ensures sortBy.None? ==> k == ByDate
  {
    if sortBy.Some? then
      LowerSpells(sortBy.value, "systolic", "SYSTOLIC");
      LowerSpells(sortBy.value, "diastolic", "DIASTOLIC");
      var lowered := ToLower(sortBy.value);
      if lowered == "systolic" then BySystolic
      else if lowered == "diastolic" then ByDiastolic
      else ByDate
    else ByDate
  }

  /** `s` spells `word` with each letter in either its lower-case or its upper-case form. */
  predicate SpellsIgnoringCase(s: string, word: string, upper: string)
    requires |word| == |upper|
  {
    |s| == |word| && forall i :: 0 <= i < |s| ==> s[i] == word[i] || s[i] == upper[i]
  }

  lemma LowerSpells(s: string, word: string, upper: string)
    requires |word| == |upper|
    requires forall i :: 0 <= i < |word| ==> 'a' <= word[i] <= 'z' && upper[i] as int == word[i] as int - 32
    ensures ToLower(s) == word <==> SpellsIgnoringCase(s, word, upper)
  {
    if ToLower(s) == word {
      forall i | 0 <= i < |s| ensures s[i] == word[i] || s[i] == upper[i] {
        assert AsciiLower(s[i]) == word[i];
      }
    }
    if SpellsIgnoringCase(s, word, upper) {
      assert forall i :: 0 <= i < |s| ==> ToLower(s)[i] == word[i];
    }
  }

  function SortValue(k: SortKey, m: BpMeasurement): int
  {
    match k
    case BySystolic => m.systolic
    case ByDiastolic => m.diastolic
    case ByDate => m.dateOfMeasurement
  }

  function KeyFn(k: SortKey): BpMeasurement -> int
  {
    m => SortValue(k, m)
  }

  /** The matching records in the order the filter asks for. */
  function Ordered(table: seq<BpMeasurement>, owner: string, f: MeasurementFilter): seq<BpMeasurement>
  {
    OrderBy(Matching(table, owner, f), KeyFn(SortKeyOf(f.sortBy)), f.desc)
  }

  // ---------------------------------------------------------------------------
  // Projection and paging

  /** The name of the referenced position, when the reference resolves. */
  function PositionName(positions: map<int, string>, positionId: Option<int>): Option<string>
  {
    if positionId.Some? && positionId.value in positions then Some(positions[positionId.value]) else None
  }

  /** A list row for a record: its fields, its derived category and that category's display class. */
  function ToListItem(m: BpMeasurement, positions: map<int, string>): (it: ListItem)
    ensures it.category in Labels && it.category == Categorize(it.systolic, it.diastolic)
    ensures it.categoryClass == CategoryClassMap(it.category) && it.categoryClass != "bg-secondary"
    ensures it.id == m.id && it.systolic == m.systolic && it.diastolic == m.diastolic
    ensures it.dateOfMeasurement == m.dateOfMeasurement && it.pulse == m.pulse && it.notes == m.notes
    ensures it.position.Some? <==> m.positionId.Some? && m.positionId.value in positions
    ensures it.position.Some? ==> it.position.value == positions[m.positionId.value]
  {
    var category := m.Category();
    ListItem(m.id, m.systolic, m.diastolic, m.dateOfMeasurement, category, CategoryClassMap(category),
             PositionName(positions, m.positionId), m.pulse, m.notes)
  }

  /** The number of items skipped before the requested page. */
  function Offset(f: MeasurementFilter): (n: int)
    ensures 1 <= f.page && 1 <= f.pageSize ==> n >= 0
  {
    (f.page - 1) * f.pageSize
  }

  /** The list-query preconditions: a 1-based page, a positive page size, an offset that fits in 32 bits. */
  predicate Pageable(f: MeasurementFilter)
  {
    1 <= f.page && 1 <= f.pageSize && Offset(f) <= Int32Max
  }

  /**
   ListAsync: the requested page of the owner's matching records, ordered as
   asked and projected to list rows, with the number of matches before paging.
   */
  function List(table: seq<BpMeasurement>, positions: map<int, string>, owner: string, f: MeasurementFilter)
    : (result: PagedResult<ListItem>)
    requires Pageable(f)
    ensures result.page == f.page && result.pageSize == f.pageSize
    ensures result.totalCount == |Matching(table, owner, f)|
    ensures |result.items| == Min(f.pageSize, Max(0, result.totalCount - Offset(f)))
    ensures forall k :: 0 <= k < |result.items| ==>
              Offset(f) + k < |Ordered(table, owner, f)| &&
              result.items[k] == ToListItem(Ordered(table, owner, f)[Offset(f) + k], positions)
  {
    var matches := Matching(table, owner, f);
    var ordered := Ordered(table, owner, f);
    var page := Take(Skip(ordered, Offset(f)), f.pageSize);
    SkipTake(ordered, Offset(f), f.pageSize);
    var items := seq(|page|, k requires 0 <= k < |page| => ToListItem(page[k], positions));
    PagedResult(items, f.page, f.pageSize, |matches|)
  }

  // ---------------------------------------------------------------------------
  // Aggregations

  function ScopeSelector(owner: string, from: Option<int>, to: Option<int>): BpMeasurement -> bool
  {
    m => InScope(m, owner) && WithinDates(m, from, to)
  }

  /** The owner's live records within the optional date bounds, in table order. */
  function Scoped(table: seq<BpMeasurement>, owner: string, from: Option<int>, to: Option<int>): seq<BpMeasurement>
  {
    Where(table, ScopeSelector(owner, from, to))
  }

  /** GroupBy(category).ToDictionary(key, count): one entry per category that occurs, with its count. */
  function GroupCount(s: seq<BpMeasurement>): (counts: map<string, nat>)
    ensures forall c :: c in counts ==> c in Labels && counts[c] >= 1
  {
    if s == [] then map[]
    else
      var rest := GroupCount(s[1..]);
      var c := s[0].Category();
      rest[c := (if c in rest then rest[c] else 0) + 1]
  }

  /** CategoryBreakdownAsync: the owner's live records in the date bounds, counted by category. */
  function CategoryBreakdown(table: seq<BpMeasurement>, owner: string, from: Option<int>, to: Option<int>)
    : (breakdown: map<string, nat>)
    ensures forall c :: c in breakdown ==> c in Labels && breakdown[c] >= 1
  {
    GroupCount(Scoped(table, owner, from, to))
  }

  datatype TrendPoint = TrendPoint(date: int, systolic: int, diastolic: int)

  function ToPoint(m: BpMeasurement): TrendPoint
  {
    TrendPoint(m.dateOfMeasurement, m.systolic, m.diastolic)
  }

  /** TrendAsync: the scoped records' (date, systolic, diastolic), oldest first. */
  function Trend(table: seq<BpMeasurement>, owner: string, from: Option<int>, to: Option<int>)
    : (points: seq<TrendPoint>)
    ensures |points| == |Scoped(table, owner, from, to)|
    ensures forall i, j :: 0 <= i < j < |points| ==> points[i].date <= points[j].date
  {
    var ordered := OrderBy(Scoped(table, owner, from, to), KeyFn(ByDate), false);
    assert forall i, j :: 0 <= i < j < |ordered| ==> KeyFn(ByDate)(ordered[i]) <= KeyFn(ByDate)(ordered[j]);
    seq(|ordered|, k requires 0 <= k < |ordered| => ToPoint(ordered[k]))
  }

  // ---------------------------------------------------------------------------
  // Records as the mutators write them

  /** A record matches the update/delete lookup: this id, this owner, not deleted. */
  predicate IsLive(m: BpMeasurement, owner: string, id: int)
  {
    m.id == id && InScope(m, owner)
  }

  /** FirstOrDefault of the lookup, as an index into the table. */
  function FindLive(table: seq<BpMeasurement>, owner: string, id: int): (r: Option<nat>)
    ensures r.Some? ==> r.value < |table| && IsLive(table[r.value], owner, id)
    ensures r.Some? ==> forall j :: 0 <= j < r.value ==> !IsLive(table[j], owner, id)
    ensures r.None? ==> forall m :: m in table ==> !IsLive(m, owner, id)
  {
    if table == [] then None
    else if IsLive(table[0], owner, id) then Some(0)
    else
      match FindLive(table[1..], owner, id)
      case None => assert table == [table[0]] + table[1..]; None
      case Some(i) => Some(i + 1)
  }

  /** The fields of a record that an input sets. */
  function EditableFields(m: BpMeasurement): CreateInput
  {
    CreateInput(m.systolic, m.diastolic, m.dateOfMeasurement, m.pulse, m.notes, m.positionId)
  }

  /** The record CreateAsync stores for `owner`, once the database has given it `id`. */
  function Created(owner: string, vm: CreateInput, now: int, id: int): (m: BpMeasurement)
    ensures EditableFields(m) == vm
    ensures m.id == id && m.userId == owner && m.createdAt == now && m.updatedAt.None? && !m.isDeleted
  {
    NewMeasurement(owner, vm.systolic, vm.diastolic, vm.dateOfMeasurement, vm.pulse, vm.notes, vm.positionId, now)
      .(id := id)
  }

  /** The record UpdateAsync writes back: the input's fields, stamped with the time of the edit. */
  function Edited(m: BpMeasurement, vm: CreateInput, now: int): (r: BpMeasurement)
    ensures EditableFields(r) == vm && r.updatedAt == Some(now)
    ensures r.id == m.id && r.userId == m.userId && r.createdAt == m.createdAt && r.isDeleted == m.isDeleted
  {
    m.(systolic := vm.systolic, diastolic := vm.diastolic, dateOfMeasurement := vm.dateOfMeasurement,
       pulse := vm.pulse, notes := vm.notes, positionId := vm.positionId, updatedAt := Some(now))
  }

  /** The record DeleteAsync writes back: flagged deleted, everything else as it was. */
  function Retired(m: BpMeasurement): (r: BpMeasurement)
    ensures r.isDeleted && EditableFields(r) == EditableFields(m)
    ensures r.id == m.id && r.userId == m.userId && r.createdAt == m.createdAt && r.updatedAt == m.updatedAt
  {
    m.(isDeleted := true)
  }

  /** The table's primary key: no two records share an id. */
  ghost predicate UniqueIds(table: seq<BpMeasurement>)
  {
    forall i, j :: 0 <= i < j < |table| ==> table[i].id != table[j].id
  }

  /** The largest id in the table, or 0 when it is empty. */
  function MaxId(table: seq<BpMeasurement>): (r: nat)
    ensures forall m :: m in table ==> m.id <= r
  {
    if table == [] then 0
    else
      var rest := MaxId(table[1..]);
      assert table == [table[0]] + table[1..];
      if table[0].id > rest then table[0].id else rest
  }

  /** A position reference is either absent or the id of a known position. */
  predicate PositionResolves(positions: map<int, string>, positionId: Option<int>)
  {
    positionId.None? || positionId.value in positions
  }

  /**
   The in-memory table behind the service. Positions are static reference data;
   a record's PositionId is a foreign key into them, so a save that would store a
   dangling reference is rejected as a whole.
   */
  class MeasurementStore {
    var table: seq<BpMeasurement>
    const positions: map<int, string>

    /** The table's primary key and its foreign key into the positions. */
    ghost predicate Valid()
      reads this
    {
      && UniqueIds(table)
      && forall m :: m in table ==> PositionResolves(positions, m.positionId)
    }

    constructor (positions: map<int, string>)
      ensures Valid() && table == [] && this.positions == positions
    {
      this.positions := positions;
      table := [];
    }

    /**
     CreateAsync: stores a new live record for `owner` and returns the id the
     database gave it. `None` stands for the foreign-key violation the save raises
     when the input names an unknown position; nothing is stored then.
     */
    method Create(owner: string, vm: CreateInput, now: int) returns (r: Option<int>)
      requires Valid()
      modifies this
      ensures Valid()
      ensures r.None? <==> !PositionResolves(positions, vm.positionId)
      ensures r.None? ==> table == old(table)
      ensures r.Some? ==> r.value > 0 && forall m :: m in old(table) ==> m.id != r.value
      ensures r.Some? ==> table == old(table) + [Created(owner, vm, now, r.value)]
    {
      if !PositionResolves(positions, vm.positionId) {
        return None;
      }
      var id := MaxId(table) + 1;
      table := table + [Created(owner, vm, now, id)];
      r := Some(id);
    }

    /**
     UpdateAsync: when a live record of `owner` has this id, overwrites its
     editable fields and stamps it (`Some(true)`); otherwise reports `Some(false)`
     and changes nothing. The lookup comes first: only a found record whose new
     position is unknown reaches the save and its foreign-key violation (`None`),
     which leaves the table as it was.
     */
    method Update(owner: string, id: int, vm: CreateInput, now: int) returns (r: Option<bool>)
      requires Valid()
      modifies this
      ensures Valid()
      ensures r == Some(false) <==> !exists m :: m in old(table) && IsLive(m, owner, id)
      ensures r.None? <==> (exists m :: m in old(table) && IsLive(m, owner, id))
                           && !PositionResolves(positions, vm.positionId)
      ensures r != Some(true) ==> table == old(table)
      ensures r == Some(true) ==> |table| == |old(table)| && forall i :: 0 <= i < |table| ==>
                table[i] == if IsLive(old(table)[i], owner, id) then Edited(old(table)[i], vm, now) else old(table)[i]
    {
      match FindLive(table, owner, id)
      case None =>
        r := Some(false);
      case Some(i) =>
        if !PositionResolves(positions, vm.positionId) {
          return None;
        }
        table := table[i := Edited(table[i], vm, now)];
        r := Some(true);
    }

    /**
     DeleteAsync: when a live record of `owner` has this id, sets its deleted flag;
     otherwise reports false and changes nothing. Afterwards no live record of
     `owner` has this id.
     */
    method Delete(owner: string, id: int) returns (ok: bool)
      requires Valid()
      modifies this
      ensures Valid()
      ensures ok <==> exists m :: m in old(table) && IsLive(m, owner, id)
      ensures !ok ==> table == old(table)
      ensures |table| == |old(table)|
      ensures forall i :: 0 <= i < |table| ==>
                table[i] == if IsLive(old(table)[i], owner, id) then Retired(old(table)[i]) else old(table)[i]
      ensures forall m :: m in table ==> !IsLive(m, owner, id)
    {
      match FindLive(table, owner, id)
      case None =>
        ok := false;
      case Some(i) =>
        table := table[i := Retired(table[i])];
        ok := true;
    }
  }

  /** A soft delete is final: deleting or editing the same id again reports false. */
  method SoftDeleteIsFinal(store: MeasurementStore, owner: string, id: int, vm: CreateInput, now: int)
    returns (again: bool, edited: Option<bool>)
    requires store.Valid()
    modifies store
    ensures store.Valid()
    ensures !again && edited == Some(false)
  {
    var _ := store.Delete(owner, id);
    again := store.Delete(owner, id);
    edited := store.Update(owner, id, vm, now);
  }
}
