/** Query planning for the statistics chart tabs: which metric fields each of
    the two queries asks for, where a page of `quantity` periods is anchored,
    and which label format a period uses. */
module StatsQueries {
  import opened Wrappers
  import opened Sequences

  // ---------------------------------------------------------------------
  // Metric fields, as comma-joined strings
  // ---------------------------------------------------------------------

  /** Every field a chart can show, in canonical order. */
  const QUERY_FIELDS: seq<string> := ["views", "visitors", "likes", "comments", "post_titles"]

  /** JavaScript `s.split(',')`: always at least one part; `""` splits to `[""]`. */
  function Split(s: string): (parts: seq<string>)
    ensures |parts| >= 1
    ensures forall i :: 0 <= i < |parts| ==> ',' !in parts[i]
  {
    if s == [] then [""]
    else if s[0] == ',' then [""] + Split(s[1..])
    else
      var rest := Split(s[1..]);
      [[s[0]] + rest[0]] + rest[1..]
  }

  /** JavaScript `parts.join(',')`: `[]` joins to `""`. `SplitJoin` below
      proves `Split` its left inverse on comma-free names. */
  function Join(parts: seq<string>): (s: string)
    ensures parts != [] ==> parts[0] <= s
    ensures (forall i :: 0 <= i < |parts| ==> ',' !in parts[i]) ==> (',' in s <==> |parts| >= 2)
  {
    if parts == [] then ""
    else if |parts| == 1 then parts[0]
    else
      var s := parts[0] + "," + Join(parts[1..]);
      assert s[|parts[0]|] == ',';
      s
  }

  lemma {:induction false} SplitNoComma(s: string)
    requires ',' !in s
    ensures Split(s) == [s]
    decreases |s|
  {
    if s != [] {
      SplitNoComma(s[1..]);
      assert [s[0]] + s[1..] == s;
    }
  }

  lemma {:induction false} SplitPrefix(a: string, b: string)
    requires ',' !in a
    ensures Split(a + "," + b) == [a] + Split(b)
    decreases |a|
  {
    if a == [] {
      assert a + "," + b == [','] + b;
      assert (a + "," + b)[1..] == b;
    } else {
      var s := a + "," + b;
      assert s[0] == a[0] && s[1..] == a[1..] + "," + b;
      SplitPrefix(a[1..], b);
      assert [a[0]] + a[1..] == a;
    }
  }

  /** Joining non-empty, comma-free names and splitting again gives them back. */
  lemma {:induction false} SplitJoin(parts: seq<string>)
    requires parts != []
    requires forall i :: 0 <= i < |parts| ==> ',' !in parts[i]
    ensures Split(Join(parts)) == parts
    decreases |parts|
  {
    if |parts| == 1 {
      SplitNoComma(parts[0]);
    } else {
      SplitJoin(parts[1..]);
      SplitPrefix(parts[0], Join(parts[1..]));
      assert [parts[0]] + parts[1..] == parts;
    }
  }

  // ---------------------------------------------------------------------
  // Query generation
  // ---------------------------------------------------------------------

  /** A statistics query: the period unit, the anchor date, how many periods,
      and the comma-joined list of requested fields. */
  datatype Query<D> = Query(unit: string, date: D, quantity: int, statFields: string)

  /** The primary query (fields shown by the chart tab) and the supplemental
      query (all other fields). */
  datatype QueryPair<D> = QueryPair(query: Query<D>, supplementalQuery: Query<D>)

  /** The default tab shows visitors beside views; for a canonical tab the
      primary query asks for `views` and `visitors`, or for the tab alone. */
  function PrimaryFields(chartTab: string): (fields: string)
    ensures chartTab in QUERY_FIELDS ==>
      Split(fields) == if chartTab == "views" then ["views", "visitors"] else [chartTab]
  {
    if chartTab == "views" then
      assert "views,visitors" == Join(["views", "visitors"]);
      SplitJoin(["views", "visitors"]);
      "views,visitors"
    else
      QueryFieldsCommaFree();
      if chartTab in QUERY_FIELDS then SplitNoComma(chartTab); chartTab else chartTab
  }

  /** lodash `difference(QUERY_FIELDS, primary.split(','))`, joined again:
      split back, it is exactly the canonical fields `primary` lacks, in
      canonical order; with none left it is the empty string. */
  function SupplementalFields(primary: string): (fields: string)
    ensures var rest := Filter(QUERY_FIELDS, NotIn(Split(primary)));
      && (rest != [] ==> Split(fields) == rest && IsSubsequence(rest, QUERY_FIELDS))
      && (rest == [] ==> fields == "")
  {
    var rest := Filter(QUERY_FIELDS, NotIn(Split(primary)));
    QueryFieldsCommaFree();
    if rest != [] then ComplementRoundTrip(QUERY_FIELDS, Split(primary)); Join(rest) else Join(rest)
  }

  function GenerateQueries<D>(period: string, date: D, quantity: int, chartTab: string): (r: QueryPair<D>)
    ensures r.query.unit == r.supplementalQuery.unit == period
    ensures r.query.date == r.supplementalQuery.date == date
    ensures r.query.quantity == r.supplementalQuery.quantity == quantity
    ensures chartTab == "views" ==> r.query.statFields == "views,visitors"
    ensures chartTab != "views" ==> r.query.statFields == chartTab
  {
    var fields := PrimaryFields(chartTab);
    QueryPair(Query(period, date, quantity, fields),
              Query(period, date, quantity, SupplementalFields(fields)))
  }

  /** The canonical field names contain no comma. */
  lemma QueryFieldsCommaFree()
    ensures forall i :: 0 <= i < |QUERY_FIELDS| ==> ',' !in QUERY_FIELDS[i]
  {
  }

  /** Joining the fields of `universe` that `primary` lacks and splitting the
      result gives those fields back, in the order of `universe`. */
  lemma {:induction false} ComplementRoundTrip(universe: seq<string>, primary: seq<string>)
    requires forall i :: 0 <= i < |universe| ==> ',' !in universe[i]
    requires Filter(universe, NotIn(primary)) != []
    ensures Split(Join(Filter(universe, NotIn(primary)))) == Filter(universe, NotIn(primary))
    ensures IsSubsequence(Filter(universe, NotIn(primary)), universe)
  {
    var rest := Filter(universe, NotIn(primary));
    forall i | 0 <= i < |rest| ensures ',' !in rest[i] {
      assert rest[i] in universe;
    }
    SplitJoin(rest);
    FilterIsSubsequence(universe, NotIn(primary));
  }

  /** Whatever the tab, the supplemental fields are the canonical fields the
      primary query does not request, in canonical order, whenever there are
      any left. */
  lemma SupplementalIsComplement<D>(period: string, date: D, quantity: int, chartTab: string)
    requires Filter(QUERY_FIELDS, NotIn(Split(PrimaryFields(chartTab)))) != []
    ensures var r := GenerateQueries(period, date, quantity, chartTab);
      && Split(r.supplementalQuery.statFields) == Filter(QUERY_FIELDS, NotIn(Split(r.query.statFields)))
      && IsSubsequence(Split(r.supplementalQuery.statFields), QUERY_FIELDS)
      && forall f :: f in Split(r.supplementalQuery.statFields) ==> f !in Split(r.query.statFields)
  {
    var fields := PrimaryFields(chartTab);
    assert Split(SupplementalFields(fields)) == Filter(QUERY_FIELDS, NotIn(Split(fields)));
  }

  /** Removing a sub-collection from a universe leaves exactly its complement. */
  lemma ComplementPartition(universe: seq<string>, primary: seq<string>)
    requires forall f :: f in primary ==> f in universe
    ensures var rest := Filter(universe, NotIn(primary));
      && (forall f :: f in primary ==> f !in rest)
      && (forall f :: f in universe <==> f in primary || f in rest)
  {
  }

  /** For a tab naming one of the canonical fields, the two queries split the
      canonical fields between them: disjoint, and together all of them. */
  lemma QueryFieldsPartition<D>(period: string, date: D, quantity: int, chartTab: string)
    requires chartTab in QUERY_FIELDS
    ensures var r := GenerateQueries(period, date, quantity, chartTab);
      var primary, supplemental := Split(r.query.statFields), Split(r.supplementalQuery.statFields);
      && primary == (if chartTab == "views" then ["views", "visitors"] else [chartTab])
      && (forall f :: f in primary ==> f !in supplemental)
      && (forall f :: f in QUERY_FIELDS <==> f in primary || f in supplemental)
      && IsSubsequence(supplemental, QUERY_FIELDS)
  {
    var primary := Split(PrimaryFields(chartTab));
    var leftover := if chartTab == "likes" then "views" else "likes";
    assert leftover in QUERY_FIELDS && leftover !in primary;
    assert leftover in Filter(QUERY_FIELDS, NotIn(primary));
    SupplementalIsComplement(period, date, quantity, chartTab);
    ComplementPartition(QUERY_FIELDS, primary);
  }

  // ---------------------------------------------------------------------
  // Anchoring a page of periods
  // ---------------------------------------------------------------------

  /** JavaScript `Math.floor(a / b)` for integers (Dafny's `/` is Euclidean,
      which differs for a negative divisor). */
  function FloorDiv(a: int, b: int): (q: int)
    requires b != 0
    ensures b > 0 ==> q * b <= a < q * b + b
    ensures b < 0 ==> q * b >= a > q * b + b
  {
    if b > 0 then a / b else (-a) / (-b)
  }

  /** The anchor of the page of `quantity` periods holding `queryDate`.
      Dates are period indices: `endOfPeriod` is the index of the last moment
      of the current period (in the site's time zone), `queryDate` the index
      of the requested date. For a positive quantity the anchor lies a whole
      number of pages before the end of the period, and a date not in the
      future falls in the anchor's page. A zero quantity makes the amount to
      subtract `NaN`, which moment's `subtract` treats as nothing, so the end
      of the period is returned. */
  function GetQueryDate(endOfPeriod: int, queryDate: int, quantity: int): (anchor: int)
    ensures quantity > 0 ==> anchor <= endOfPeriod && (endOfPeriod - anchor) % quantity == 0
    ensures quantity > 0 && queryDate <= endOfPeriod ==> anchor - quantity < queryDate <= anchor
    ensures quantity == 0 ==> anchor == endOfPeriod
  {
    var periodDifference := endOfPeriod - queryDate;
    if periodDifference >= quantity then
      if quantity == 0 then endOfPeriod
      else
        var pages := FloorDiv(periodDifference, quantity);
        if quantity > 0 then ModOfMultiple(pages, quantity); endOfPeriod - pages * quantity
        else endOfPeriod - pages * quantity
    else endOfPeriod
  }

  /** A requested date at least one page back is snapped to a page boundary:
      a whole, positive number of pages before the end of the current period,
      and the page ending there holds the requested date. */
  lemma AnchorBeforeCurrentPage(endOfPeriod: int, queryDate: int, quantity: int)
    requires quantity > 0 && endOfPeriod - queryDate >= quantity
    ensures var r := GetQueryDate(endOfPeriod, queryDate, quantity);
      && (exists k :: k >= 1 && r == endOfPeriod - k * quantity)
      && r < endOfPeriod
      && r - (quantity - 1) <= queryDate <= r
  {
    var d := endOfPeriod - queryDate;
    var k := d / quantity;
    assert k * quantity <= d < k * quantity + quantity;
    assert k >= 1 by {
      MulPositive(k, quantity);
    }
    assert GetQueryDate(endOfPeriod, queryDate, quantity) == endOfPeriod - k * quantity;
  }

  /** A requested date inside the current page, or any date with a zero
      quantity, keeps the end of the current period as its anchor. */
  lemma AnchorInCurrentPage(endOfPeriod: int, queryDate: int, quantity: int)
    requires endOfPeriod - queryDate < quantity || quantity == 0
    ensures GetQueryDate(endOfPeriod, queryDate, quantity) == endOfPeriod
  {
  }

  /** Seven-day pages and a date ten days back: the anchor is one page back,
      seven days before the end of the period; its page, 13 to 7 days back,
      holds the date. */
  lemma AnchorExample(endOfPeriod: int)
    ensures GetQueryDate(endOfPeriod, endOfPeriod - 10, 7) == endOfPeriod - 7
  {
  }

  /** Feeding an anchor back in returns the same anchor. */
  lemma AnchorFixedPoint(endOfPeriod: int, queryDate: int, quantity: int)
    requires quantity > 0
    ensures var r := GetQueryDate(endOfPeriod, queryDate, quantity);
      GetQueryDate(endOfPeriod, r, quantity) == r
  {
    var d := endOfPeriod - queryDate;
    if d >= quantity {
      var k := d / quantity;
      AnchorBeforeCurrentPage(endOfPeriod, queryDate, quantity);
      var a := endOfPeriod - k * quantity;
      assert endOfPeriod - a == k * quantity;
      DivExact(k, quantity);
    }
  }

  /** A multiple of `quantity` leaves no remainder. */
  lemma ModOfMultiple(k: int, quantity: int)
    requires quantity > 0
    ensures (k * quantity) % quantity == 0
  {
    DivExact(k, quantity);
    assert k * quantity == quantity * ((k * quantity) / quantity) + (k * quantity) % quantity;
  }

  lemma DivExact(k: int, quantity: int)
    requires quantity > 0
    ensures (k * quantity) / quantity == k
  {
    var q := (k * quantity) / quantity;
    var r := (k * quantity) % quantity;
    assert k * quantity == q * quantity + r && 0 <= r < quantity;
    FloorUnique(k * quantity, quantity, k);
  }

  /** For a date not in the future, the anchor is the only page boundary
      (a whole number of pages before the end of the current period) whose
      page of `quantity` periods holds the date. */
  lemma AnchorIsUniqueBoundary(endOfPeriod: int, queryDate: int, quantity: int, other: int)
    requires quantity > 0 && queryDate <= endOfPeriod
    requires (endOfPeriod - other) % quantity == 0 && other - quantity < queryDate <= other
    ensures GetQueryDate(endOfPeriod, queryDate, quantity) == other
  {
    var d := endOfPeriod - queryDate;
    var j := (endOfPeriod - other) / quantity;
    assert endOfPeriod - other == j * quantity;
    // other - quantity < queryDate <= other  gives  j * quantity <= d < j * quantity + quantity
    assert j * quantity <= d < j * quantity + quantity;
    assert d / quantity == j by {
      FloorUnique(d, quantity, j);
    }
    if d < quantity {
      assert j == 0;
    }
  }

  lemma FloorUnique(d: int, quantity: int, j: int)
    requires quantity > 0 && j * quantity <= d < j * quantity + quantity
    ensures d / quantity == j
  {
    var q := d / quantity;
    assert q * quantity <= d < q * quantity + quantity;
    assert (q - j) * quantity == q * quantity - j * quantity;
    MulBelowOne(q - j, quantity);
    MulBelowOne(j - q, quantity);
  }

  /** A positive multiple of a positive number has a factor of at least one. */
  lemma MulPositive(x: int, quantity: int)
    requires quantity > 0 && x * quantity > 0
    ensures x >= 1
  {
  }

  /** A multiple of a positive number that stays below it has a factor below one. */
  lemma MulBelowOne(x: int, quantity: int)
    requires quantity > 0 && x * quantity < quantity
    ensures x < 1
  {
  }

  // ---------------------------------------------------------------------
  // Period labels
  // ---------------------------------------------------------------------

  /** The label a period gets; `day` is a calendar-day index. The text of each
      format comes from the locale and is not modelled. */
  datatype DateLabel =
    | LongDate(day: int)              // 'LL'
    | WeekSpan(first: int, last: int) // 'L' - 'L'
    | MonthAndYear(day: int)          // 'MMMM YYYY'
    | YearOnly(day: int)              // 'YYYY'

  function FormatDate(day: int, period: string): (r: Option<DateLabel>)
    ensures r == None <==> period != "day" && period != "week" && period != "month" && period != "year"
    ensures period == "week" ==> r == Some(WeekSpan(day, day + 6))
    ensures r.Some? ==> match r.value
      case LongDate(d) => d == day && period == "day"
      case WeekSpan(first, _) => first == day && period == "week"
      case MonthAndYear(d) => d == day && period == "month"
      case YearOnly(d) => d == day && period == "year"
  {
    match period
    case "day" => Some(LongDate(day))
    case "week" => Some(WeekSpan(day, day + 6))
    case "month" => Some(MonthAndYear(day))
    case "year" => Some(YearOnly(day))
    case _ => None
  }
}
