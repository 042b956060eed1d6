/** Per-table statistics for the lab4 optimizer: one pass over the table finds
    each integer column's minimum and maximum (and counts the rows), one
    histogram is built per column, and a second pass feeds every value to its
    column's histogram. The table is the sequence of rows a scan returns; a
    histogram is modelled by the multiset of values it has been given. */
module TableStatistics {
  import opened Types

  /** Bins per histogram. */
  const NUM_HIST_BINS: int := 100
  /** The I/O cost per page the statistics are computed with. */
  const IOCOSTPERPAGE: int32 := 1000
  /** Integer.MAX_VALUE and Integer.MIN_VALUE. */
  const INT_MAX: int32 := 0x7fff_ffff
  const INT_MIN: int32 := -0x8000_0000

  datatype FieldType = IntType | StringType

  datatype Field = IntField(n: int32) | StringField(s: string)
  {
    function Type(): FieldType {
      if IntField? then IntType else StringType
    }
  }

  type Row = seq<Field>

  /** An integer histogram over [min, max] with `buckets` bins, and the values
      it has been given. */
  datatype IntHistogram = IntHistogram(buckets: int, min: int32, max: int32, values: multiset<int32>)
  {
    /** addValue: one more value recorded. */
    function AddValue(v: int32): (h: IntHistogram)
      ensures h.buckets == buckets && h.min == min && h.max == max
      ensures h.values[v] == values[v] + 1 && |h.values| == |values| + 1
    {
      this.(values := values + multiset{v})
    }
  }

  /** A string histogram with `buckets` bins, and the values it has been given. */
  datatype StringHistogram = StringHistogram(buckets: int, values: multiset<string>)
  {
    /** addValue: one more value recorded. */
    function AddValue(v: string): (h: StringHistogram)
      ensures h.buckets == buckets
      ensures h.values[v] == values[v] + 1 && |h.values| == |values| + 1
    {
      this.(values := values + multiset{v})
    }
  }

  /** The rows match the table's descriptor: one field per column, each of the
      column's type. */
  predicate WellTyped(rows: seq<Row>, types: seq<FieldType>) {
    forall r :: 0 <= r < |rows| ==>
      |rows[r]| == |types| && forall i :: 0 <= i < |types| ==> rows[r][i].Type() == types[i]
  }

  /** Column `i` holds integers in every row. */
  predicate IntColumn(rows: seq<Row>, i: nat) {
    forall r :: 0 <= r < |rows| ==> i < |rows[r]| && rows[r][i].IntField?
  }

  /** Column `i` holds strings in every row. */
  predicate StringColumn(rows: seq<Row>, i: nat) {
    forall r :: 0 <= r < |rows| ==> i < |rows[r]| && rows[r][i].StringField?
  }

  /** Math.min and Math.max on Java ints. */
  function Min32(a: int32, b: int32): (m: int32)
    ensures m <= a && m <= b && (m == a || m == b)
  {
    if a <= b then a else b
  }

  function Max32(a: int32, b: int32): (m: int32)
    ensures m >= a && m >= b && (m == a || m == b)
  {
    if a >= b then a else b
  }

  /** The scan's minimum of column `i`, starting from Integer.MAX_VALUE: a lower
      bound of the column that some row attains, or Integer.MAX_VALUE on an
      empty table. */
  function ColumnMin(rows: seq<Row>, i: nat): (m: int32)
    requires IntColumn(rows, i)
    ensures forall r :: 0 <= r < |rows| ==> m <= rows[r][i].n
    ensures rows == [] ==> m == INT_MAX
    ensures rows != [] ==> exists r :: 0 <= r < |rows| && m == rows[r][i].n
    decreases |rows|
  {
    if rows == [] then INT_MAX
    else
      var init := rows[..|rows| - 1];
      assert forall r :: 0 <= r < |init| ==> init[r] == rows[r];
      Min32(rows[|rows| - 1][i].n, ColumnMin(init, i))
  }

  /** The scan's maximum of column `i`, starting from Integer.MIN_VALUE: an
      upper bound of the column that some row attains, or Integer.MIN_VALUE on
      an empty table. */
  function ColumnMax(rows: seq<Row>, i: nat): (m: int32)
    requires IntColumn(rows, i)
    ensures forall r :: 0 <= r < |rows| ==> rows[r][i].n <= m
    ensures rows == [] ==> m == INT_MIN
    ensures rows != [] ==> exists r :: 0 <= r < |rows| && m == rows[r][i].n
    decreases |rows|
  {
    if rows == [] then INT_MIN
    else
      var init := rows[..|rows| - 1];
      assert forall r :: 0 <= r < |init| ==> init[r] == rows[r];
      Max32(rows[|rows| - 1][i].n, ColumnMax(init, i))
  }

  /** The values of integer column `i`, one per row. */
  function IntValues(rows: seq<Row>, i: nat): (m: multiset<int32>)
    requires IntColumn(rows, i)
    ensures |m| == |rows|
    ensures forall r :: 0 <= r < |rows| ==> rows[r][i].n in m
    decreases |rows|
  {
    if rows == [] then multiset{}
    else
      var init := rows[..|rows| - 1];
      IntValues(init, i) + multiset{rows[|rows| - 1][i].n}
  }

  /** The values of string column `i`, one per row. */
  function StringValues(rows: seq<Row>, i: nat): (m: multiset<string>)
    requires StringColumn(rows, i)
    ensures |m| == |rows|
    ensures forall r :: 0 <= r < |rows| ==> rows[r][i].s in m
    decreases |rows|
  {
    if rows == [] then multiset{}
    else
      var init := rows[..|rows| - 1];
      StringValues(init, i) + multiset{rows[|rows| - 1][i].s}
  }

  /** Scanning one more row adds that row's value to the column's values. */
  lemma IntValuesStep(rows: seq<Row>, j: nat, i: nat)
    requires IntColumn(rows, i) && j < |rows|
    ensures IntColumn(rows[..j], i) && IntColumn(rows[..j + 1], i)
    ensures IntValues(rows[..j + 1], i) == IntValues(rows[..j], i) + multiset{rows[j][i].n}
  {
    assert rows[..j + 1][..j] == rows[..j];
  }

  lemma StringValuesStep(rows: seq<Row>, j: nat, i: nat)
    requires StringColumn(rows, i) && j < |rows|
    ensures StringColumn(rows[..j], i) && StringColumn(rows[..j + 1], i)
    ensures StringValues(rows[..j + 1], i) == StringValues(rows[..j], i) + multiset{rows[j][i].s}
  {
    assert rows[..j + 1][..j] == rows[..j];
  }

  /** `after` is `before` with each histogram given its column's values in `rows`. */
  ghost predicate IntFed(before: map<int, IntHistogram>, after: map<int, IntHistogram>, rows: seq<Row>) {
    && after.Keys == before.Keys
    && forall i :: i in after ==>
         IntColumn(rows, i) && after[i] == before[i].(values := before[i].values + IntValues(rows, i))
  }

  ghost predicate StringFed(before: map<int, StringHistogram>, after: map<int, StringHistogram>, rows: seq<Row>) {
    && after.Keys == before.Keys
    && forall i :: i in after ==>
         StringColumn(rows, i) && after[i] == before[i].(values := before[i].values + StringValues(rows, i))
  }

  /** `after` is `before` with each histogram given its field of `tuple`. */
  ghost predicate IntAdded(before: map<int, IntHistogram>, after: map<int, IntHistogram>, tuple: Row) {
    && after.Keys == before.Keys
    && forall i :: i in after ==>
         0 <= i < |tuple| && tuple[i].IntField? &&
         after[i] == before[i].AddValue(tuple[i].n)
  }

  ghost predicate StringAdded(before: map<int, StringHistogram>, after: map<int, StringHistogram>, tuple: Row) {
    && after.Keys == before.Keys
    && forall i :: i in after ==>
         0 <= i < |tuple| && tuple[i].StringField? &&
         after[i] == before[i].AddValue(tuple[i].s)
  }

  /** The field loop of addValueToHist on one row: field `i` goes to histogram
      `i` of the map its type selects. */
  method AddFields(ints0: map<int, IntHistogram>, strings0: map<int, StringHistogram>, tuple: Row)
    returns (ints: map<int, IntHistogram>, strings: map<int, StringHistogram>)
    requires forall k :: 0 <= k < |tuple| ==>
      (tuple[k].IntField? ==> k in ints0) && (tuple[k].StringField? ==> k in strings0)
    requires forall k :: k in ints0 ==> 0 <= k < |tuple| && tuple[k].IntField?
    requires forall k :: k in strings0 ==> 0 <= k < |tuple| && tuple[k].StringField?
    ensures IntAdded(ints0, ints, tuple) && StringAdded(strings0, strings, tuple)
  {
    ints, strings := ints0, strings0;
    for i := 0 to |tuple|
      invariant ints.Keys == ints0.Keys && strings.Keys == strings0.Keys
      invariant forall k :: k in ints ==> ints[k] == if k < i then ints0[k].AddValue(tuple[k].n) else ints0[k]
      invariant forall k :: k in strings ==> strings[k] == if k < i then strings0[k].AddValue(tuple[k].s) else strings0[k]
    {
      var field := tuple[i];
      if field.IntField? {
        ints := ints[i := ints[i].AddValue(field.n)];
      } else {
        strings := strings[i := strings[i].AddValue(field.s)];
      }
    }
  }

  /** Feeding the rows before `j`, then row `j`, feeds the rows up to `j`. */
  lemma IntFedStep(before: map<int, IntHistogram>, mid: map<int, IntHistogram>, after: map<int, IntHistogram>,
                   rows: seq<Row>, j: nat)
    requires j < |rows| && IntFed(before, mid, rows[..j]) && IntAdded(mid, after, rows[j])
    requires forall i :: i in before ==> IntColumn(rows, i)
    ensures IntFed(before, after, rows[..j + 1])
  {
    forall i | i in after
      ensures IntColumn(rows[..j + 1], i) && after[i] == before[i].(values := before[i].values + IntValues(rows[..j + 1], i))
    {
      IntValuesStep(rows, j, i);
    }
  }

  lemma StringFedStep(before: map<int, StringHistogram>, mid: map<int, StringHistogram>, after: map<int, StringHistogram>,
                      rows: seq<Row>, j: nat)
    requires j < |rows| && StringFed(before, mid, rows[..j]) && StringAdded(mid, after, rows[j])
    requires forall i :: i in before ==> StringColumn(rows, i)
    ensures StringFed(before, after, rows[..j + 1])
  {
    forall i | i in after
      ensures StringColumn(rows[..j + 1], i) && after[i] == before[i].(values := before[i].values + StringValues(rows[..j + 1], i))
    {
      StringValuesStep(rows, j, i);
    }
  }

  /** A column of a well-typed table has the type the descriptor gives it. */
  lemma ColumnOfType(rows: seq<Row>, types: seq<FieldType>, i: nat)
    requires WellTyped(rows, types) && i < |types|
    ensures types[i] == IntType ==> IntColumn(rows, i)
    ensures types[i] == StringType ==> StringColumn(rows, i)
  {
  }

  /** What the first pass leaves in mins[k] and maxs[k]: the column's bounds
      for an integer column, 0 for a skipped string column. */
  ghost function Bounds(rows: seq<Row>, types: seq<FieldType>, k: nat): (int32, int32)
    requires WellTyped(rows, types) && k < |types|
  {
    ColumnOfType(rows, types, k);
    if types[k] == IntType then (ColumnMin(rows, k), ColumnMax(rows, k)) else (0, 0)
  }

  /** One column of the first pass: the scan over every row from
      Integer.MAX_VALUE / Integer.MIN_VALUE, counting the rows only while
      column 0 is scanned. */
  method ScanColumn(rows: seq<Row>, i: nat) returns (min: int32, max: int32, counted: int)
    requires IntColumn(rows, i)
    ensures min == ColumnMin(rows, i) && max == ColumnMax(rows, i)
    ensures counted == if i == 0 then |rows| else 0
  {
    min := INT_MAX;
    max := INT_MIN;
    counted := 0;
    var j := 0;
    while j < |rows|
      invariant 0 <= j <= |rows|
      invariant min == ColumnMin(rows[..j], i) && max == ColumnMax(rows[..j], i)
      invariant counted == if i == 0 then j else 0
    {
      if i == 0 {
        counted := counted + 1;
      }
      var val := rows[j][i].n;
      assert rows[..j + 1][..j] == rows[..j];
      max := Max32(val, max);
      min := Min32(val, min);
      j := j + 1;
    }
    assert rows[..j] == rows;
  }

  /** The constructor's first pass: for each integer column, scan every row
      keeping the smallest and largest value, counting the rows while scanning
      column 0; a string column is skipped and keeps 0 in both arrays. */
  method ScanBounds(rows: seq<Row>, types: seq<FieldType>)
    returns (mins: seq<int32>, maxs: seq<int32>, tuplesNum: int)
    requires WellTyped(rows, types)
    ensures |mins| == |types| && |maxs| == |types|
    ensures forall i :: 0 <= i < |types| && types[i] == IntType ==>
      IntColumn(rows, i) && mins[i] == ColumnMin(rows, i) && maxs[i] == ColumnMax(rows, i)
    ensures forall i :: 0 <= i < |types| && types[i] == StringType ==> mins[i] == 0 && maxs[i] == 0
    ensures tuplesNum == if |types| > 0 && types[0] == IntType then |rows| else 0
  {
    var fieldsNum := |types|;
    var minArr := new int32[fieldsNum](_ => 0);
    var maxArr := new int32[fieldsNum](_ => 0);
    tuplesNum := 0;
    for i := 0 to fieldsNum
      invariant forall k :: 0 <= k < i ==> (minArr[k], maxArr[k]) == Bounds(rows, types, k)
      invariant forall k :: i <= k < fieldsNum ==> minArr[k] == 0 && maxArr[k] == 0
      invariant tuplesNum == if i > 0 && types[0] == IntType then |rows| else 0
    {
      if types[i] == StringType {
        continue;
      }
      ColumnOfType(rows, types, i);
      var min, max, counted := ScanColumn(rows, i);
      tuplesNum := tuplesNum + counted;
      minArr[i] := min;
      maxArr[i] := max;
    }
    mins := minArr[..];
    maxs := maxArr[..];
    forall i | 0 <= i < |types|
      ensures types[i] == IntType ==>
        IntColumn(rows, i) && mins[i] == ColumnMin(rows, i) && maxs[i] == ColumnMax(rows, i)
      ensures types[i] == StringType ==> mins[i] == 0 && maxs[i] == 0
    {
      ColumnOfType(rows, types, i);
      assert (mins[i], maxs[i]) == Bounds(rows, types, i);
    }
  }

  /** The constructor's histogram maps: an empty integer histogram over the
      column's [min, max] for each integer column, an empty string histogram
      for each other column. */
  method BuildHistograms(types: seq<FieldType>, mins: seq<int32>, maxs: seq<int32>)
    returns (integerHashMap: map<int, IntHistogram>, stringHashMap: map<int, StringHistogram>)
    requires |mins| == |types| && |maxs| == |types|
    ensures forall i :: i in integerHashMap <==> 0 <= i < |types| && types[i] == IntType
    ensures forall i :: i in stringHashMap <==> 0 <= i < |types| && types[i] == StringType
    ensures forall i :: i in integerHashMap ==>
      integerHashMap[i] == IntHistogram(NUM_HIST_BINS, mins[i], maxs[i], multiset{})
    ensures forall i :: i in stringHashMap ==> stringHashMap[i] == StringHistogram(NUM_HIST_BINS, multiset{})
  {
    integerHashMap := map[];
    stringHashMap := map[];
    for i := 0 to |types|
      invariant forall k :: k in integerHashMap <==> 0 <= k < i && types[k] == IntType
      invariant forall k :: k in stringHashMap <==> 0 <= k < i && types[k] == StringType
      invariant forall k :: k in integerHashMap ==>
        integerHashMap[k] == IntHistogram(NUM_HIST_BINS, mins[k], maxs[k], multiset{})
      invariant forall k :: k in stringHashMap ==> stringHashMap[k] == StringHistogram(NUM_HIST_BINS, multiset{})
    {
      if types[i] == IntType {
        integerHashMap := integerHashMap[i := IntHistogram(NUM_HIST_BINS, mins[i], maxs[i], multiset{})];
      } else {
        stringHashMap := stringHashMap[i := StringHistogram(NUM_HIST_BINS, multiset{})];
      }
    }
  }

  /** estimateScanCost as written: pagesNum * ioCostPerPage multiplied as Java
      ints, so the product wraps around modulo 2^32 before it becomes a double. */
  function ScanCost(pagesNum: int32, ioCostPerPage: int32): (cost: int32)
    ensures (cost as int - pagesNum as int * ioCostPerPage as int) % 0x1_0000_0000 == 0
    ensures -0x8000_0000 <= pagesNum as int * ioCostPerPage as int < 0x8000_0000 ==>
      cost as int == pagesNum as int * ioCostPerPage as int
  {
    Wrap32(pagesNum as int * ioCostPerPage as int)
  }

  /** With the default cost per page, a table of 2147484 pages gets a negative
      scan cost, cheaper than a table of one page fewer. */
  lemma ScanCostOverflows()
    ensures ScanCost(2147484, IOCOSTPERPAGE) < 0
    ensures ScanCost(2147484, IOCOSTPERPAGE) < ScanCost(2147483, IOCOSTPERPAGE)
  {
    assert 2147484 * 1000 == 2147484000;
    assert 2147483 * 1000 == 2147483000;
  }

  /** estimateScanCost as intended: the product of the page count and the cost
      per page, computed without wrap-around. */
  function ScanCostIntended(pagesNum: int32, ioCostPerPage: int32): (cost: int)
    ensures pagesNum >= 0 && ioCostPerPage >= 0 ==> cost >= 0
  {
    pagesNum as int * ioCostPerPage as int
  }

  /** The two agree exactly when the product fits in a Java int. */
  lemma ScanCostAgrees(pagesNum: int32, ioCostPerPage: int32)
    ensures -0x8000_0000 <= ScanCostIntended(pagesNum, ioCostPerPage) < 0x8000_0000 <==>
      ScanCost(pagesNum, ioCostPerPage) as int == ScanCostIntended(pagesNum, ioCostPerPage)
  {
  }

  /** The intended cost never decreases as the table grows. */
  lemma ScanCostIntendedMonotone(pages1: int32, pages2: int32, ioCostPerPage: int32)
    requires 0 <= pages1 <= pages2 && ioCostPerPage >= 0
    ensures ScanCostIntended(pages1, ioCostPerPage) <= ScanCostIntended(pages2, ioCostPerPage)
  {
    assert pages1 as int * ioCostPerPage as int <= pages2 as int * ioCostPerPage as int by {
      MulMonotone(pages1 as int, pages2 as int, ioCostPerPage as int);
    }
  }

  lemma MulMonotone(a: int, b: int, c: int)
    requires 0 <= a <= b && c >= 0
    ensures a * c <= b * c
  {
  }

  class TableStats {
    const tableId: int
    const ioCostPerPage: int32
    /** the table's page count, as its heap file reports it */
    const pagesNum: int32
    /** the table's descriptor: the type of each column */
    const types: seq<FieldType>
    /** the table's rows, as a sequential scan returns them */
    const rows: seq<Row>
    const fieldsNum: nat
    const tuplesNum: int
    /** column index -> histogram, for integer columns */
    var integerHashMap: map<int, IntHistogram>
    /** column index -> histogram, for string columns */
    var stringHashMap: map<int, StringHistogram>

    /** The maps hold one histogram per column, of the column's type. */
    ghost predicate Shaped()
      reads this
    {
      && WellTyped(rows, types) && fieldsNum == |types|
      && (forall i :: i in integerHashMap <==> 0 <= i < fieldsNum && types[i] == IntType)
      && (forall i :: i in stringHashMap <==> 0 <= i < fieldsNum && types[i] == StringType)
    }

    /** The statistics a constructed TableStats holds: the row count (when
        column 0 is an integer column), and per column a histogram that has
        received exactly the column's values, integer ones over the column's
        scanned [min, max]. */
    ghost predicate Valid()
      reads this
    {
      && Shaped()
      && tuplesNum == (if fieldsNum > 0 && types[0] == IntType then |rows| else 0)
      && (forall i :: i in integerHashMap ==>
            IntColumn(rows, i) &&
            integerHashMap[i] == IntHistogram(NUM_HIST_BINS, ColumnMin(rows, i), ColumnMax(rows, i), IntValues(rows, i)))
      && (forall i :: i in stringHashMap ==>
            StringColumn(rows, i) &&
            stringHashMap[i] == StringHistogram(NUM_HIST_BINS, StringValues(rows, i)))
    }

    /** The constructor: scan for bounds and the row count, build the maps,
        then feed the histograms. */
    constructor (tableid: int, costPerPage: int32, numPages: int32, desc: seq<FieldType>, table: seq<Row>)
      requires WellTyped(table, desc)
      ensures Valid()
      ensures tableId == tableid && ioCostPerPage == costPerPage && pagesNum == numPages
      ensures types == desc && rows == table
    {
      tableId := tableid;
      ioCostPerPage := costPerPage;
      pagesNum := numPages;
      types := desc;
      rows := table;
      fieldsNum := |desc|;
      var mins, maxs, count := ScanBounds(table, desc);
      tuplesNum := count;
      var ints, strings := BuildHistograms(desc, mins, maxs);
      integerHashMap := ints;
      stringHashMap := strings;
      new;
      forall i | i in stringHashMap
        ensures StringColumn(rows, i)
      {
        ColumnOfType(rows, types, i);
      }
      AddValueToHist();
    }

    /** addValueToHist: for every row, every field's value goes to its
        column's histogram (an integer histogram for an integer field, a
        string histogram otherwise). */
    method AddValueToHist()
      requires Shaped()
      requires forall i :: i in integerHashMap ==> IntColumn(rows, i)
      requires forall i :: i in stringHashMap ==> StringColumn(rows, i)
      modifies this
      ensures Shaped()
      ensures IntFed(old(integerHashMap), integerHashMap, rows)
      ensures StringFed(old(stringHashMap), stringHashMap, rows)
    {
      var j := 0;
      while j < |rows|
        invariant 0 <= j <= |rows| && Shaped()
        invariant IntFed(old(integerHashMap), integerHashMap, rows[..j])
        invariant StringFed(old(stringHashMap), stringHashMap, rows[..j])
      {
        ghost var ints, strings := integerHashMap, stringHashMap;
        AddTuple(rows[j]);
        IntFedStep(old(integerHashMap), ints, integerHashMap, rows, j);
        StringFedStep(old(stringHashMap), strings, stringHashMap, rows, j);
        j := j + 1;
      }
      assert rows[..j] == rows;
    }

    /** One row of addValueToHist's scan: each field goes to its column's
        histogram. */
    method AddTuple(tuple: Row)
      requires Shaped() && |tuple| == fieldsNum
      requires forall i :: i in integerHashMap ==> tuple[i].IntField?
      requires forall i :: i in stringHashMap ==> tuple[i].StringField?
      modifies this
      ensures Shaped()
      ensures IntAdded(old(integerHashMap), integerHashMap, tuple)
      ensures StringAdded(old(stringHashMap), stringHashMap, tuple)
    {
      assert forall k :: 0 <= k < |tuple| ==>
        (tuple[k].IntField? ==> k in integerHashMap) && (tuple[k].StringField? ==> k in stringHashMap);
      integerHashMap, stringHashMap := AddFields(integerHashMap, stringHashMap, tuple);
    }

    /** estimateScanCost: the page count times the cost per page, as Java ints. */
    function EstimateScanCost(): (cost: int32)
      reads this
      ensures (cost as int - pagesNum as int * ioCostPerPage as int) % 0x1_0000_0000 == 0
    {
      ScanCost(pagesNum, ioCostPerPage)
    }

    /** totalTuples: the row count when column 0 is an integer column, and 0
        otherwise (the counting happens only while column 0 is scanned, and a
        string column is not scanned). */
    function TotalTuples(): (n: int)
      reads this
      requires Valid()
      ensures fieldsNum > 0 && types[0] == IntType ==> n == |rows|
      ensures fieldsNum == 0 || types[0] == StringType ==> n == 0
    {
      tuplesNum
    }
  }

  /** Every value an integer histogram holds lies in the histogram's [min, max],
      the histogram holds one value per row, and on a non-empty table both
      bounds are values of the column. */
  lemma HistogramWithinBounds(stats: TableStats, i: int)
    requires stats.Valid() && i in stats.integerHashMap
    ensures var h := stats.integerHashMap[i];
      && |h.values| == |stats.rows|
      && (forall v :: v in h.values ==> h.min <= v <= h.max)
      && (stats.rows != [] ==> h.min in h.values && h.max in h.values)
  {
    ValuesWithinBounds(stats.rows, i);
  }

  /** Every value of an integer column lies between the scan's minimum and
      maximum of that column. */
  lemma {:induction false} ValuesWithinBounds(rows: seq<Row>, i: nat)
    requires IntColumn(rows, i)
    ensures forall v :: v in IntValues(rows, i) ==> ColumnMin(rows, i) <= v <= ColumnMax(rows, i)
    decreases |rows|
  {
    if rows != [] {
      var init := rows[..|rows| - 1];
      assert IntColumn(init, i);
      ValuesWithinBounds(init, i);
    }
  }

  /** Every column has exactly one histogram: integer columns in the integer
      map, the others in the string map. */
  lemma HistogramKeys(stats: TableStats)
    requires stats.Valid()
    ensures forall i :: i in stats.integerHashMap || i in stats.stringHashMap <==> 0 <= i < stats.fieldsNum
    ensures stats.integerHashMap.Keys * stats.stringHashMap.Keys == {}
  {
  }

  /** On an empty table an integer histogram is built over the scan's starting
      bounds: [Integer.MAX_VALUE, Integer.MIN_VALUE], an empty range. */
  lemma EmptyTableBounds(stats: TableStats, i: int)
    requires stats.Valid() && i in stats.integerHashMap && stats.rows == []
    ensures stats.integerHashMap[i].min == INT_MAX && stats.integerHashMap[i].max == INT_MIN
    ensures stats.integerHashMap[i].values == multiset{}
  {
  }

  /** The name -> statistics registry. */
  class StatsRegistry {
    var statsMap: map<string, TableStats>

    constructor ()
      ensures statsMap == map[]
    {
      statsMap := map[];
    }

    /** getTableStats: the statistics registered under `tablename`, None when
        there are none. */
    function GetTableStats(tablename: string): (stats: Option<TableStats>)
      reads this
      ensures stats.Some? <==> tablename in statsMap
      ensures stats.Some? ==> stats.value == statsMap[tablename]
    {
      if tablename in statsMap then Some(statsMap[tablename]) else None
    }

    /** setTableStats: register `stats` under `tablename`; a later lookup of
        that name finds it, and every other name keeps its entry. */
    method SetTableStats(tablename: string, stats: TableStats)
      modifies this
      ensures statsMap == old(statsMap)[tablename := stats]
      ensures GetTableStats(tablename) == Some(stats)
      ensures forall other :: other != tablename ==> GetTableStats(other) == old(GetTableStats(other))
    {
      statsMap := statsMap[tablename := stats];
    }
  }
}
