/** The three tables of the statistics dialog. Each is the same pipeline:
    group the expenses by a key and sum their amounts
    (`groupingBy(key, summingDouble(getPrice))`), sort the groups by key
    (`entrySet().stream().sorted(comparingByKey())`), then render each
    group as a row of a label and its total printed with `%.2f`. The input
    is the list of records the dialog was opened with. */
module Statistics {
  import opened Wrappers
  import opened Text
  import opened Calendar
  import opened Weeks
  import opened Money
  import opened Expenses

  /** A group: its key and the sum of the amounts filed under it. */
  datatype Entry<K> = Entry(key: K, total: real)

  /** A table row as displayed: the period the group covers and the formatted total. */
  datatype Row = Row(period: string, total: string)

  /** The order `comparingByKey` sorts by: irreflexive, transitive and
      total, as `compareTo` is on dates, months and strings. */
  ghost predicate IsStrictOrder<K(!new)>(less: (K, K) -> bool) {
    && (forall a :: !less(a, a))
    && (forall a, b, c :: Chain(less, a, b, c) ==> less(a, c))
    && (forall a, b :: a == b || less(a, b) || less(b, a))
  }

  /** `a`, `b`, `c` ascend. Transitivity is stated on chains, so that it is
      applied only where a proof names the chain. */
  ghost predicate Chain<K>(less: (K, K) -> bool, a: K, b: K, c: K) {
    less(a, b) && less(b, c)
  }

  // ---------------------------------------------------------------------
  // Grouping
  // ---------------------------------------------------------------------

  /** The sum of the amounts of the records whose key is `k`, in list order. */
  function SumWhere<K(==)>(rs: seq<Record>, key: Record -> K, k: K): real {
    if rs == [] then 0.0
    else SumWhere(rs[..|rs| - 1], key, k) + (if key(rs[|rs| - 1]) == k then rs[|rs| - 1].amount else 0.0)
  }

  /** The sum of all amounts, in list order. */
  function SumAll(rs: seq<Record>): (total: real) {
    if rs == [] then 0.0 else SumAll(rs[..|rs| - 1]) + rs[|rs| - 1].amount
  }

  /** `groupingBy(key, summingDouble(getPrice))`: each record in turn adds its
      amount to the bucket of its key, opening the bucket at zero. */
  function GroupTotals<K(==)>(rs: seq<Record>, key: Record -> K): (m: map<K, real>)
    ensures rs == [] ==> m == map[]
  {
    if rs == [] then map[]
    else
      var m, r := GroupTotals(rs[..|rs| - 1], key), rs[|rs| - 1];
      m[key(r) := (if key(r) in m then m[key(r)] else 0.0) + r.amount]
  }

  /** There is one bucket per key that occurs, and no other. */
  lemma {:induction false} GroupTotalsKeys<K>(rs: seq<Record>, key: Record -> K)
    ensures var m := GroupTotals(rs, key);
            && (forall i :: 0 <= i < |rs| ==> key(rs[i]) in m)
            && (forall k :: k in m ==> exists i :: 0 <= i < |rs| && key(rs[i]) == k)
  {
    if rs != [] {
      var prefix, r := rs[..|rs| - 1], rs[|rs| - 1];
      GroupTotalsKeys(prefix, key);
      var m := GroupTotals(rs, key);
      forall i | 0 <= i < |rs| ensures key(rs[i]) in m {
        if i < |prefix| {
          assert rs[i] == prefix[i];
        }
      }
      forall k | k in m ensures exists i :: 0 <= i < |rs| && key(rs[i]) == k {
        if k != key(r) {
          var i :| 0 <= i < |prefix| && key(prefix[i]) == k;
          assert rs[i] == prefix[i];
        } else {
          assert key(rs[|rs| - 1]) == k;
        }
      }
    }
  }

  /** Each bucket holds the sum of the amounts of the records with its key. */
  lemma {:induction false} GroupTotalsSums<K>(rs: seq<Record>, key: Record -> K)
    ensures var m := GroupTotals(rs, key);
            forall k :: k in m ==> m[k] == SumWhere(rs, key, k)
  {
    if rs != [] {
      var prefix, r := rs[..|rs| - 1], rs[|rs| - 1];
      GroupTotalsSums(prefix, key);
      var m0, m := GroupTotals(prefix, key), GroupTotals(rs, key);
      forall k | k in m ensures m[k] == SumWhere(rs, key, k) {
        if k == key(r) && k !in m0 {
          GroupTotalsKeys(prefix, key);
          SumWhereAbsent(prefix, key, k);
        }
      }
    }
  }

  /** A key no record has sums to zero. */
  lemma {:induction false} SumWhereAbsent<K>(rs: seq<Record>, key: Record -> K, k: K)
    requires forall i :: 0 <= i < |rs| ==> key(rs[i]) != k
    ensures SumWhere(rs, key, k) == 0.0
  {
    if rs != [] {
      SumWhereAbsent(rs[..|rs| - 1], key, k);
    }
  }

  // ---------------------------------------------------------------------
  // Sorting
  // ---------------------------------------------------------------------

  /** Transitivity through a fixed middle element, as an implication. */
  lemma ChainThrough<K(!new)>(less: (K, K) -> bool, a: K, b: K, c: K)
    requires IsStrictOrder(less)
    ensures less(a, b) && less(b, c) ==> less(a, c)
  {
    assert Chain(less, a, b, c) ==> less(a, c);
  }

  /** A non-empty finite set has a least element: none is below it. */
  lemma {:induction false} LeastExists<K(!new)>(s: set<K>, less: (K, K) -> bool)
    requires s != {} && IsStrictOrder(less)
    ensures exists k :: k in s && forall j :: j in s ==> !less(j, k)
    decreases |s|
  {
    var x :| x in s;
    if s == {x} {
      assert forall j :: j in s ==> !less(j, x);
    } else {
      LeastExists(s - {x}, less);
      var y :| y in s - {x} && forall j :: j in s - {x} ==> !less(j, y);
      if less(x, y) {
        forall j | j in s ensures !less(j, x) {
          ChainThrough(less, j, x, y);
        }
        assert x in s && forall j :: j in s ==> !less(j, x);
      } else {
        assert y in s && forall j :: j in s ==> !less(j, y);
      }
    }
  }

  /** The least key of a non-empty set: no key is below it. */
  function Least<K(==,!new)>(s: set<K>, less: (K, K) -> bool): (k: K)
    requires s != {} && IsStrictOrder(less)
    ensures k in s && forall j :: j in s ==> !less(j, k)
  {
    LeastExists(s, less);
    var k :| k in s && forall j :: j in s ==> !less(j, k);
    k
  }

  /** The least key is below every other one. */
  lemma LeastBelow<K(!new)>(s: set<K>, less: (K, K) -> bool)
    requires s != {} && IsStrictOrder(less)
    ensures forall j :: j in s && j != Least(s, less) ==> less(Least(s, less), j)
  {
  }

  /** `entrySet().stream().sorted(comparingByKey())`: the groups of `m` from
      the least key up, one entry per key. */
  function SortByKey<K(==,!new)>(m: map<K, real>, less: (K, K) -> bool): (es: seq<Entry<K>>)
    requires IsStrictOrder(less)
    ensures |es| == |m|
    decreases |m|
  {
    if m == map[] then []
    else
      var k := Least(m.Keys, less);
      SmallerWithout(m, k);
      [Entry(k, m[k])] + SortByKey(m - {k}, less)
  }

  /** One step of the sort: the least group, then the sorted rest. */
  lemma SortByKeyStep<K(!new)>(m: map<K, real>, less: (K, K) -> bool)
    requires IsStrictOrder(less) && m != map[]
    ensures var k := Least(m.Keys, less);
            && |m - {k}| < |m|
            && SortByKey(m, less) == [Entry(k, m[k])] + SortByKey(m - {k}, less)
  {
    SmallerWithout(m, Least(m.Keys, less));
  }

  lemma SmallerWithout<K>(m: map<K, real>, k: K)
    requires k in m
    ensures |m - {k}| == |m| - 1
  {
    assert m.Keys == (m - {k}).Keys + {k};
  }

  /** Each entry of the sorted table is a group of the map, with its total. */
  lemma {:induction false} SortByKeyEntries<K(!new)>(m: map<K, real>, less: (K, K) -> bool)
    requires IsStrictOrder(less)
    ensures var es := SortByKey(m, less);
            forall i :: 0 <= i < |es| ==> es[i].key in m && es[i].total == m[es[i].key]
    decreases |m|
  {
    if m != map[] {
      var k := Least(m.Keys, less);
      SortByKeyStep(m, less);
      SortByKeyEntries(m - {k}, less);
      var tail, es := SortByKey(m - {k}, less), SortByKey(m, less);
      forall i | 1 <= i < |es| ensures es[i].key in m && es[i].total == m[es[i].key] {
        assert es[i] == tail[i - 1];
      }
    }
  }

  /** Every group of the map has an entry in the sorted table. */
  lemma {:induction false} SortByKeyCovers<K(!new)>(m: map<K, real>, less: (K, K) -> bool, key: K)
    requires IsStrictOrder(less) && key in m
    ensures var es := SortByKey(m, less);
            exists i :: 0 <= i < |es| && es[i].key == key
    decreases |m|
  {
    var k := Least(m.Keys, less);
    var es := SortByKey(m, less);
    SortByKeyStep(m, less);
    if key == k {
      assert es[0].key == key;
    } else {
      SortByKeyCovers(m - {k}, less, key);
      var tail := SortByKey(m - {k}, less);
      var i :| 0 <= i < |tail| && tail[i].key == key;
      assert es[i + 1].key == key;
    }
  }

  /** The keys of the sorted table strictly ascend. */
  lemma {:induction false} SortByKeySorted<K(!new)>(m: map<K, real>, less: (K, K) -> bool)
    requires IsStrictOrder(less)
    ensures var es := SortByKey(m, less);
            forall i, j :: 0 <= i < j < |es| ==> less(es[i].key, es[j].key)
    decreases |m|
  {
    if m != map[] {
      var k := Least(m.Keys, less);
      SortByKeyStep(m, less);
      SortByKeySorted(m - {k}, less);
      SortByKeyEntries(m - {k}, less);
      LeastBelow(m.Keys, less);
      var tail, es := SortByKey(m - {k}, less), SortByKey(m, less);
      forall i, j | 0 <= i < j < |es| ensures less(es[i].key, es[j].key) {
        assert es[j] == tail[j - 1];
        if i > 0 {
          assert es[i] == tail[i - 1];
        } else {
          assert tail[j - 1].key in m - {k};
        }
      }
    }
  }

  /** The sum of the totals of a table. */
  function SumTotals<K>(es: seq<Entry<K>>): (total: real) {
    if es == [] then 0.0 else es[0].total + SumTotals(es[1..])
  }

  /** The sum over a sorted map does not depend on which group is taken
      out first. */
  lemma {:induction false} SumTotalsRemove<K(!new)>(m: map<K, real>, less: (K, K) -> bool, k: K)
    requires IsStrictOrder(less) && k in m
    ensures SumTotals(SortByKey(m, less)) == m[k] + SumTotals(SortByKey(m - {k}, less))
    decreases |m|
  {
    var least := Least(m.Keys, less);
    if least != k {
      var rest := m - {least};
      SortByKeyStep(m, less);
      SumTotalsRemove(rest, less, k);
      assert rest - {k} == (m - {k}) - {least};
      assert Least((m - {k}).Keys, less) == least by {
        LeastBelow(m.Keys, less);
        LeastBelow((m - {k}).Keys, less);
      }
    }
  }

  /** Setting one group's total changes the sum by the difference. */
  lemma SumTotalsUpdate<K(!new)>(m: map<K, real>, less: (K, K) -> bool, k: K, v: real)
    requires IsStrictOrder(less)
    ensures SumTotals(SortByKey(m[k := v], less))
            == SumTotals(SortByKey(m, less)) - (if k in m then m[k] else 0.0) + v
  {
    var updated := m[k := v];
    var others := SumTotals(SortByKey(m - {k}, less));
    assert SumTotals(SortByKey(updated, less)) == v + others by {
      SumTotalsRemove(updated, less, k);
      UpdateThenRemove(m, k, v);
    }
    if k in m {
      assert SumTotals(SortByKey(m, less)) == m[k] + others by {
        SumTotalsRemove(m, less, k);
      }
    } else {
      RemoveAbsent(m, k);
    }
  }

  lemma UpdateThenRemove<K>(m: map<K, real>, k: K, v: real)
    ensures m[k := v] - {k} == m - {k}
  {
  }

  lemma RemoveAbsent<K>(m: map<K, real>, k: K)
    requires k !in m
    ensures m - {k} == m
  {
  }

  /** Every record lands in exactly one group: the totals of the sorted
      groups add up to the sum of all amounts. */
  lemma {:induction false} TotalsConserved<K(!new)>(rs: seq<Record>, key: Record -> K, less: (K, K) -> bool)
    requires IsStrictOrder(less)
    ensures SumTotals(Totals(rs, key, less)) == SumAll(rs)
  {
    if rs != [] {
      var prefix, r := rs[..|rs| - 1], rs[|rs| - 1];
      TotalsConserved(prefix, key, less);
      var m := GroupTotals(prefix, key);
      var k := key(r);
      var v := (if k in m then m[k] else 0.0) + r.amount;
      assert GroupTotals(rs, key) == m[k := v];
      SumTotalsUpdate(m, less, k, v);
    }
  }

  /** `es` lists the groups of `m`, each once, in strictly ascending order. */
  ghost predicate ListsGroups<K(!new)>(m: map<K, real>, less: (K, K) -> bool, es: seq<Entry<K>>) {
    && (forall i :: 0 <= i < |es| ==> es[i].key in m && es[i].total == m[es[i].key])
    && (forall k :: k in m ==> exists i :: 0 <= i < |es| && es[i].key == k)
    && (forall i, j :: 0 <= i < j < |es| ==> less(es[i].key, es[j].key))
  }

  /** Such a list starts with the least group and goes on with a list of
      the others. */
  lemma ListsGroupsStep<K(!new)>(m: map<K, real>, less: (K, K) -> bool, es: seq<Entry<K>>)
    requires IsStrictOrder(less) && ListsGroups(m, less, es) && m != map[]
    ensures var least := Least(m.Keys, less);
            && es != [] && es[0] == Entry(least, m[least])
            && ListsGroups(m - {least}, less, es[1..])
  {
    var least := Least(m.Keys, less);
    var i :| 0 <= i < |es| && es[i].key == least;
    assert !less(es[0].key, least);
    assert i == 0;
    var rest := m - {least};
    forall j | 1 <= j < |es| ensures es[j].key in rest {
      assert less(es[0].key, es[j].key);
    }
    forall k | k in rest ensures exists j :: 0 <= j < |es[1..]| && es[1..][j].key == k {
      var j :| 0 <= j < |es| && es[j].key == k;
      assert es[1..][j - 1].key == k;
    }
  }

  /** Whatever order the groups were met in, the sorted table is the only
      strictly ascending list of the map's groups. */
  lemma {:induction false} SortedTableUnique<K(!new)>(m: map<K, real>, less: (K, K) -> bool, es: seq<Entry<K>>)
    requires IsStrictOrder(less) && ListsGroups(m, less, es)
    ensures es == SortByKey(m, less)
    decreases |m|
  {
    if es == [] {
      assert m.Keys == {};
    } else {
      assert es[0].key in m;
      var least := Least(m.Keys, less);
      SortByKeyStep(m, less);
      ListsGroupsStep(m, less, es);
      SortedTableUnique(m - {least}, less, es[1..]);
      HeadTail(es);
    }
  }

  lemma HeadTail<T>(s: seq<T>)
    requires s != []
    ensures s == [s[0]] + s[1..]
  {
  }

  /** The pipeline of one table: group, then sort. An empty list gives an
      empty table. */
  function Totals<K(==,!new)>(rs: seq<Record>, key: Record -> K, less: (K, K) -> bool): (es: seq<Entry<K>>)
    requires IsStrictOrder(less)
    ensures rs == [] ==> es == []
  {
    SortByKey(GroupTotals(rs, key), less)
  }

  /** A table's keys strictly ascend. */
  lemma TotalsSorted<K(!new)>(rs: seq<Record>, key: Record -> K, less: (K, K) -> bool)
    requires IsStrictOrder(less)
    ensures var es := Totals(rs, key, less);
            forall i, j :: 0 <= i < j < |es| ==> less(es[i].key, es[j].key)
  {
    var m := GroupTotals(rs, key);
    assert Totals(rs, key, less) == SortByKey(m, less);
    SortByKeySorted(m, less);
  }

  /** A table has a row for the key of every record, and a row only for
      such keys. */
  lemma TotalsKeys<K(!new)>(rs: seq<Record>, key: Record -> K, less: (K, K) -> bool)
    requires IsStrictOrder(less)
    ensures var es := Totals(rs, key, less);
            && (forall i :: 0 <= i < |rs| ==> exists j :: 0 <= j < |es| && es[j].key == key(rs[i]))
            && (forall j :: 0 <= j < |es| ==> exists i :: 0 <= i < |rs| && key(rs[i]) == es[j].key)
  {
    var m := GroupTotals(rs, key);
    var es := SortByKey(m, less);
    assert Totals(rs, key, less) == es;
    GroupTotalsKeys(rs, key);
    SortByKeyEntries(m, less);
    forall i | 0 <= i < |rs| ensures exists j :: 0 <= j < |es| && es[j].key == key(rs[i]) {
      SortByKeyCovers(m, less, key(rs[i]));
    }
  }

  /** Each row holds the sum of the amounts of the records with its key. */
  lemma TotalsSums<K(!new)>(rs: seq<Record>, key: Record -> K, less: (K, K) -> bool)
    requires IsStrictOrder(less)
    ensures var es := Totals(rs, key, less);
            forall j :: 0 <= j < |es| ==> es[j].total == SumWhere(rs, key, es[j].key)
  {
    var m := GroupTotals(rs, key);
    SortByKeyEntries(m, less);
    GroupTotalsSums(rs, key);
    assert Totals(rs, key, less) == SortByKey(m, less);
  }

  /** What a table of groups means: a row for the key of every record and
      only for such keys, each row holding the sum of the amounts filed
      under its key, and the rows adding up to all amounts. */
  ghost predicate IsGrouping<K>(rs: seq<Record>, key: Record -> K, es: seq<Entry<K>>) {
    && (forall i :: 0 <= i < |rs| ==> exists j :: 0 <= j < |es| && es[j].key == key(rs[i]))
    && (forall j :: 0 <= j < |es| ==> exists i :: 0 <= i < |rs| && key(rs[i]) == es[j].key)
    && (forall j :: 0 <= j < |es| ==> es[j].total == SumWhere(rs, key, es[j].key))
    && SumTotals(es) == SumAll(rs)
  }

  /** Grouping and sorting yields such a table. */
  lemma TotalsGroup<K(!new)>(rs: seq<Record>, key: Record -> K, less: (K, K) -> bool)
    requires IsStrictOrder(less)
    ensures IsGrouping(rs, key, Totals(rs, key, less))
  {
    TotalsKeys(rs, key, less);
    TotalsSums(rs, key, less);
    TotalsConserved(rs, key, less);
  }

  // ---------------------------------------------------------------------
  // The orders
  // ---------------------------------------------------------------------

  lemma DateBeforeIsStrictOrder()
    ensures IsStrictOrder(DateBefore)
  {
  }

  lemma MonthBeforeIsStrictOrder()
    ensures IsStrictOrder(MonthBefore)
  {
  }

  lemma StringLessIsStrictOrder()
    ensures IsStrictOrder(StringLess)
  {
    forall a: string ensures !StringLess(a, a) {
      StringLessIrreflexive(a);
    }
    forall a: string, b: string, c: string | Chain(StringLess, a, b, c)
      ensures StringLess(a, c)
    {
      StringLessTransitive(a, b, c);
    }
    forall a: string, b: string | a != b ensures StringLess(a, b) || StringLess(b, a) {
      StringLessTotal(a, b);
    }
  }

  // ---------------------------------------------------------------------
  // The three tables
  // ---------------------------------------------------------------------

  function DateOf(r: Record): (d: LocalDate) {
    r.date
  }

  function MonthOfRecord(r: Record): (ym: YearMonth) {
    MonthOf(r.date)
  }

  /** The daily groups: one per date, ascending by date. */
  function DailyTotals(rs: seq<Record>): (es: seq<Entry<LocalDate>>)
    ensures forall i, j :: 0 <= i < j < |es| ==> DateBefore(es[i].key, es[j].key)
    ensures rs == [] ==> es == []
  {
    DateBeforeIsStrictOrder();
    TotalsSorted(rs, DateOf, DateBefore);
    Totals(rs, DateOf, DateBefore)
  }

  /** `populateDailyTable`: one row per group, the date as `toString()`
      prints it and the total with `%.2f`. */
  function DailyRows(rs: seq<Record>): (rows: seq<Row>)
    ensures |rows| == |DailyTotals(rs)|
  {
    var es := DailyTotals(rs);
    seq(|es|, i requires 0 <= i < |es| => Row(FormatIsoDate(es[i].key), FormatAmount(es[i].total)))
  }

  /** The daily rows read back: each period parses as the ISO date of its
      group, the periods ascend as text, and each printed total parses as
      the group's sum rounded to cents; the sums themselves are not
      rounded. */
  lemma DailyRowsReadBack(rs: seq<Record>)
    ensures var es, rows := DailyTotals(rs), DailyRows(rs);
            && (forall i :: 0 <= i < |rows| ==> ParseIsoDate(rows[i].period) == Some(es[i].key))
            && (forall i :: 0 <= i < |rows| ==> ParseAmount(rows[i].total) == Some(Round2(es[i].total)))
            && (forall i, j :: 0 <= i < j < |rows| ==> StringLess(rows[i].period, rows[j].period))
  {
    var es, rows := DailyTotals(rs), DailyRows(rs);
    forall i | 0 <= i < |rows|
      ensures ParseIsoDate(rows[i].period) == Some(es[i].key)
      ensures ParseAmount(rows[i].total) == Some(Round2(es[i].total))
    {
      IsoDateRoundTrip(es[i].key);
      AmountRoundTrip(es[i].total);
    }
    forall i, j | 0 <= i < j < |rows| ensures StringLess(rows[i].period, rows[j].period) {
      IsoDateTextOrder(es[i].key, es[j].key);
    }
  }

  /** The daily groups: one per date that occurs, each with that day's sum. */
  lemma DailyTotalsMeaning(rs: seq<Record>)
    ensures IsGrouping(rs, DateOf, DailyTotals(rs))
  {
    DateBeforeIsStrictOrder();
    assert DailyTotals(rs) == Totals(rs, DateOf, DateBefore);
    TotalsGroup(rs, DateOf, DateBefore);
  }


  /** The classifier of the weekly groups: a record's week key. */
  function WeekOfRecord(wd: WeekDefinition): (key: Record -> string)
    requires ValidWeekDefinition(wd)
  {
    (r: Record) => WeekKey(wd, r.date)
  }

  /** The weekly groups: one per key `year-Www`, in string order. */
  function WeeklyTotals(wd: WeekDefinition, rs: seq<Record>): (es: seq<Entry<string>>)
    requires ValidWeekDefinition(wd)
    ensures forall i, j :: 0 <= i < j < |es| ==> StringLess(es[i].key, es[j].key)
    ensures rs == [] ==> es == []
  {
    StringLessIsStrictOrder();
    TotalsSorted(rs, WeekOfRecord(wd), StringLess);
    Totals(rs, WeekOfRecord(wd), StringLess)
  }

  /** `populateWeeklyTable`: one row per group, the key itself and the total
      with `%.2f`. */
  function WeeklyRows(wd: WeekDefinition, rs: seq<Record>): (rows: seq<Row>)
    requires ValidWeekDefinition(wd)
    ensures |rows| == |WeeklyTotals(wd, rs)|
  {
    var es := WeeklyTotals(wd, rs);
    seq(|es|, i requires 0 <= i < |es| => Row(es[i].key, FormatAmount(es[i].total)))
  }

  /** The weekly groups: one per week key that occurs, each with that
      week's sum. */
  lemma WeeklyTotalsMeaning(wd: WeekDefinition, rs: seq<Record>)
    requires ValidWeekDefinition(wd)
    ensures IsGrouping(rs, WeekOfRecord(wd), WeeklyTotals(wd, rs))
  {
    StringLessIsStrictOrder();
    assert WeeklyTotals(wd, rs) == Totals(rs, WeekOfRecord(wd), StringLess);
    TotalsGroup(rs, WeekOfRecord(wd), StringLess);
  }


  /** The weekly rows: each period is its group's key, and each printed
      total parses as the group's sum rounded to cents. */
  lemma WeeklyRowsReadBack(wd: WeekDefinition, rs: seq<Record>)
    requires ValidWeekDefinition(wd)
    ensures var es, rows := WeeklyTotals(wd, rs), WeeklyRows(wd, rs);
            forall i :: 0 <= i < |rows| ==>
              rows[i].period == es[i].key && ParseAmount(rows[i].total) == Some(Round2(es[i].total))
  {
    var es, rows := WeeklyTotals(wd, rs), WeeklyRows(wd, rs);
    forall i | 0 <= i < |rows| ensures ParseAmount(rows[i].total) == Some(Round2(es[i].total)) {
      AmountRoundTrip(es[i].total);
    }
  }

  /** The monthly groups: one per `YearMonth`, ascending. */
  function MonthlyTotals(rs: seq<Record>): (es: seq<Entry<YearMonth>>)
    ensures forall i, j :: 0 <= i < j < |es| ==> MonthBefore(es[i].key, es[j].key)
    ensures rs == [] ==> es == []
    ensures forall i :: 0 <= i < |es| ==> 0 <= es[i].key.year <= 9999 && 1 <= es[i].key.month <= 12
  {
    MonthBeforeIsStrictOrder();
    TotalsSorted(rs, MonthOfRecord, MonthBefore);
    MonthsInRange(rs);
    Totals(rs, MonthOfRecord, MonthBefore)
  }

  /** Every month group is that of some record, so a month of the ISO
      calendar's years. */
  lemma MonthsInRange(rs: seq<Record>)
    ensures IsStrictOrder(MonthBefore)
    ensures var es := Totals(rs, MonthOfRecord, MonthBefore);
            forall i :: 0 <= i < |es| ==> 0 <= es[i].key.year <= 9999 && 1 <= es[i].key.month <= 12
  {
    MonthBeforeIsStrictOrder();
    var m := GroupTotals(rs, MonthOfRecord);
    GroupTotalsKeys(rs, MonthOfRecord);
    SortByKeyEntries(m, MonthBefore);
    assert Totals(rs, MonthOfRecord, MonthBefore) == SortByKey(m, MonthBefore);
    forall ym | ym in m ensures 0 <= ym.year <= 9999 && 1 <= ym.month <= 12 {
      var k :| 0 <= k < |rs| && MonthOfRecord(rs[k]) == ym;
      MonthOfInRange(rs[k].date);
    }
  }

  lemma MonthOfInRange(d: LocalDate)
    ensures 0 <= MonthOf(d).year <= 9999 && 1 <= MonthOf(d).month <= 12
  {
  }

  /** `populateMonthlyTable`: one row per group, the month as `yyyy-MM` and
      the total with `%.2f`. */
  function MonthlyRows(rs: seq<Record>): (rows: seq<Row>)
    ensures |rows| == |MonthlyTotals(rs)|
  {
    var es := MonthlyTotals(rs);
    seq(|es|, i requires 0 <= i < |es| => Row(MonthLabel(es[i].key), FormatAmount(es[i].total)))
  }

  /** The monthly groups: one per month that occurs, each with that
      month's sum. */
  lemma MonthlyTotalsMeaning(rs: seq<Record>)
    ensures IsGrouping(rs, MonthOfRecord, MonthlyTotals(rs))
  {
    MonthBeforeIsStrictOrder();
    assert MonthlyTotals(rs) == Totals(rs, MonthOfRecord, MonthBefore);
    TotalsGroup(rs, MonthOfRecord, MonthBefore);
  }


  /** The monthly rows: from year 0001 on, each period is the first seven
      characters of the ISO text of any day of the month, and distinct
      groups have distinct periods; each printed total parses as the
      group's sum rounded to cents. */
  lemma MonthlyRowsReadBack(rs: seq<Record>)
    ensures var es, rows := MonthlyTotals(rs), MonthlyRows(rs);
            && (forall i :: 0 <= i < |rows| ==> ParseAmount(rows[i].total) == Some(Round2(es[i].total)))
            && (forall i, d: LocalDate :: 0 <= i < |rows| && d.year >= 1 && MonthOf(d) == es[i].key
                  ==> rows[i].period == FormatIsoDate(d)[..7])
            && (forall i, j :: 0 <= i < j < |rows| && es[i].key.year >= 1 && es[j].key.year >= 1
                  ==> rows[i].period != rows[j].period)
  {
    var es, rows := MonthlyTotals(rs), MonthlyRows(rs);
    forall i | 0 <= i < |rows| ensures ParseAmount(rows[i].total) == Some(Round2(es[i].total)) {
      AmountRoundTrip(es[i].total);
    }
    forall i, d: LocalDate | 0 <= i < |rows| && d.year >= 1 && MonthOf(d) == es[i].key
      ensures rows[i].period == FormatIsoDate(d)[..7]
    {
      MonthLabelIsDatePrefix(d);
    }
    forall i, j | 0 <= i < j < |rows| && es[i].key.year >= 1 && es[j].key.year >= 1
      ensures rows[i].period != rows[j].period
    {
      if rows[i].period == rows[j].period {
        MonthLabelInjective(es[i].key, es[j].key);
      }
    }
  }
}
