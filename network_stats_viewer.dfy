/** The decision logic of the network statistics viewer: the colour a
    metric's value gets, the current, minimum and maximum of a column, and
    which CSV files the viewer offers. A missing or NaN cell is `None`; the
    thresholds are exact reals. */
module NetworkStatsViewer {
  import opened Common

  datatype Color = Green | Yellow | Red | Gray

  /** How bad a colour is; gray is not ranked. */
  function Rank(c: Color): nat
  {
    match c
    case Green => 0
    case Yellow => 1
    case Red => 2
    case Gray => 3
  }

  /** `get_quality_color` */
  function QualityColor(metricType: string, value: Option<real>): Color
  {
    if value.None? then Gray
    else
      var v := value.value;
      if metricType == "rtt" then
        if v < 100.0 then Green else if v < 200.0 then Yellow else Red
      else if metricType == "packet_loss" then
        if v < 0.01 then Green else if v < 0.05 then Yellow else Red
      else if metricType == "bitrate" then
        if v > 1000000.0 then Green else if v > 500000.0 then Yellow else Red
      else Gray
  }

  /** Gray exactly for a missing value or an unknown metric. */
  lemma GrayCases(metricType: string, value: Option<real>)
    ensures QualityColor(metricType, value) == Gray <==>
      value.None? || metricType !in {"rtt", "packet_loss", "bitrate"}
  {
  }

  /** The round-trip bands: green below 100, yellow from 100 up to 200,
      red from 200. */
  lemma RttBands(v: real)
    ensures QualityColor("rtt", Some(v)) == Green <==> v < 100.0
    ensures QualityColor("rtt", Some(v)) == Yellow <==> 100.0 <= v < 200.0
    ensures QualityColor("rtt", Some(v)) == Red <==> 200.0 <= v
  {
  }

  /** The packet-loss bands: green below 1%, yellow from 1% up to 5%, red
      from 5%. */
  lemma PacketLossBands(v: real)
    ensures QualityColor("packet_loss", Some(v)) == Green <==> v < 0.01
    ensures QualityColor("packet_loss", Some(v)) == Yellow <==> 0.01 <= v < 0.05
    ensures QualityColor("packet_loss", Some(v)) == Red <==> 0.05 <= v
  {
  }

  /** The bitrate bands, with strict comparisons: green above 1 Mbps, yellow
      above 0.5 Mbps up to 1 Mbps included, red at 0.5 Mbps and below. */
  lemma BitrateBands(v: real)
    ensures QualityColor("bitrate", Some(v)) == Green <==> v > 1000000.0
    ensures QualityColor("bitrate", Some(v)) == Yellow <==> 500000.0 < v <= 1000000.0
    ensures QualityColor("bitrate", Some(v)) == Red <==> v <= 500000.0
  {
  }

  /** A larger round-trip time or packet loss never gives a better colour;
      a larger bitrate never gives a worse one. */
  lemma QualityMonotone(metricType: string, v: real, w: real)
    requires v <= w
    ensures metricType in {"rtt", "packet_loss"} ==>
      Rank(QualityColor(metricType, Some(v))) <= Rank(QualityColor(metricType, Some(w)))
    ensures metricType == "bitrate" ==>
      Rank(QualityColor(metricType, Some(w))) <= Rank(QualityColor(metricType, Some(v)))
  {
  }

  /** The values of a column that are present, in row order. */
  function Present(column: seq<Option<real>>): (r: seq<real>)
    ensures |r| <= |column|
  {
    if column == [] then []
    else
      var rest := Present(column[1..]);
      if column[0].Some? then [column[0].value] + rest else rest
  }

  /** A value is present exactly when some cell holds it. */
  lemma {:induction false} PresentValues(column: seq<Option<real>>, x: real)
    ensures x in Present(column) <==> Some(x) in column
  {
    if column != [] {
      PresentValues(column[1..], x);
      assert column == [column[0]] + column[1..];
    }
  }

  function MinOf(s: seq<real>): (m: real)
    requires s != []
    ensures m in s && forall x :: x in s ==> m <= x
  {
    if |s| == 1 then s[0]
    else
      var rest := MinOf(s[1..]);
      assert forall x :: x in s ==> x == s[0] || x in s[1..];
      if s[0] <= rest then s[0] else rest
  }

  function MaxOf(s: seq<real>): (m: real)
    requires s != []
    ensures m in s && forall x :: x in s ==> x <= m
  {
    if |s| == 1 then s[0]
    else
      var rest := MaxOf(s[1..]);
      assert forall x :: x in s ==> x == s[0] || x in s[1..];
      if s[0] >= rest then s[0] else rest
  }

  /** The current, minimum and maximum entries of `calculate_statistics`. */
  datatype Stats = Stats(current: Option<real>, min: Option<real>, max: Option<real>)

  /** `calculate_statistics` for a column that may be absent (`None`). */
  function CalculateStatistics(column: Option<seq<Option<real>>>): Stats
  {
    if column.None? || Present(column.value) == [] then Stats(None, None, None)
    else
      var p := Present(column.value);
      Stats(column.value[|column.value| - 1], Some(MinOf(p)), Some(MaxOf(p)))
  }

  /** All entries are `None` exactly when the column is absent or has no
      value; otherwise the minimum and maximum are values of the column with
      every value between them, and the current entry is the last row's
      cell, missing or not. */
  lemma {:induction false} CalculateStatisticsSpec(column: Option<seq<Option<real>>>)
    ensures var st := CalculateStatistics(column);
      && (st.min.None? <==> column.None? || forall i :: 0 <= i < |column.value| ==> column.value[i].None?)
      && (st.min.None? <==> st.max.None?)
      && (st.min.None? ==> st.current.None?)
      && (st.min.Some? ==>
            && st.max.Some? && st.min.value <= st.max.value
            && Some(st.min.value) in column.value && Some(st.max.value) in column.value
            && (forall i :: 0 <= i < |column.value| && column.value[i].Some? ==>
                  st.min.value <= column.value[i].value <= st.max.value)
            && st.current == column.value[|column.value| - 1])
  {
    if column.Some? {
      var c := column.value;
      var p := Present(c);
      forall i | 0 <= i < |c| && c[i].Some?
        ensures c[i].value in p
      {
        PresentValues(c, c[i].value);
      }
      if p != [] {
        PresentValues(c, MinOf(p));
        PresentValues(c, MaxOf(p));
      } else {
        assert forall i :: 0 <= i < |c| ==> c[i].None?;
      }
    }
  }

  /** Python's `<=` on strings: lexicographic by code point. */
  predicate LexLe(a: string, b: string)
  {
    a == [] || (b != [] && (a[0] < b[0] || (a[0] == b[0] && LexLe(a[1..], b[1..]))))
  }

  lemma {:induction false} LexTotal(a: string, b: string)
    ensures LexLe(a, b) || LexLe(b, a)
  {
    if a != [] && b != [] && a[0] == b[0] {
      LexTotal(a[1..], b[1..]);
    }
  }

  lemma {:induction false} LexAntisymmetric(a: string, b: string)
    requires LexLe(a, b) && LexLe(b, a)
    ensures a == b
  {
    if a != [] && b != [] {
      LexAntisymmetric(a[1..], b[1..]);
      assert a == [a[0]] + a[1..] && b == [b[0]] + b[1..];
    }
  }

  lemma {:induction false} LexTransitive(a: string, b: string, c: string)
    requires LexLe(a, b) && LexLe(b, c)
    ensures LexLe(a, c)
  {
    if a != [] && b != [] && c != [] && a[0] == b[0] && b[0] == c[0] {
      LexTransitive(a[1..], b[1..], c[1..]);
    }
  }

  /** `a` may come before `b` in the sort: ascending, or descending for
      `reverse=True`. */
  predicate Before(a: string, b: string, reverse: bool)
  {
    if reverse then LexLe(b, a) else LexLe(a, b)
  }

  predicate SortedBy(s: seq<string>, reverse: bool)
  {
    forall i, j :: 0 <= i < j < |s| ==> Before(s[i], s[j], reverse)
  }

  function Insert(x: string, s: seq<string>, reverse: bool): (r: seq<string>)
    ensures multiset(r) == multiset(s) + multiset{x}
  {
    if s == [] then [x]
    else if Before(x, s[0], reverse) then [x] + s
    else
      assert s == [s[0]] + s[1..];
      [s[0]] + Insert(x, s[1..], reverse)
  }

  lemma BeforeTotal(a: string, b: string, reverse: bool)
    ensures Before(a, b, reverse) || Before(b, a, reverse)
  {
    LexTotal(a, b);
  }

  lemma BeforeTransitive(a: string, b: string, c: string, reverse: bool)
    requires Before(a, b, reverse) && Before(b, c, reverse)
    ensures Before(a, c, reverse)
  {
    if reverse { LexTransitive(c, b, a); } else { LexTransitive(a, b, c); }
  }

  /** A sorted sequence stays sorted behind an element that comes before
      all of it. */
  lemma SortedCons(x: string, s: seq<string>, reverse: bool)
    requires SortedBy(s, reverse)
    requires forall j :: 0 <= j < |s| ==> Before(x, s[j], reverse)
    ensures SortedBy([x] + s, reverse)
  {
    var r := [x] + s;
    forall i, j | 0 <= i < j < |r|
      ensures Before(r[i], r[j], reverse)
    {
      if i > 0 {
        assert r[i] == s[i - 1] && r[j] == s[j - 1];
      }
    }
  }

  lemma SortedTail(s: seq<string>, reverse: bool)
    requires s != [] && SortedBy(s, reverse)
    ensures SortedBy(s[1..], reverse)
  {
    forall i, j | 0 <= i < j < |s| - 1
      ensures Before(s[1..][i], s[1..][j], reverse)
    {
      assert s[1..][i] == s[i + 1] && s[1..][j] == s[j + 1];
    }
  }

  lemma {:induction false} InsertSorted(x: string, s: seq<string>, reverse: bool)
    requires SortedBy(s, reverse)
    ensures SortedBy(Insert(x, s, reverse), reverse)
  {
    if s != [] {
      if Before(x, s[0], reverse) {
        forall j | 0 <= j < |s|
          ensures Before(x, s[j], reverse)
        {
          if j > 0 {
            BeforeTransitive(x, s[0], s[j], reverse);
          }
        }
        SortedCons(x, s, reverse);
      } else {
        var t := Insert(x, s[1..], reverse);
        SortedTail(s, reverse);
        InsertSorted(x, s[1..], reverse);
        BeforeTotal(x, s[0], reverse);
        forall j | 0 <= j < |t|
          ensures Before(s[0], t[j], reverse)
        {
          assert t[j] in multiset(t);
          if t[j] != x {
            assert t[j] in multiset(s[1..]);
            var k :| 0 <= k < |s[1..]| && s[1..][k] == t[j];
            assert s[k + 1] == t[j];
          }
        }
        SortedCons(s[0], t, reverse);
      }
    }
  }

  /** `sorted(names, reverse=reverse)` */
  function Sort(s: seq<string>, reverse: bool): (r: seq<string>)
    ensures multiset(r) == multiset(s)
  {
    if s == [] then []
    else
      assert s == [s[0]] + s[1..];
      Insert(s[0], Sort(s[1..], reverse), reverse)
  }

  lemma {:induction false} SortSorted(s: seq<string>, reverse: bool)
    ensures SortedBy(Sort(s, reverse), reverse)
  {
    if s != [] {
      SortSorted(s[1..], reverse);
      InsertSorted(s[0], Sort(s[1..], reverse), reverse);
    }
  }

  /** Two ascending sequences with the same elements start alike. */
  lemma SortedSameHead(a: seq<string>, b: seq<string>)
    requires a != [] && SortedBy(a, false) && SortedBy(b, false) && multiset(a) == multiset(b)
    ensures b != [] && a[0] == b[0]
  {
    assert a[0] in multiset(b);
    assert b != [] && b[0] in multiset(a);
    var k :| 0 <= k < |b| && b[k] == a[0];
    var m :| 0 <= m < |a| && a[m] == b[0];
    if k != 0 && m != 0 {
      LexAntisymmetric(a[0], b[0]);
    }
  }

  lemma TailMultiset(a: seq<string>, b: seq<string>)
    requires a != [] && b != [] && a[0] == b[0] && multiset(a) == multiset(b)
    ensures multiset(a[1..]) == multiset(b[1..])
  {
    assert a == [a[0]] + a[1..] && b == [b[0]] + b[1..];
    assert multiset(a[1..]) == multiset(a) - multiset{a[0]};
    assert multiset(b[1..]) == multiset(b) - multiset{b[0]};
  }

  /** Two ascending sequences with the same elements are the same. */
  lemma {:induction false} SortedUnique(a: seq<string>, b: seq<string>)
    requires SortedBy(a, false) && SortedBy(b, false) && multiset(a) == multiset(b)
    ensures a == b
  {
    if a != [] {
      SortedSameHead(a, b);
      TailMultiset(a, b);
      SortedTail(a, false);
      SortedTail(b, false);
      SortedUnique(a[1..], b[1..]);
      assert a == [a[0]] + a[1..] && b == [b[0]] + b[1..];
    } else {
      assert |b| == |multiset(b)| == 0;
    }
  }

  /** A descending sort read backwards is the ascending sort. */
  lemma SortReverse(s: seq<string>)
    ensures Reversed(Sort(s, true)) == Sort(s, false)
  {
    var d := Sort(s, true);
    SortSorted(s, true);
    SortSorted(s, false);
    ReversedMultiset(d);
    assert SortedBy(Reversed(d), false);
    SortedUnique(Reversed(d), Sort(s, false));
  }

  /** The glob `network_stats_*.csv` on a name within the directory. */
  predicate IsStatsCsv(name: string)
  {
    |name| >= |"network_stats_"| + |".csv"|
    && name[..|"network_stats_"|] == "network_stats_"
    && name[|name| - |".csv"|..] == ".csv"
  }

  /** The names matching the glob, in directory order. */
  function Matching(names: seq<string>): (r: seq<string>)
    ensures forall x :: x in r <==> x in names && IsStatsCsv(x)
  {
    if names == [] then []
    else
      assert names == [names[0]] + names[1..];
      (if IsStatsCsv(names[0]) then [names[0]] else []) + Matching(names[1..])
  }

  /** `find_latest_csv_file` for a directory listing, `None` when the
      directory does not exist: the last name of the ascending sort. */
  function FindLatestCsvFile(dir: Option<seq<string>>): Option<string>
  {
    if dir.None? then None
    else
      var files := Sort(Matching(dir.value), false);
      if files == [] then None else Some(files[|files| - 1])
  }

  /** `list_csv_files`: the matching names, newest first. */
  function ListCsvFiles(dir: Option<seq<string>>): seq<string>
  {
    if dir.None? then [] else Sort(Matching(dir.value), true)
  }

  /** The list holds every matching name, in descending order, and nothing
      else; it is empty when the directory is missing. */
  lemma ListCsvFilesSpec(dir: Option<seq<string>>)
    ensures SortedBy(ListCsvFiles(dir), true)
    ensures dir.None? ==> ListCsvFiles(dir) == []
    ensures dir.Some? ==> multiset(ListCsvFiles(dir)) == multiset(Matching(dir.value))
    ensures forall x :: x in ListCsvFiles(dir) <==> dir.Some? && x in dir.value && IsStatsCsv(x)
  {
    if dir.Some? {
      SortSorted(Matching(dir.value), true);
      var l := ListCsvFiles(dir);
      forall x
        ensures x in l <==> x in Matching(dir.value)
      {
        assert x in l <==> x in multiset(l);
      }
    }
  }

  /** The latest file is the first one listed; there is none exactly when
      the directory is missing or has no match. */
  lemma LatestIsFirstListed(dir: Option<seq<string>>)
    ensures FindLatestCsvFile(dir).None? <==> ListCsvFiles(dir) == []
    ensures ListCsvFiles(dir) != [] ==> FindLatestCsvFile(dir) == Some(ListCsvFiles(dir)[0])
  {
    if dir.Some? {
      var m := Matching(dir.value);
      SortReverse(m);
      LastOfReversed(Sort(m, true), Sort(m, false));
    }
  }

  lemma LastOfReversed(d: seq<string>, e: seq<string>)
    requires Reversed(d) == e
    ensures |e| == |d| && (d != [] ==> e[|e| - 1] == d[0])
  {
  }

  /** The latest file is a statistics file of the directory, and no other
      one sorts after it. */
  lemma LatestIsGreatest(dir: Option<seq<string>>)
    ensures FindLatestCsvFile(dir).Some? ==>
      var n := FindLatestCsvFile(dir).value;
      && dir.Some? && n in dir.value && IsStatsCsv(n)
      && forall x :: x in dir.value && IsStatsCsv(x) ==> LexLe(x, n)
  {
    LatestIsFirstListed(dir);
    ListCsvFilesSpec(dir);
    if FindLatestCsvFile(dir).Some? {
      var l := ListCsvFiles(dir);
      assert l[0] in l;
      forall x | x in dir.value && IsStatsCsv(x)
        ensures LexLe(x, l[0])
      {
        var i :| 0 <= i < |l| && l[i] == x;
        if i == 0 {
          LexTotal(x, x);
        } else {
          assert Before(l[0], l[i], true);
        }
      }
    }
  }

}
