/** The dataset-1 menu views (dataset1.py): each sorts the cleaned occupations by one measure, with
    missing values placed last as pandas does, drops or keeps the missing ones, and shows the first
    ten. */
module Rankings {
  import opened Wrappers
  import opened Sorting
  import opened Earnings

  /** The numeric columns of an occupation a view can sort by. */
  datatype Measure =
    | TotalWorkers | TotalEarnings | MenWorkers | MenEarnings | WomenWorkers | WomenEarnings | PayGap

  function Get(o: Occupation, m: Measure): Option<real> {
    match m
    case TotalWorkers => o.totalWorkers
    case TotalEarnings => o.totalEarnings
    case MenWorkers => o.menWorkers
    case MenEarnings => o.menEarnings
    case WomenWorkers => o.womenWorkers
    case WomenEarnings => o.womenEarnings
    case PayGap => o.payGap
  }

  /** The sort key of a measure; only ever applied to occupations where the measure is present. */
  function KeyOf(m: Measure): Occupation -> real {
    o => Get(o, m).GetOr(0.0)
  }

  function Present(m: Measure): Occupation -> bool {
    o => Get(o, m).Some?
  }

  function Missing(m: Measure): Occupation -> bool {
    o => Get(o, m).None?
  }

  lemma PresentMeans(m: Measure, o: Occupation)
    ensures Present(m)(o) == Get(o, m).Some?
    ensures Missing(m)(o) == Get(o, m).None?
    ensures KeyOf(m)(o) == Get(o, m).GetOr(0.0)
  {
  }

  /** The rows where the measure is present (pandas `dropna` on that column). */
  function Having(occs: seq<Occupation>, m: Measure): (r: seq<Occupation>)
    ensures forall x :: x in r ==> x in occs && Get(x, m).Some?
  {
    var r := Filter(occs, Present(m));
    assert forall x :: x in r ==> Get(x, m).Some? by {
      forall x | x in r ensures Get(x, m).Some? {
        PresentMeans(m, x);
      }
    }
    r
  }

  /** The rows where the measure is missing. */
  function Lacking(occs: seq<Occupation>, m: Measure): (r: seq<Occupation>)
    ensures forall x :: x in r ==> x in occs && Get(x, m).None?
  {
    var r := Filter(occs, Missing(m));
    assert forall x :: x in r ==> Get(x, m).None? by {
      forall x | x in r ensures Get(x, m).None? {
        PresentMeans(m, x);
      }
    }
    r
  }

  /** Every occupation is in exactly one of `Having` and `Lacking`. */
  lemma HavingLackingSplit(occs: seq<Occupation>, m: Measure)
    ensures multiset(Having(occs, m)) + multiset(Lacking(occs, m)) == multiset(occs)
  {
    forall x ensures multiset(Having(occs, m))[x] + multiset(Lacking(occs, m))[x] == multiset(occs)[x] {
      FilterCount(occs, Present(m), x);
      FilterCount(occs, Missing(m), x);
    }
  }

  /** The frame sorted by one measure: the present values ordered by the quicksort, then the rows
      where the measure is missing, in their original order. It is a permutation of the frame in
      which no present value follows a missing one and the present values are in order. */
  function SortBy(occs: seq<Occupation>, m: Measure, ascending: bool): (r: seq<Occupation>)
    ensures multiset(r) == multiset(occs)
    ensures forall i, j :: 0 <= i < j < |r| && Present(m)(r[j]) ==>
              Present(m)(r[i]) && !Precedes(ascending, KeyOf(m)(r[j]), KeyOf(m)(r[i]))
  {
    var h := Having(occs, m);
    var q := QuickSort(h, KeyOf(m), ascending);
    var l := Lacking(occs, m);
    HavingLackingSplit(occs, m);
    assert forall x :: x in q ==> Present(m)(x) by {
      forall x | x in q ensures Present(m)(x) {
        assert x in multiset(h);
      }
    }
    assert forall x :: x in l ==> !Present(m)(x) by {
      forall x | x in l ensures !Present(m)(x) {
        PresentMeans(m, x);
      }
    }
    OrderedThenRest(q, l, KeyOf(m), ascending, Present(m));
    q + l
  }

  /** Dropping the missing values after the sort leaves exactly the sorted present values. */
  lemma HavingOfSorted(occs: seq<Occupation>, m: Measure, ascending: bool)
    ensures Having(SortBy(occs, m, ascending), m) == QuickSort(Having(occs, m), KeyOf(m), ascending)
  {
    var h := Having(occs, m);
    var q := QuickSort(h, KeyOf(m), ascending);
    var l := Lacking(occs, m);
    assert SortBy(occs, m, ascending) == q + l;
    FilterAppend(q, l, Present(m));
    assert forall x :: x in q ==> Present(m)(x) by {
      forall x | x in q ensures Present(m)(x) {
        assert x in multiset(h);
      }
    }
    FilterAll(q, Present(m));
    FilterNone(l, Present(m));
    assert q + [] == q;
  }

  /** The top-N properties of the present values, read back in terms of the measure itself. */
  lemma TopOfPresent(occs: seq<Occupation>, m: Measure, ascending: bool, view: seq<Occupation>)
    requires view == TopN(Having(occs, m), KeyOf(m), ascending, TOP)
    ensures forall x :: x in view ==> x in occs && Get(x, m).Some?
    ensures forall i, j :: 0 <= i < j < |view| ==> !Precedes(ascending, Get(view[j], m).value, Get(view[i], m).value)
    ensures forall x, y :: x in view && LeftOut(y, view, Having(occs, m)) ==>
              !Precedes(ascending, Get(y, m).value, Get(x, m).value)
  {
    var h := Having(occs, m);
    forall x | x in view ensures x in occs && Get(x, m).Some? {
      assert x in multiset(h);
      assert x in h;
      PresentMeans(m, x);
    }
    forall i, j | 0 <= i < j < |view|
      ensures !Precedes(ascending, Get(view[j], m).value, Get(view[i], m).value)
    {
      assert view[i] in view && view[j] in view;
      PresentMeans(m, view[i]);
      PresentMeans(m, view[j]);
    }
    forall x, y | x in view && LeftOut(y, view, h)
      ensures !Precedes(ascending, Get(y, m).value, Get(x, m).value)
    {
      assert y in multiset(h) - multiset(view);
      PresentMeans(m, x);
      PresentMeans(m, y);
    }
  }

  /** A ranked view: sort by the measure, drop the rows where it is missing, show the first ten.
      The view holds the best ten present values, in order, and nothing left out beats a row shown. */
  function Ranked(occs: seq<Occupation>, m: Measure, ascending: bool): (view: seq<Occupation>)
    ensures view == TopN(Having(occs, m), KeyOf(m), ascending, TOP)
    ensures |view| == Min(TOP, |Having(occs, m)|)
    ensures forall x :: x in view ==> x in occs && Get(x, m).Some?
    ensures forall i, j :: 0 <= i < j < |view| ==> !Precedes(ascending, Get(view[j], m).value, Get(view[i], m).value)
    ensures forall x, y :: x in view && LeftOut(y, view, Having(occs, m)) ==>
              !Precedes(ascending, Get(y, m).value, Get(x, m).value)
  {
    HavingOfSorted(occs, m, ascending);
    var h := Having(occs, m);
    var view := Head(Having(SortBy(occs, m, ascending), m), TOP);
    assert |QuickSort(h, KeyOf(m), ascending)| == |multiset(h)| == |h|;
    assert view == TopN(h, KeyOf(m), ascending, TOP);
    TopOfPresent(occs, m, ascending, view);
    view
  }

  /** Menu option 1: the ten highest (or lowest) total earnings, and the direction for next time. */
  function SortEarnings(occs: seq<Occupation>, ascending: bool): (r: (seq<Occupation>, bool))
    ensures r.1 == !ascending
    ensures |r.0| == Min(TOP, |Having(occs, TotalEarnings)|)
    ensures forall x :: x in r.0 ==> x in occs && Get(x, TotalEarnings).Some?
    ensures forall i, j :: 0 <= i < j < |r.0| ==>
              !Precedes(ascending, Get(r.0[j], TotalEarnings).value, Get(r.0[i], TotalEarnings).value)
    ensures forall x, y :: x in r.0 && LeftOut(y, r.0, Having(occs, TotalEarnings)) ==>
              !Precedes(ascending, Get(y, TotalEarnings).value, Get(x, TotalEarnings).value)
  {
    (Ranked(occs, TotalEarnings, ascending), !ascending)
  }

  /** Menu option 2: the ten occupations with the most women workers. */
  function TopWomen(occs: seq<Occupation>): (view: seq<Occupation>)
    ensures |view| == Min(TOP, |Having(occs, WomenWorkers)|)
    ensures forall x :: x in view ==> x in occs && Get(x, WomenWorkers).Some?
    ensures forall i, j :: 0 <= i < j < |view| ==>
              Get(view[j], WomenWorkers).value <= Get(view[i], WomenWorkers).value
    ensures forall x, y :: x in view && LeftOut(y, view, Having(occs, WomenWorkers)) ==>
              Get(y, WomenWorkers).value <= Get(x, WomenWorkers).value
  {
    Ranked(occs, WomenWorkers, false)
  }

  /** Menu option 3: the ten occupations with the most men workers. */
  function TopMen(occs: seq<Occupation>): (view: seq<Occupation>)
    ensures |view| == Min(TOP, |Having(occs, MenWorkers)|)
    ensures forall x :: x in view ==> x in occs && Get(x, MenWorkers).Some?
    ensures forall i, j :: 0 <= i < j < |view| ==>
              Get(view[j], MenWorkers).value <= Get(view[i], MenWorkers).value
    ensures forall x, y :: x in view && LeftOut(y, view, Having(occs, MenWorkers)) ==>
              Get(y, MenWorkers).value <= Get(x, MenWorkers).value
  {
    Ranked(occs, MenWorkers, false)
  }

  // ---------------------------------------------------------------------------------------------
  // Menu option 4: the gender pay gap

  /** Women earn more than men: the gap is present and negative (a missing gap never compares). */
  predicate WomenEarnMore(o: Occupation) {
    Get(o, PayGap).Some? && Get(o, PayGap).value < 0.0
  }

  function ReversedGaps(occs: seq<Occupation>): seq<Occupation> {
    Filter(occs, WomenEarnMore)
  }

  /** The two tables of option 4: the first ten rows by descending gap, and the first ten rows
      where women earn more, or `None` for the "no occupations found" message. */
  datatype GapReport = GapReport(widest: seq<Occupation>, womenEarnMore: Option<seq<Occupation>>)

  function GenderGap(occs: seq<Occupation>): (r: GapReport)
    ensures |r.widest| == Min(TOP, |occs|)
    ensures multiset(r.widest) <= multiset(occs)
    ensures r.womenEarnMore.Some? ==> 0 < |r.womenEarnMore.value| <= TOP
    ensures r.womenEarnMore.Some? ==> forall o :: o in r.womenEarnMore.value ==> o in occs && WomenEarnMore(o)
  {
    var sorted := SortBy(occs, PayGap, false);
    var reverse := Filter(sorted, WomenEarnMore);
    SortByMembers(occs, PayGap, false);
    HeadIsPart(sorted, TOP);
    HeadIsPart(reverse, TOP);
    GapReport(Head(sorted, TOP), if reverse == [] then None else Some(Head(reverse, TOP)))
  }

  /** Sorting keeps the number of rows, and every sorted row is a row of the table. */
  lemma SortByMembers(occs: seq<Occupation>, m: Measure, ascending: bool)
    ensures |SortBy(occs, m, ascending)| == |occs|
    ensures forall o :: o in SortBy(occs, m, ascending) ==> o in occs
  {
    var r := SortBy(occs, m, ascending);
    assert |multiset(r)| == |multiset(occs)|;
    forall o | o in r
      ensures o in occs
    {
      assert o in multiset(r);
    }
  }

  /** The first table is not filtered: it holds the widest gaps, and when fewer than ten rows have a
      gap, the rows without one follow in their original order. */
  lemma GenderGapWidest(occs: seq<Occupation>)
    ensures var w := GenderGap(occs).widest;
      |w| == Min(TOP, |occs|) &&
      w == Ranked(occs, PayGap, false) + Head(Lacking(occs, PayGap), TOP - |Ranked(occs, PayGap, false)|)
  {
    var h := Having(occs, PayGap);
    var q := QuickSort(h, KeyOf(PayGap), false);
    var l := Lacking(occs, PayGap);
    assert SortBy(occs, PayGap, false) == q + l;
    assert |q + l| == |occs| by {
      assert |multiset(q + l)| == |multiset(occs)|;
    }
    assert |q| == |h| by {
      assert |q| == |multiset(q)| == |multiset(h)|;
    }
    assert Ranked(occs, PayGap, false) == Head(q, TOP) by {
      HavingOfSorted(occs, PayGap, false);
    }
    HeadOfAppend(q, l, TOP);
  }

  /** Selecting the reversed gaps after the sort sees only the sorted present gaps. */
  lemma ReversedOfSortedSplit(occs: seq<Occupation>)
    ensures Filter(SortBy(occs, PayGap, false), WomenEarnMore)
         == Filter(QuickSort(Having(occs, PayGap), KeyOf(PayGap), false), WomenEarnMore)
  {
    var q := QuickSort(Having(occs, PayGap), KeyOf(PayGap), false);
    var l := Lacking(occs, PayGap);
    assert SortBy(occs, PayGap, false) == q + l;
    FilterAppend(q, l, WomenEarnMore);
    FilterNone(l, WomenEarnMore);
    assert Filter(q, WomenEarnMore) + [] == Filter(q, WomenEarnMore);
  }

  lemma ReversedCount(occs: seq<Occupation>, q: seq<Occupation>, x: Occupation)
    requires multiset(q) == multiset(Having(occs, PayGap))
    ensures multiset(Filter(q, WomenEarnMore))[x] == multiset(ReversedGaps(occs))[x]
  {
    FilterCount(q, WomenEarnMore, x);
    FilterCount(occs, Present(PayGap), x);
    FilterCount(occs, WomenEarnMore, x);
    PresentMeans(PayGap, x);
  }

  /** Selecting the reversed gaps after the sort yields a descending permutation of the occupations
      where women earn more. */
  lemma ReversedOfSorted(occs: seq<Occupation>)
    ensures var rev := Filter(SortBy(occs, PayGap, false), WomenEarnMore);
      Ordered(rev, KeyOf(PayGap), false) && multiset(rev) == multiset(ReversedGaps(occs))
  {
    var q := QuickSort(Having(occs, PayGap), KeyOf(PayGap), false);
    ReversedOfSortedSplit(occs);
    FilterOrdered(q, WomenEarnMore, KeyOf(PayGap), false);
    forall x ensures multiset(Filter(q, WomenEarnMore))[x] == multiset(ReversedGaps(occs))[x] {
      ReversedCount(occs, q, x);
    }
  }

  /** The second table appears exactly when some occupation has women earning more. */
  lemma GenderGapReversedShown(occs: seq<Occupation>)
    ensures GenderGap(occs).womenEarnMore.None? <==> forall o :: o in occs ==> !WomenEarnMore(o)
  {
    var rev := Filter(SortBy(occs, PayGap, false), WomenEarnMore);
    ReversedOfSorted(occs);
    FilterEmpty(occs, WomenEarnMore);
    assert rev == [] <==> ReversedGaps(occs) == [] by {
      assert |rev| == |multiset(rev)| == |ReversedGaps(occs)|;
    }
  }

  /** When shown, the second table holds up to ten occupations where women earn more, largest gap
      first, and no such occupation left out has a larger gap than one shown. */
  lemma GenderGapReversed(occs: seq<Occupation>)
    ensures GenderGap(occs).womenEarnMore.Some? ==>
      var rows := GenderGap(occs).womenEarnMore.value;
      |rows| == Min(TOP, |ReversedGaps(occs)|) &&
      (forall i :: 0 <= i < |rows| ==> rows[i] in occs && WomenEarnMore(rows[i])) &&
      (forall i, j :: 0 <= i < j < |rows| ==> Get(rows[j], PayGap).value <= Get(rows[i], PayGap).value) &&
      (forall i, y :: 0 <= i < |rows| && LeftOut(y, rows, ReversedGaps(occs)) ==>
         Get(y, PayGap).value <= Get(rows[i], PayGap).value)
  {
    var rev := Filter(SortBy(occs, PayGap, false), WomenEarnMore);
    ReversedOfSorted(occs);
    HeadOfPermutationIsTop(rev, ReversedGaps(occs), KeyOf(PayGap), false, TOP);
    ReversedViewByGap(occs, Head(rev, TOP), ReversedGaps(occs));
  }

  /** A descending top view of occupations where women earn more, restated on the pay gap itself. */
  lemma ReversedViewByGap(occs: seq<Occupation>, rows: seq<Occupation>, pool: seq<Occupation>)
    requires forall x :: x in pool ==> x in occs && WomenEarnMore(x)
    requires forall x :: x in rows ==> x in pool
    requires Ordered(rows, KeyOf(PayGap), false)
    requires forall x, y :: x in rows && LeftOut(y, rows, pool) ==> !Precedes(false, KeyOf(PayGap)(y), KeyOf(PayGap)(x))
    ensures forall i :: 0 <= i < |rows| ==> rows[i] in occs && WomenEarnMore(rows[i])
    ensures forall i, j :: 0 <= i < j < |rows| ==>
              WomenEarnMore(rows[j]) && WomenEarnMore(rows[i]) && Get(rows[j], PayGap).value <= Get(rows[i], PayGap).value
    ensures forall y :: LeftOut(y, rows, pool) ==> WomenEarnMore(y)
    ensures forall i, y :: 0 <= i < |rows| && LeftOut(y, rows, pool) && WomenEarnMore(y) && WomenEarnMore(rows[i]) ==>
              Get(y, PayGap).value <= Get(rows[i], PayGap).value
  {
    forall i | 0 <= i < |rows| ensures rows[i] in occs && WomenEarnMore(rows[i]) {
      assert rows[i] in rows;
    }
    forall i, j | 0 <= i < j < |rows|
      ensures WomenEarnMore(rows[j]) && WomenEarnMore(rows[i]) && Get(rows[j], PayGap).value <= Get(rows[i], PayGap).value
    {
      assert rows[i] in rows && rows[j] in rows;
      PresentMeans(PayGap, rows[i]);
      PresentMeans(PayGap, rows[j]);
    }
    forall x, y | x in rows && LeftOut(y, rows, pool)
      ensures WomenEarnMore(x) && WomenEarnMore(y) && Get(y, PayGap).value <= Get(x, PayGap).value
    {
      PresentMeans(PayGap, x);
      PresentMeans(PayGap, y);
    }
    assert forall i :: 0 <= i < |rows| ==> rows[i] in rows;
  }
}
