/** Dividing the cells of a stacked bar among its segments, ui/bar.ts `stackedBar`, in exact arithmetic. */
module Bar {
  import opened Permutations
  import opened Sorting

  // ---- Sums ----

  function Sum(xs: seq<real>): real {
    if xs == [] then 0.0 else Sum(xs[..|xs| - 1]) + xs[|xs| - 1]
  }

  function Cells(ws: seq<int>): int {
    if ws == [] then 0 else Cells(ws[..|ws| - 1]) + ws[|ws| - 1]
  }

  lemma {:induction false} CellsWrite(ws: seq<int>, i: nat, w: int)
    requires i < |ws|
    ensures Cells(ws[i := w]) == Cells(ws) - ws[i] + w
  {
    if i < |ws| - 1 {
      CellsWrite(ws[..|ws| - 1], i, w);
      assert ws[i := w][..|ws| - 1] == ws[..|ws| - 1][i := w];
    } else {
      assert ws[i := w][..|ws| - 1] == ws[..|ws| - 1];
    }
  }

  // ---- Shares ----

  function Active(values: seq<real>): seq<real> {
    if values == [] then []
    else
      var front, last := Active(values[..|values| - 1]), values[|values| - 1];
      if last > 0.0 then front + [last] else front
  }

  /** `(seg.value / total) * width` */
  function ShareOf(value: real, total: real, width: int): real
    requires total != 0.0
  {
    value / total * width as real
  }

  function Shares(active: seq<real>, total: real, width: int): seq<real>
    requires total != 0.0
  {
    seq(|active|, i requires 0 <= i < |active| => ShareOf(active[i], total, width))
  }

  /** At least one cell, otherwise the whole cells of the share. */
  function StartWidth(share: real): (w: int)
    ensures w >= 1
  {
    if share.Floor > 1 then share.Floor else 1
  }

  function StartWidths(shares: seq<real>): seq<int> {
    seq(|shares|, i requires 0 <= i < |shares| => StartWidth(shares[i]))
  }

  /** How many segments have a share below one cell. */
  function SmallShares(shares: seq<real>): nat {
    if shares == [] then 0 else SmallShares(shares[..|shares| - 1]) + if shares[|shares| - 1] < 1.0 then 1 else 0
  }

  /** Positions with two cells or more. */
  function Wide(ws: seq<int>): set<int> {
    set i | 0 <= i < |ws| && ws[i] > 1
  }

  ghost predicate AllPositive(xs: seq<real>) {
    forall i :: 0 <= i < |xs| ==> xs[i] > 0.0
  }

  /** One-cell minimums overrun the shares by less than the number of small ones; rounding down loses less than a cell each. */
  lemma {:induction false} StartBounds(shares: seq<real>)
    requires AllPositive(shares)
    ensures var cells := Cells(StartWidths(shares)) as real;
            && cells <= Sum(shares) + SmallShares(shares) as real
            && (SmallShares(shares) > 0 ==> cells < Sum(shares) + SmallShares(shares) as real)
            && (shares != [] ==> cells > Sum(shares) - |shares| as real)
  {
    if shares != [] {
      var front, last := shares[..|shares| - 1], shares[|shares| - 1];
      StartBounds(front);
      assert StartWidths(shares)[..|shares| - 1] == StartWidths(front);
      assert Cells(StartWidths(shares)) == Cells(StartWidths(front)) + StartWidth(last);
      StartBound(last);
    }
  }

  lemma StartBound(share: real)
    requires share > 0.0
    ensures share < 1.0 ==> StartWidth(share) == 1
    ensures share >= 1.0 ==> StartWidth(share) as real <= share
    ensures StartWidth(share) as real > share - 1.0
  {
  }

  lemma {:induction false} ActiveSum(values: seq<real>)
    requires forall i :: 0 <= i < |values| ==> values[i] >= 0.0
    ensures Sum(Active(values)) == Sum(values) && AllPositive(Active(values))
  {
    if values != [] {
      ActiveSum(values[..|values| - 1]);
      var front, last := Active(values[..|values| - 1]), values[|values| - 1];
      assert (front + [last])[..|front|] == front;
    }
  }

  lemma {:induction false} SharesSum(active: seq<real>, total: real, width: int)
    requires total != 0.0
    ensures Sum(Shares(active, total, width)) == ShareOf(Sum(active), total, width)
  {
    if active != [] {
      var front, last := active[..|active| - 1], active[|active| - 1];
      SharesSum(front, total, width);
      Distribute(Sum(front), last, total, width);
      hide ShareOf;
      assert Shares(active, total, width)[..|active| - 1] == Shares(front, total, width);
    }
  }

  lemma Distribute(a: real, b: real, total: real, width: int)
    requires total != 0.0
    ensures ShareOf(a + b, total, width) == ShareOf(a, total, width) + ShareOf(b, total, width)
  {
    assert (a + b) / total == a / total + b / total;
  }

  lemma SharesPositive(active: seq<real>, total: real, width: int)
    requires AllPositive(active) && total > 0.0 && width > 0
    ensures AllPositive(Shares(active, total, width))
  {
    forall i | 0 <= i < |active| ensures Shares(active, total, width)[i] > 0.0 {
      SharePositive(active[i], total, width);
    }
  }

  lemma SharePositive(value: real, total: real, width: int)
    requires value > 0.0 && total > 0.0 && width > 0
    ensures ShareOf(value, total, width) > 0.0
  {
    assert value / total > 0.0;
  }

  // ---- Adjusting ----

  datatype Remainder = Remainder(index: nat, remainder: real)

  /** `b.remainder - a.remainder` when growing, `a.remainder - b.remainder` when shrinking. */
  function Largest(): (Remainder, Remainder) -> bool {
    (a: Remainder, b: Remainder) => a.remainder >= b.remainder
  }

  function Smallest(): (Remainder, Remainder) -> bool {
    (a: Remainder, b: Remainder) => a.remainder <= b.remainder
  }

  function Remainders(shares: seq<real>, ws: seq<int>): seq<Remainder>
    requires |shares| == |ws|
  {
    seq(|ws|, i requires 0 <= i < |ws| => Remainder(i, shares[i] - ws[i] as real))
  }

  /** An order visits every position once, and knows its remainder. */
  ghost predicate Visits(order: seq<Remainder>, shares: seq<real>, ws: seq<int>)
    requires |shares| == |ws|
  {
    && |order| == |ws|
    && (forall k :: 0 <= k < |order| ==>
          order[k].index < |ws| && order[k].remainder == shares[order[k].index] - ws[order[k].index] as real)
    && Distinct(order)
    && (forall i: nat :: i < |ws| ==> Visited(order, i))
  }

  ghost predicate Distinct(order: seq<Remainder>) {
    forall k, l :: 0 <= k < l < |order| ==> order[k].index != order[l].index
  }

  ghost predicate Visited(order: seq<Remainder>, i: nat) {
    exists k :: 0 <= k < |order| && order[k].index == i
  }

  lemma OrderVisits(shares: seq<real>, ws: seq<int>, le: (Remainder, Remainder) -> bool)
    requires |shares| == |ws| && TotalPreorder(le)
    ensures var order := StableSort(Remainders(shares, ws), le); Visits(order, shares, ws) && SortedBy(order, le)
  {
    hide StableSort, TotalPreorder, SortedBy;
    var rs := Remainders(shares, ws);
    var order := StableSort(rs, le);
    SortSorts(rs, le);
    forall r | r in multiset(order) ensures r in rs && multiset(order)[r] == 1 {
      assert r in multiset(rs);
      OnceEach(rs, r.index);
    }
    forall k | 0 <= k < |order|
      ensures order[k].index < |ws| && order[k].remainder == shares[order[k].index] - ws[order[k].index] as real
    {
      assert order[k] in multiset(order);
    }
    forall k, l | 0 <= k < l < |order| ensures order[k].index != order[l].index {
      AtMostOnce(order, k, l);
      assert order[k] in multiset(order) && order[l] in multiset(order);
    }
    forall i: nat | i < |ws| ensures Visited(order, i) {
      assert rs[i] in multiset(rs);
      assert rs[i] in order;
    }
  }

  ghost predicate Indexes(order: seq<Remainder>, n: nat) {
    forall k :: 0 <= k < |order| ==> order[k].index < n
  }

  /** One cell more for each in turn while cells remain. */
  ghost function Grown(ws: seq<int>, order: seq<Remainder>, extra: nat): (r: seq<int>)
    requires Indexes(order, |ws|)
    ensures |r| == |ws|
    decreases |order|
  {
    if order == [] || extra == 0 then ws
    else Grown(ws[order[0].index := ws[order[0].index] + 1], order[1..], extra - 1)
  }

  /** One cell less for each in turn that keeps one, while there is an excess. */
  ghost function Shrunk(ws: seq<int>, order: seq<Remainder>, excess: nat): (r: seq<int>)
    requires Indexes(order, |ws|)
    ensures |r| == |ws|
    decreases |order|
  {
    if order == [] || excess == 0 then ws
    else if ws[order[0].index] > 1 then Shrunk(ws[order[0].index := ws[order[0].index] - 1], order[1..], excess - 1)
    else Shrunk(ws, order[1..], excess)
  }

  method Grow(charWidths: array<int>, order: seq<Remainder>, extra: nat)
    requires Indexes(order, charWidths.Length)
    modifies charWidths
    ensures charWidths[..] == Grown(old(charWidths[..]), order, extra)
  {
    var remaining := extra;
    var k := 0;
    while k < |order|
      invariant 0 <= k <= |order|
      invariant Indexes(order[k..], charWidths.Length)
      invariant Grown(charWidths[..], order[k..], remaining) == Grown(old(charWidths[..]), order, extra)
    {
      if remaining <= 0 { break; }
      assert order[k..][1..] == order[k + 1..];
      var index := order[k].index;
      ghost var before := charWidths[..];
      charWidths[index] := charWidths[index] + 1;
      assert charWidths[..] == before[index := before[index] + 1];
      remaining := remaining - 1;
      k := k + 1;
    }
  }

  method Shrink(charWidths: array<int>, order: seq<Remainder>, excess: nat)
    requires Indexes(order, charWidths.Length)
    modifies charWidths
    ensures charWidths[..] == Shrunk(old(charWidths[..]), order, excess)
  {
    var left := excess;
    var k := 0;
    while k < |order|
      invariant 0 <= k <= |order|
      invariant Indexes(order[k..], charWidths.Length)
      invariant Shrunk(charWidths[..], order[k..], left) == Shrunk(old(charWidths[..]), order, excess)
    {
      if left <= 0 { break; }
      assert order[k..][1..] == order[k + 1..];
      var index := order[k].index;
      ghost var before := charWidths[..];
      if charWidths[index] > 1 {
        charWidths[index] := charWidths[index] - 1;
        assert charWidths[..] == before[index := before[index] - 1];
        left := left - 1;
      }
      k := k + 1;
    }
  }

  // ---- What adjusting achieves ----

  lemma {:induction false} GrownCells(ws: seq<int>, order: seq<Remainder>, extra: nat)
    requires Indexes(order, |ws|)
    ensures Cells(Grown(ws, order, extra)) == Cells(ws) + if extra < |order| then extra else |order|
    decreases |order|
  {
    if order != [] && extra > 0 {
      var i := order[0].index;
      CellsWrite(ws, i, ws[i] + 1);
      GrownCells(ws[i := ws[i] + 1], order[1..], extra - 1);
    }
  }

  ghost function WideVisited(ws: seq<int>, order: seq<Remainder>): set<int>
    requires Indexes(order, |ws|)
  {
    set k | 0 <= k < |order| && ws[order[k].index] > 1 :: order[k].index
  }

  lemma WideVisitedStep(ws: seq<int>, order: seq<Remainder>, w: int)
    requires Indexes(order, |ws|) && order != [] && Distinct(order)
    ensures var i := order[0].index;
            && Indexes(order[1..], |ws|) && Distinct(order[1..])
            && WideVisited(ws[i := w], order[1..]) == WideVisited(ws, order[1..])
            && i !in WideVisited(ws, order[1..])
            && WideVisited(ws, order) == WideVisited(ws, order[1..]) + if ws[i] > 1 then {i} else {}
  {
    var i, rest := order[0].index, order[1..];
    forall k | 0 <= k < |rest| ensures rest[k] == order[k + 1] && rest[k].index != i {}
    forall j | j in WideVisited(ws, order) ensures j in WideVisited(ws, rest) + if ws[i] > 1 then {i} else {} {
      var k :| 0 <= k < |order| && ws[order[k].index] > 1 && order[k].index == j;
      if k > 0 { assert rest[k - 1].index == j; }
    }
    forall j | j in WideVisited(ws, rest) ensures j in WideVisited(ws, order) {
      var k :| 0 <= k < |rest| && ws[rest[k].index] > 1 && rest[k].index == j;
      assert order[k + 1].index == j;
    }
    if ws[i] > 1 { assert i in WideVisited(ws, order); }
  }

  lemma {:induction false} ShrunkCells(ws: seq<int>, order: seq<Remainder>, excess: nat)
    requires Indexes(order, |ws|) && Distinct(order)
    ensures Cells(Shrunk(ws, order, excess))
         == Cells(ws) - if excess < |WideVisited(ws, order)| then excess else |WideVisited(ws, order)|
    decreases |order|
  {
    hide WideVisited, Distinct;
    if order == [] {
      NoneWide(ws, order);
    } else if excess > 0 {
      var i := order[0].index;
      WideVisitedStep(ws, order, ws[i] - 1);
      CellsWrite(ws, i, ws[i] - 1);
      if ws[i] > 1 {
        ShrunkCells(ws[i := ws[i] - 1], order[1..], excess - 1);
      } else {
        ShrunkCells(ws, order[1..], excess);
      }
    }
  }

  lemma NoneWide(ws: seq<int>, order: seq<Remainder>)
    requires order == []
    ensures WideVisited(ws, order) == {}
  {
  }

  lemma {:induction false} GrownEach(ws: seq<int>, order: seq<Remainder>, extra: nat, i: nat)
    requires Indexes(order, |ws|) && Distinct(order) && i < |ws|
    ensures ws[i] <= Grown(ws, order, extra)[i] <= ws[i] + 1
    ensures !Visited(order, i) ==> Grown(ws, order, extra)[i] == ws[i]
    decreases |order|
  {
    if order != [] && extra > 0 {
      var h := order[0].index;
      RestVisits(order, i);
      GrownEach(ws[h := ws[h] + 1], order[1..], extra - 1, i);
    }
  }

  lemma RestVisits(order: seq<Remainder>, i: nat)
    requires order != [] && Distinct(order)
    ensures Distinct(order[1..]) && !Visited(order[1..], order[0].index)
    ensures Visited(order, i) <==> i == order[0].index || Visited(order[1..], i)
  {
    var rest := order[1..];
    forall k | 0 <= k < |rest| ensures rest[k] == order[k + 1] && rest[k].index != order[0].index {}
    if k :| 0 <= k < |order| && order[k].index == i {
      assert k > 0 ==> rest[k - 1].index == i;
    }
    if k :| 0 <= k < |rest| && rest[k].index == i {
      assert order[k + 1].index == i;
    }
  }

  lemma {:induction false} ShrunkEach(ws: seq<int>, order: seq<Remainder>, excess: nat, i: nat)
    requires Indexes(order, |ws|) && Distinct(order) && i < |ws|
    ensures ws[i] - 1 <= Shrunk(ws, order, excess)[i] <= ws[i]
    ensures ws[i] >= 1 ==> Shrunk(ws, order, excess)[i] >= 1
    ensures !Visited(order, i) ==> Shrunk(ws, order, excess)[i] == ws[i]
    decreases |order|
  {
    if order != [] && excess > 0 {
      var h := order[0].index;
      RestVisits(order, i);
      if ws[h] > 1 {
        ShrunkEach(ws[h := ws[h] - 1], order[1..], excess - 1, i);
      } else {
        ShrunkEach(ws, order[1..], excess, i);
      }
    }
  }

  /** A segment that gains a cell has no smaller remainder than one that does not. */
  lemma {:induction false} GrownFair(ws: seq<int>, order: seq<Remainder>, extra: nat, k: nat, l: nat)
    requires Indexes(order, |ws|) && Distinct(order) && SortedBy(order, Largest()) && k < |order| && l < |order|
    ensures var after := Grown(ws, order, extra);
            after[order[k].index] > ws[order[k].index] && after[order[l].index] == ws[order[l].index]
            ==> order[k].remainder >= order[l].remainder
    decreases |order|
  {
    hide Distinct;
    if extra > 0 {
      var h := order[0].index;
      RestVisits(order, h);
      assert SortedBy(order[1..], Largest()) by {
        forall i, j | 0 <= i < j < |order[1..]| ensures Largest()(order[1..][i], order[1..][j]) {
          assert Largest()(order[i + 1], order[j + 1]);
        }
      }
      var more := ws[h := ws[h] + 1];
      GrownEach(more, order[1..], extra - 1, h);
      if k == 0 {
        assert l > 0 ==> Largest()(order[0], order[l]);
      } else if l > 0 {
        ElsewhereDiffers(order, k);
        ElsewhereDiffers(order, l);
        GrownFair(more, order[1..], extra - 1, k - 1, l - 1);
      }
    }
  }

  lemma ElsewhereDiffers(order: seq<Remainder>, k: nat)
    requires Distinct(order) && 0 < k < |order|
    ensures order[1..][k - 1] == order[k] && order[k].index != order[0].index
  {
  }

  /** A segment that loses a cell has no larger remainder than one that could have lost one and does not. */
  lemma {:induction false} ShrunkFair(ws: seq<int>, order: seq<Remainder>, excess: nat, k: nat, l: nat)
    requires Indexes(order, |ws|) && Distinct(order) && SortedBy(order, Smallest()) && k < |order| && l < |order|
    ensures var after := Shrunk(ws, order, excess);
            after[order[k].index] < ws[order[k].index] && after[order[l].index] == ws[order[l].index] > 1
            ==> order[k].remainder <= order[l].remainder
    decreases |order|
  {
    hide Distinct;
    if excess > 0 {
      var h := order[0].index;
      RestVisits(order, h);
      assert SortedBy(order[1..], Smallest()) by {
        forall i, j | 0 <= i < j < |order[1..]| ensures Smallest()(order[1..][i], order[1..][j]) {
          assert Smallest()(order[i + 1], order[j + 1]);
        }
      }
      var fewer, rest := if ws[h] > 1 then ws[h := ws[h] - 1] else ws, if ws[h] > 1 then excess - 1 else excess;
      ShrunkEach(fewer, order[1..], rest, h);
      if k == 0 {
        assert l > 0 ==> Smallest()(order[0], order[l]);
      } else if l > 0 {
        ElsewhereDiffers(order, k);
        ElsewhereDiffers(order, l);
        ShrunkFair(fewer, order[1..], rest, k - 1, l - 1);
      }
    }
  }

  // ---- The bar ----

  datatype Drawing = NoBar | Blank(width: int) | Bar(cells: seq<int>)

  ghost function Adjusted(shares: seq<real>, width: int): (cells: seq<int>)
    ensures |cells| == |shares|
  {
    var ws := StartWidths(shares);
    LargestIsPreorder();
    SmallestIsPreorder();
    OrderVisits(shares, ws, Largest());
    OrderVisits(shares, ws, Smallest());
    if Cells(ws) < width then Grown(ws, StableSort(Remainders(shares, ws), Largest()), width - Cells(ws))
    else if Cells(ws) > width then Shrunk(ws, StableSort(Remainders(shares, ws), Smallest()), Cells(ws) - width)
    else ws
  }

  lemma LargestIsPreorder()
    ensures TotalPreorder(Largest())
  {
  }

  lemma SmallestIsPreorder()
    ensures TotalPreorder(Smallest())
  {
  }

  /** `stackedBar`, drawn as the number of cells of each segment with a positive value. */
  method StackedBar(values: seq<real>, width: int) returns (bar: Drawing)
    ensures width <= 0 ==> bar == NoBar
    ensures width > 0 && Sum(values) == 0.0 ==> bar == Blank(width)
    ensures width > 0 && Sum(values) != 0.0 ==> bar == Bar(Adjusted(Shares(Active(values), Sum(values), width), width))
  {
    hide StableSort, Grown, Shrunk, TotalPreorder, Shares, StartWidths;
    if width <= 0 { return NoBar; }
    var total := Sum(values);
    if total == 0.0 { return Blank(width); }
    var active := Active(values);
    var rawWidths := Shares(active, total, width);
    var starts := StartWidths(rawWidths);
    var charWidths := new int[|starts|](i requires 0 <= i < |starts| => starts[i]);
    assert charWidths[..] == starts;
    var cellsUsed := Cells(starts);
    StartsMatch(rawWidths);
    LargestIsPreorder();
    SmallestIsPreorder();
    OrderVisits(rawWidths, starts, Largest());
    OrderVisits(rawWidths, starts, Smallest());
    if cellsUsed < width {
      Grow(charWidths, StableSort(Remainders(rawWidths, starts), Largest()), width - cellsUsed);
    } else if cellsUsed > width {
      Shrink(charWidths, StableSort(Remainders(rawWidths, starts), Smallest()), cellsUsed - width);
    }
    return Bar(charWidths[..]);
  }

  lemma StartsMatch(shares: seq<real>)
    ensures |StartWidths(shares)| == |shares|
  {
  }

  /** Every segment keeps at least one cell and ends within one cell of where it started. */
  lemma EachCell(shares: seq<real>, width: int, i: nat)
    requires i < |shares|
    ensures var w, start := Adjusted(shares, width)[i], StartWidth(shares[i]);
            w >= 1 && start - 1 <= w <= start + 1
  {
    hide StableSort, Grown, Shrunk, TotalPreorder, StartWidth;
    var ws := StartWidths(shares);
    LargestIsPreorder();
    SmallestIsPreorder();
    OrderVisits(shares, ws, Largest());
    OrderVisits(shares, ws, Smallest());
    if Cells(ws) < width {
      GrownEach(ws, StableSort(Remainders(shares, ws), Largest()), width - Cells(ws), i);
    } else if Cells(ws) > width {
      ShrunkEach(ws, StableSort(Remainders(shares, ws), Smallest()), Cells(ws) - width, i);
    }
  }

  /**
   * Cells are added to the largest remainders and taken from the smallest: whoever gains one has no smaller
   * remainder than whoever gains none, and whoever loses one has no larger remainder than a wide segment that keeps all.
   */
  lemma RemaindersDecide(shares: seq<real>, width: int, i: nat, j: nat)
    requires i < |shares| && j < |shares|
    ensures var after, ws := Adjusted(shares, width), StartWidths(shares);
            var ri, rj := shares[i] - ws[i] as real, shares[j] - ws[j] as real;
            && (after[i] > ws[i] && after[j] == ws[j] ==> ri >= rj)
            && (after[i] < ws[i] && after[j] == ws[j] > 1 ==> ri <= rj)
  {
    hide StableSort, Grown, Shrunk, TotalPreorder, SortedBy, Distinct;
    var ws := StartWidths(shares);
    LargestIsPreorder();
    SmallestIsPreorder();
    OrderVisits(shares, ws, Largest());
    OrderVisits(shares, ws, Smallest());
    if Cells(ws) < width {
      var order := StableSort(Remainders(shares, ws), Largest());
      assert Visited(order, i) && Visited(order, j);
      var k: nat :| k < |order| && order[k].index == i;
      var l: nat :| l < |order| && order[l].index == j;
      GrownFair(ws, order, width - Cells(ws), k, l);
      GrownEach(ws, order, width - Cells(ws), i);
    } else if Cells(ws) > width {
      var order := StableSort(Remainders(shares, ws), Smallest());
      assert Visited(order, i) && Visited(order, j);
      var k: nat :| k < |order| && order[k].index == i;
      var l: nat :| l < |order| && order[l].index == j;
      ShrunkFair(ws, order, Cells(ws) - width, k, l);
      ShrunkEach(ws, order, Cells(ws) - width, i);
    }
  }

  lemma AllWideVisited(ws: seq<int>, order: seq<Remainder>)
    requires Indexes(order, |ws|) && forall i: nat :: i < |ws| ==> Visited(order, i)
    ensures WideVisited(ws, order) == Wide(ws)
  {
    forall i | i in Wide(ws) ensures i in WideVisited(ws, order) {
      assert Visited(order, i);
      var k :| 0 <= k < |order| && order[k].index == i;
    }
  }

  /** The cells add up to the width plus whatever excess the segments of two cells or more could not absorb. */
  lemma BarCells(shares: seq<real>, width: int)
    requires shares != [] && AllPositive(shares) && Sum(shares) == width as real
    ensures var starts := StartWidths(shares);
            var excess := Cells(starts) - width;
            && Cells(Adjusted(shares, width)) == width + (if excess > |Wide(starts)| then excess - |Wide(starts)| else 0)
            && (SmallShares(shares) == 0 ==> excess <= 0)
            && (SmallShares(shares) > 0 ==> excess < SmallShares(shares))
  {
    hide StableSort, Grown, Shrunk, TotalPreorder, Wide, WideVisited;
    var ws := StartWidths(shares);
    StartBounds(shares);
    LargestIsPreorder();
    SmallestIsPreorder();
    OrderVisits(shares, ws, Largest());
    OrderVisits(shares, ws, Smallest());
    if Cells(ws) < width {
      GrownCells(ws, StableSort(Remainders(shares, ws), Largest()), width - Cells(ws));
    } else if Cells(ws) > width {
      var order := StableSort(Remainders(shares, ws), Smallest());
      ShrunkCells(ws, order, Cells(ws) - width);
      AllWideVisited(ws, order);
    }
  }

  /**
   * The bar fills its width exactly when the excess of the starting widths is no more than the number of
   * segments with two cells or more; otherwise it is longer, by less than the number of segments whose
   * share is below one cell.
   */
  lemma BarWidth(values: seq<real>, width: int)
    requires (forall i :: 0 <= i < |values| ==> values[i] >= 0.0) && width > 0 && Sum(values) != 0.0
    ensures var shares := Shares(Active(values), Sum(values), width);
            var cells := Cells(Adjusted(shares, width));
            && (cells == width <==> Cells(StartWidths(shares)) - width <= |Wide(StartWidths(shares))|)
            && cells >= width
            && (cells > width ==> cells - width < SmallShares(shares))
  {
    hide Adjusted, Wide, StartWidths, Shares, SmallShares, Active;
    ActiveSum(values);
    var active, total := Active(values), Sum(values);
    SumNotNegative(active);
    SharesPositive(active, total, width);
    SharesSum(active, total, width);
    WholeShare(total, width);
    NothingActive(active, total, width);
    BarCells(Shares(active, total, width), width);
  }

  lemma {:induction false} SumNotNegative(xs: seq<real>)
    requires AllPositive(xs)
    ensures Sum(xs) >= 0.0
  {
    if xs != [] { SumNotNegative(xs[..|xs| - 1]); }
  }

  lemma WholeShare(total: real, width: int)
    requires total != 0.0
    ensures ShareOf(total, total, width) == width as real
  {
    assert total / total == 1.0;
  }

  lemma NothingActive(active: seq<real>, total: real, width: int)
    requires total != 0.0 && Sum(active) == total
    ensures Shares(active, total, width) != []
  {
  }

  /** The comment promises exactly `width` cells; three equal segments in two cells take three. */
  lemma MoreSegmentsThanCells()
    ensures Sum([1.0, 1.0, 1.0]) == 3.0
    ensures Cells(Adjusted(Shares(Active([1.0, 1.0, 1.0]), 3.0, 2), 2)) == 3
  {
    var values := [1.0, 1.0, 1.0];
    assert values[..2] == [1.0, 1.0] && [1.0, 1.0][..1] == [1.0] && [1.0][..0] == [];
    assert Sum([1.0]) == 1.0 && Sum([1.0, 1.0]) == 2.0;
    assert Active([1.0]) == [1.0] && Active([1.0, 1.0]) == [1.0, 1.0];
    assert Active(values) == values;
    var shares := Shares(values, 3.0, 2);
    var third := ShareOf(1.0, 3.0, 2);
    assert third * 3.0 == 2.0;
    assert shares == [third, third, third];
    assert StartWidths(shares) == [1, 1, 1];
    ThreeOnes();
    assert Wide([1, 1, 1]) == {};
    SharesPositive(values, 3.0, 2);
    SharesSum(values, 3.0, 2);
    WholeShare(3.0, 2);
    BarCells(shares, 2);
  }

  lemma ThreeOnes()
    ensures Cells([1, 1, 1]) == 3
  {
    assert [1, 1, 1][..2] == [1, 1] && [1, 1][..1] == [1] && [1][..0] == [];
    assert Cells([1]) == 1 && Cells([1, 1]) == 2;
  }
}
