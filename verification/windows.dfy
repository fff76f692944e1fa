/** Fixed-width time bucketing, as pandas `resample(freq)` and
    `groupby(pd.Grouper(freq=freq))` do it: bucket `k` of a series is the
    half-open interval [origin + k*width, origin + (k+1)*width), where the
    origin is midnight of the day of the series' earliest time, and the
    output runs from the first to the last non-empty bucket. */
module Windows {
  import opened Wrappers
  import opened Counting
  import opened Events

  /** A bucket width in seconds. */
  type Width = w: int | w > 0 witness 1

  const Day: int := 86400

  /** Midnight of the day that contains `t`. */
  function DayStart(t: int): (d: int)
    ensures d <= t < d + Day
    ensures d % Day == 0
  {
    t - t % Day
  }

  /** Index of the bucket that contains time `t`: floor((t - origin) / width). */
  function BucketOf(t: int, origin: int, width: Width): int
  {
    (t - origin) / width
  }

  /** Every time lies inside its own bucket's half-open interval. */
  lemma BucketContains(t: int, origin: int, width: Width)
    ensures origin + BucketOf(t, origin, width) * width <= t < origin + (BucketOf(t, origin, width) + 1) * width
  {
    var q := BucketOf(t, origin, width);
    assert t - origin == q * width + (t - origin) % width;
  }

  /** No other bucket's interval holds `t`: together with `BucketContains`
      this pins the bucket index as the floor of (t - origin) / width. */
  lemma BucketUnique(t: int, origin: int, width: Width, k: int)
    requires origin + k * width <= t < origin + (k + 1) * width
    ensures k == BucketOf(t, origin, width)
  {
    var q := BucketOf(t, origin, width);
    BucketContains(t, origin, width);
    if k < q {
      MulMonotone(k + 1, q, width);
    } else if q < k {
      MulMonotone(q + 1, k, width);
    }
  }

  lemma MulMonotone(a: int, b: int, width: Width)
    requires a <= b
    ensures a * width <= b * width
  {
    assert b * width == a * width + (b - a) * width;
  }

  lemma BucketOfMonotone(a: int, b: int, origin: int, width: Width)
    requires a <= b
    ensures BucketOf(a, origin, width) <= BucketOf(b, origin, width)
  {
    var qa := BucketOf(a, origin, width);
    var qb := BucketOf(b, origin, width);
    BucketContains(a, origin, width);
    BucketContains(b, origin, width);
  }

  /** The bucket index of every row. */
  function Keys(es: seq<Event>, origin: int, width: Width): (ks: seq<int>)
    ensures |ks| == |es|
    ensures forall i :: 0 <= i < |es| ==> ks[i] == BucketOf(es[i].time, origin, width)
  {
    seq(|es|, i requires 0 <= i < |es| => BucketOf(es[i].time, origin, width))
  }

  /** Row `i` is keyed `k` exactly when its time lies in bucket `k`'s
      half-open interval. */
  lemma KeysBracket(es: seq<Event>, origin: int, width: Width, i: nat, k: int)
    requires i < |es|
    ensures Keys(es, origin, width)[i] == k <==> origin + k * width <= es[i].time < origin + (k + 1) * width
  {
    BucketContains(es[i].time, origin, width);
    if origin + k * width <= es[i].time < origin + (k + 1) * width {
      BucketUnique(es[i].time, origin, width, k);
    }
  }

  lemma KeysAppend(a: seq<Event>, b: seq<Event>, origin: int, width: Width)
    ensures Keys(a + b, origin, width) == Keys(a, origin, width) + Keys(b, origin, width)
  {
  }

  /** The buckets a series covers: `count` consecutive bucket indices starting
      at `first`, all measured from `origin`. */
  datatype Frame = Frame(origin: int, first: int, count: nat)

  /** The frame pandas builds for a non-empty series: origin at midnight of
      the earliest day, from the earliest to the latest event's bucket. */
  function FrameOf(es: seq<Event>, width: Width): (f: Frame)
    requires |es| > 0
    ensures f.origin == DayStart(MinTime(es))
    ensures f.first == BucketOf(MinTime(es), f.origin, width)
    ensures f.first + f.count - 1 == BucketOf(MaxTime(es), f.origin, width)
  {
    var origin := DayStart(MinTime(es));
    var lo := BucketOf(MinTime(es), origin, width);
    var hi := BucketOf(MaxTime(es), origin, width);
    BucketOfMonotone(MinTime(es), MaxTime(es), origin, width);
    Frame(origin, lo, hi - lo + 1)
  }

  /** The frame holds every row of the series, and its first and last buckets
      are not empty: it is the smallest run of buckets that covers the
      series. */
  lemma FrameCovers(es: seq<Event>, width: Width)
    requires |es| > 0
    ensures var f := FrameOf(es, width);
      && f.count > 0
      && (forall i :: 0 <= i < |es| ==> f.first <= Keys(es, f.origin, width)[i] < f.first + f.count)
      && Occurrences(Keys(es, f.origin, width), f.first) > 0
      && Occurrences(Keys(es, f.origin, width), f.first + f.count - 1) > 0
  {
    var f := FrameOf(es, width);
    var ks := Keys(es, f.origin, width);
    forall i | 0 <= i < |es|
      ensures f.first <= ks[i] < f.first + f.count
    {
      BucketOfMonotone(MinTime(es), es[i].time, f.origin, width);
      BucketOfMonotone(es[i].time, MaxTime(es), f.origin, width);
    }
    var lo :| 0 <= lo < |es| && es[lo].time == MinTime(es);
    var hi :| 0 <= hi < |es| && es[hi].time == MaxTime(es);
    assert ks[lo] in ks && ks[hi] in ks;
    OccurrencesPositive(ks, f.first);
    OccurrencesPositive(ks, f.first + f.count - 1);
  }

  /** The frame is measured from midnight of the day of the earliest row. */
  lemma FrameOrigin(es: seq<Event>, width: Width)
    requires |es| > 0
    ensures var o := FrameOf(es, width).origin; o % Day == 0 && o <= MinTime(es) < o + Day
  {
    var t := MinTime(es);
    assert FrameOf(es, width).origin == DayStart(t);
  }

  /** Start time of each bucket of the frame: the `时间段` labels before they
      are formatted. Consecutive labels are one width apart. */
  function Starts(f: Frame, width: Width): (s: seq<int>)
    ensures |s| == f.count
    ensures forall i :: 0 < i < |s| ==> s[i] == s[i - 1] + width
    ensures 0 < |s| ==> s[0] == f.origin + f.first * width
  {
    seq(f.count, i => f.origin + (f.first + i) * width)
  }

  /** Rows filtered from a log keep their times inside the log's frame. */
  lemma FilteredInFrame(es: seq<Event>, actions: set<string>, width: Width)
    requires |es| > 0
    ensures var f := FrameOf(es, width);
      forall i :: 0 <= i < |OfActions(es, actions)| ==>
        f.first <= Keys(OfActions(es, actions), f.origin, width)[i] < f.first + f.count
  {
    var f := FrameOf(es, width);
    var fs := OfActions(es, actions);
    FrameCovers(es, width);
    forall i | 0 <= i < |fs|
      ensures f.first <= Keys(fs, f.origin, width)[i] < f.first + f.count
    {
      assert fs[i] in fs;
      var j :| 0 <= j < |es| && es[j] == fs[i];
      assert Keys(es, f.origin, width)[j] == Keys(fs, f.origin, width)[i];
    }
  }

  /** A filtered series never has more rows in a bucket than the whole log. */
  lemma {:induction false} FilteredBucketBound(es: seq<Event>, actions: set<string>, origin: int, width: Width, k: int)
    ensures Occurrences(Keys(OfActions(es, actions), origin, width), k) <= Occurrences(Keys(es, origin, width), k)
  {
    if |es| > 0 {
      var init := es[..|es| - 1];
      var last := es[|es| - 1];
      var fs0 := OfActions(init, actions);
      var one := if BucketOf(last.time, origin, width) == k then 1 else 0;
      assert es == init + [last];
      OfActionsSnoc(init, last, actions);
      calc {
        Occurrences(Keys(OfActions(es, actions), origin, width), k);
      <= { if last.action in actions { SnocBucketCount(fs0, last, origin, width, k); } }
        Occurrences(Keys(fs0, origin, width), k) + one;
      <= { FilteredBucketBound(init, actions, origin, width, k); }
        Occurrences(Keys(init, origin, width), k) + one;
      == { SnocBucketCount(init, last, origin, width, k); }
        Occurrences(Keys(es, origin, width), k);
      }
    }
  }

  /** Appending a row adds one to the count of its own bucket only. */
  lemma SnocBucketCount(es: seq<Event>, e: Event, origin: int, width: Width, k: int)
    ensures Occurrences(Keys(es + [e], origin, width), k)
      == Occurrences(Keys(es, origin, width), k) + (if BucketOf(e.time, origin, width) == k then 1 else 0)
  {
    assert Keys(es + [e], origin, width) == Keys(es, origin, width) + [BucketOf(e.time, origin, width)];
    OccurrencesSnoc(Keys(es, origin, width), BucketOf(e.time, origin, width), k);
  }

  // ---- count series --------------------------------------------------------

  /** A count-per-bucket chart: bucket start times and one count per bucket. */
  datatype CountChart = CountChart(segments: seq<int>, counts: seq<nat>)

  /** `series.resample(freq).size()`: rows per bucket over the series' own
      frame; an empty series gives an empty chart. */
  function WindowedCount(fs: seq<Event>, width: Width): (c: CountChart)
    ensures |c.segments| == |c.counts|
    ensures |fs| == 0 ==> c.counts == []
    ensures Sum(c.counts) == |fs|
    ensures |fs| > 0 ==> c.counts[0] > 0 && c.counts[|c.counts| - 1] > 0
    ensures |fs| > 0 ==> c.segments == Starts(FrameOf(fs, width), width)
  {
    if |fs| == 0 then CountChart([], [])
    else
      var f := FrameOf(fs, width);
      var ks := Keys(fs, f.origin, width);
      FrameCovers(fs, width);
      HistogramSum(ks, f.first, f.count);
      HistogramCell(ks, f.first, f.count, 0);
      HistogramCell(ks, f.first, f.count, f.count - 1);
      CountChart(Starts(f, width), Histogram(ks, f.first, f.count))
  }

  /** Cell `i` counts the rows that fall into the `i`-th bucket of the
      series' frame. */
  lemma WindowedCountCell(fs: seq<Event>, width: Width, i: nat)
    requires |fs| > 0 && i < FrameOf(fs, width).count
    ensures var f := FrameOf(fs, width);
      WindowedCount(fs, width).counts[i] == Occurrences(Keys(fs, f.origin, width), f.first + i)
  {
    var f := FrameOf(fs, width);
    HistogramCell(Keys(fs, f.origin, width), f.first, f.count, i);
  }

  /** `barrage_send_time_distribution` (default width 60 minutes): live
      comments per bucket of the comments' own frame. */
  function BarrageSendTimeDistribution(es: seq<Event>, width: Width): (c: CountChart)
    ensures |c.segments| == |c.counts|
    ensures Sum(c.counts) == |OfAction(es, Comment)|
    ensures |OfAction(es, Comment)| == 0 <==> c.counts == []
    ensures |OfAction(es, Comment)| > 0 ==> c.segments == Starts(FrameOf(OfAction(es, Comment), width), width)
  {
    WindowedCount(OfAction(es, Comment), width)
  }

  /** Cell `i` counts the live comments in the `i`-th bucket of the comments'
      frame. */
  lemma BarrageCell(es: seq<Event>, width: Width, i: nat)
    requires var cs := OfAction(es, Comment); |cs| > 0 && i < FrameOf(cs, width).count
    ensures var cs := OfAction(es, Comment); var f := FrameOf(cs, width);
      BarrageSendTimeDistribution(es, width).counts[i] == Occurrences(Keys(cs, f.origin, width), f.first + i)
  {
    WindowedCountCell(OfAction(es, Comment), width, i);
  }

  /** `item_purchase_frequency_distribution` (default width 10 minutes):
      purchases per bucket of the purchases' own frame. */
  function ItemPurchaseFrequencyDistribution(es: seq<Event>, width: Width): (c: CountChart)
    ensures |c.segments| == |c.counts|
    ensures Sum(c.counts) == |OfAction(es, Purchase)|
    ensures |OfAction(es, Purchase)| == 0 <==> c.counts == []
    ensures |OfAction(es, Purchase)| > 0 ==> c.segments == Starts(FrameOf(OfAction(es, Purchase), width), width)
  {
    WindowedCount(OfAction(es, Purchase), width)
  }

  /** Cell `i` counts the purchases in the `i`-th bucket of the purchases'
      frame. */
  lemma PurchaseCell(es: seq<Event>, width: Width, i: nat)
    requires var ps := OfAction(es, Purchase); |ps| > 0 && i < FrameOf(ps, width).count
    ensures var ps := OfAction(es, Purchase); var f := FrameOf(ps, width);
      ItemPurchaseFrequencyDistribution(es, width).counts[i] == Occurrences(Keys(ps, f.origin, width), f.first + i)
  {
    WindowedCountCell(OfAction(es, Purchase), width, i);
  }

  // ---- viewers and popularity ----------------------------------------------

  /** Row `i` is a row of user `u` that falls into bucket `k`. */
  predicate RowOfUserIn(es: seq<Event>, i: nat, u: string, origin: int, width: Width, k: int)
  {
    i < |es| && es[i].userId == u && BucketOf(es[i].time, origin, width) == k
  }

  /** Distinct users among the rows that fall into bucket `k`. */
  function BucketUsers(es: seq<Event>, origin: int, width: Width, k: int): set<string>
  {
    if |es| == 0 then {}
    else
      var r0 := BucketUsers(es[..|es| - 1], origin, width, k);
      if BucketOf(es[|es| - 1].time, origin, width) == k then r0 + {es[|es| - 1].userId} else r0
  }

  /** A user is among a bucket's users iff one of their rows falls into it. */
  lemma {:induction false} BucketUsersMembers(es: seq<Event>, origin: int, width: Width, k: int)
    ensures forall u :: u in BucketUsers(es, origin, width, k) <==> exists i: nat :: RowOfUserIn(es, i, u, origin, width, k)
  {
    if |es| > 0 {
      var init := es[..|es| - 1];
      BucketUsersMembers(init, origin, width, k);
      BucketUsersStep(es, init, origin, width, k, BucketUsers(init, origin, width, k), BucketUsers(es, origin, width, k));
    }
  }

  /** A bucket has no more distinct users than rows. */
  lemma {:induction false} BucketUsersBound(es: seq<Event>, origin: int, width: Width, k: int)
    ensures |BucketUsers(es, origin, width, k)| <= Occurrences(Keys(es, origin, width), k)
  {
    if |es| > 0 {
      var init := es[..|es| - 1];
      BucketUsersBound(init, origin, width, k);
      assert Keys(es, origin, width)[..|es| - 1] == Keys(init, origin, width);
    }
  }

  lemma BucketUsersStep(es: seq<Event>, init: seq<Event>, origin: int, width: Width, k: int, r0: set<string>, r: set<string>)
    requires |es| > 0 && init == es[..|es| - 1]
    requires forall u :: u in r0 <==> exists i: nat :: RowOfUserIn(init, i, u, origin, width, k)
    requires r == if BucketOf(es[|es| - 1].time, origin, width) == k then r0 + {es[|es| - 1].userId} else r0
    ensures forall u :: u in r <==> exists i: nat :: RowOfUserIn(es, i, u, origin, width, k)
  {
    forall u
      ensures u in r <==> exists i: nat :: RowOfUserIn(es, i, u, origin, width, k)
    {
      if u in r0 {
        var i: nat :| RowOfUserIn(init, i, u, origin, width, k);
        assert RowOfUserIn(es, i, u, origin, width, k);
      }
      if u in r && u !in r0 {
        assert RowOfUserIn(es, |es| - 1, u, origin, width, k);
      }
      if exists i: nat :: RowOfUserIn(es, i, u, origin, width, k) {
        var i: nat :| RowOfUserIn(es, i, u, origin, width, k);
        if i < |init| {
          assert RowOfUserIn(init, i, u, origin, width, k);
        }
      }
    }
  }

  /** A bucket has a user iff it has a row. */
  lemma BucketUsersEmpty(es: seq<Event>, origin: int, width: Width, k: int)
    ensures |BucketUsers(es, origin, width, k)| == 0 <==> Occurrences(Keys(es, origin, width), k) == 0
  {
    var ks := Keys(es, origin, width);
    var us := BucketUsers(es, origin, width, k);
    BucketUsersMembers(es, origin, width, k);
    OccurrencesPositive(ks, k);
    if k in ks {
      var i :| 0 <= i < |ks| && ks[i] == k;
      assert RowOfUserIn(es, i, es[i].userId, origin, width, k);
      assert es[i].userId in us;
    }
    if |us| > 0 {
      var u :| u in us;
      var i: nat :| RowOfUserIn(es, i, u, origin, width, k);
      assert ks[i] == k;
    }
  }

  /** Distinct users per bucket for the `n` buckets from `first` on
      (`resample(freq)['用户id'].nunique()`). */
  function Viewers(es: seq<Event>, origin: int, width: Width, first: int, n: nat): (v: seq<nat>)
    ensures |v| == n
  {
    if n == 0 then [] else Viewers(es, origin, width, first, n - 1) + [|BucketUsers(es, origin, width, first + n - 1)|]
  }

  /** Cell `i` holds the distinct users of bucket `first + i`. */
  lemma {:induction false} ViewersCell(es: seq<Event>, origin: int, width: Width, first: int, n: nat, i: nat)
    requires i < n
    ensures Viewers(es, origin, width, first, n)[i] == |BucketUsers(es, origin, width, first + i)|
  {
    if i < n - 1 {
      ViewersCell(es, origin, width, first, n - 1, i);
    }
  }

  /** Some live comment of the log falls into bucket `k`. */
  predicate CommentIn(es: seq<Event>, origin: int, width: Width, k: int)
  {
    exists j :: 0 <= j < |es| && es[j].action == Comment && BucketOf(es[j].time, origin, width) == k
  }

  /** Live comments per bucket of the frame. */
  function Popularity(es: seq<Event>, f: Frame, width: Width): (h: seq<nat>)
    ensures |h| == f.count
  {
    Histogram(Keys(OfAction(es, Comment), f.origin, width), f.first, f.count)
  }

  /** Every live comment is counted in some bucket of the log's frame. */
  lemma PopularitySum(es: seq<Event>, width: Width)
    requires |es| > 0
    ensures Sum(Popularity(es, FrameOf(es, width), width)) == |OfAction(es, Comment)|
  {
    var f := FrameOf(es, width);
    FilteredInFrame(es, {Comment}, width);
    HistogramSum(Keys(OfAction(es, Comment), f.origin, width), f.first, f.count);
  }

  /** A bucket counts a live comment iff one of the log's comments falls in it. */
  lemma CommentBucket(es: seq<Event>, origin: int, width: Width, k: int)
    ensures Occurrences(Keys(OfAction(es, Comment), origin, width), k) > 0 <==> CommentIn(es, origin, width, k)
  {
    var cs := OfAction(es, Comment);
    var ks := Keys(cs, origin, width);
    OccurrencesPositive(ks, k);
    if k in ks {
      var i :| 0 <= i < |ks| && ks[i] == k;
      assert cs[i] in cs;
      var j :| 0 <= j < |es| && es[j] == cs[i];
    }
    if CommentIn(es, origin, width, k) {
      var j :| 0 <= j < |es| && es[j].action == Comment && BucketOf(es[j].time, origin, width) == k;
      assert es[j] in cs;
      var i :| 0 <= i < |cs| && cs[i] == es[j];
      assert ks[i] == k;
    }
  }

  /** Bucket `i` of the frame counts exactly its live comments: 0 exactly
      when no live comment falls into it, and never more than the rows it
      holds. */
  lemma PopularityCell(es: seq<Event>, f: Frame, width: Width, i: nat)
    requires i < f.count
    ensures Popularity(es, f, width)[i] == Occurrences(Keys(OfAction(es, Comment), f.origin, width), f.first + i)
    ensures Popularity(es, f, width)[i] == 0 <==> !CommentIn(es, f.origin, width, f.first + i)
    ensures Popularity(es, f, width)[i] <= Occurrences(Keys(es, f.origin, width), f.first + i)
  {
    HistogramCell(Keys(OfAction(es, Comment), f.origin, width), f.first, f.count, i);
    FilteredBucketBound(es, {Comment}, f.origin, width, f.first + i);
    CommentBucket(es, f.origin, width, f.first + i);
  }

  /** The `直播人数` / `观看热度` chart. */
  datatype ViewerChart = ViewerChart(segments: seq<int>, viewers: seq<nat>, popularity: seq<nat>)

  /** The viewer chart over the buckets of frame `f`. */
  function FrameViewerChart(es: seq<Event>, f: Frame, width: Width): (c: ViewerChart)
    ensures |c.segments| == |c.viewers| == |c.popularity| == f.count
  {
    ViewerChart(Starts(f, width), Viewers(es, f.origin, width, f.first, f.count), Popularity(es, f, width))
  }

  /** `live_viewers_and_popularity` (default width 25 minutes): per bucket of
      the whole log, the number of distinct users and the number of live
      comments; buckets without comments report 0. */
  function LiveViewersAndPopularity(es: seq<Event>, width: Width): (c: ViewerChart)
    ensures |c.segments| == |c.viewers| == |c.popularity|
    ensures |es| == 0 ==> c.segments == []
    ensures Sum(c.popularity) == |OfAction(es, Comment)|
    ensures |es| > 0 ==> c.segments == Starts(FrameOf(es, width), width)
  {
    if |es| == 0 then ViewerChart([], [], [])
    else
      PopularitySum(es, width);
      FrameViewerChart(es, FrameOf(es, width), width)
  }

  /** Bucket `i` of the frame chart reports the distinct users of the
      frame's `i`-th bucket: no more than its rows, and 0 exactly when it has
      none. */
  lemma FrameViewersCell(es: seq<Event>, f: Frame, width: Width, i: nat)
    requires i < f.count
    ensures FrameViewerChart(es, f, width).viewers[i] == |BucketUsers(es, f.origin, width, f.first + i)|
    ensures FrameViewerChart(es, f, width).viewers[i] <= Occurrences(Keys(es, f.origin, width), f.first + i)
    ensures FrameViewerChart(es, f, width).viewers[i] == 0 <==> Occurrences(Keys(es, f.origin, width), f.first + i) == 0
  {
    ViewersCell(es, f.origin, width, f.first, f.count, i);
    BucketUsersBound(es, f.origin, width, f.first + i);
    BucketUsersEmpty(es, f.origin, width, f.first + i);
  }

  /** Bucket `i` of the chart reports the distinct users of the `i`-th bucket
      of the log's frame: no more than its rows, and 0 exactly when it has
      none. */
  lemma LiveViewersCell(es: seq<Event>, width: Width, i: nat)
    requires |es| > 0 && i < FrameOf(es, width).count
    ensures var c := LiveViewersAndPopularity(es, width); var f := FrameOf(es, width);
      var rows := Occurrences(Keys(es, f.origin, width), f.first + i);
      && c.viewers[i] == |BucketUsers(es, f.origin, width, f.first + i)|
      && c.viewers[i] <= rows
      && (c.viewers[i] == 0 <==> rows == 0)
  {
    var f := FrameOf(es, width);
    FrameViewersCell(es, f, width, i);
    assert LiveViewersAndPopularity(es, width) == FrameViewerChart(es, f, width);
  }

  /** Bucket `i` of the popularity series counts exactly the live comments in
      the `i`-th bucket of the log's frame: 0 when none falls there, and never
      more than the bucket's rows. */
  lemma LivePopularityCell(es: seq<Event>, width: Width, i: nat)
    requires |es| > 0 && i < FrameOf(es, width).count
    ensures var c := LiveViewersAndPopularity(es, width); var f := FrameOf(es, width);
      && c.popularity[i] == Occurrences(Keys(OfAction(es, Comment), f.origin, width), f.first + i)
      && (c.popularity[i] == 0 <==> !CommentIn(es, f.origin, width, f.first + i))
      && c.popularity[i] <= Occurrences(Keys(es, f.origin, width), f.first + i)
  {
    var f := FrameOf(es, width);
    PopularityCell(es, f, width, i);
    assert LiveViewersAndPopularity(es, width) == FrameViewerChart(es, f, width);
  }

  // ---- average stay time ---------------------------------------------------

  /** Index of the last row before `n` that belongs to user `u`. */
  function LastOfUserBefore(es: seq<Event>, u: string, n: nat): (r: Option<nat>)
    requires n <= |es|
    ensures r.None? <==> forall j :: 0 <= j < n ==> es[j].userId != u
    ensures r.Some? ==> r.value < n && es[r.value].userId == u
    ensures r.Some? ==> forall j :: r.value < j < n ==> es[j].userId != u
  {
    if n == 0 then None
    else if es[n - 1].userId == u then Some(n - 1)
    else LastOfUserBefore(es, u, n - 1)
  }

  /** Row `i` is the first row of its user. */
  predicate FirstOfUser(es: seq<Event>, i: nat)
    requires i < |es|
  {
    forall j :: 0 <= j < i ==> es[j].userId != es[i].userId
  }

  /** Row `j` is the row of the same user immediately preceding row `i` in log order. */
  predicate PreviousOfUser(es: seq<Event>, j: nat, i: nat)
    requires i < |es|
  {
    && j < i
    && es[j].userId == es[i].userId
    && forall k :: j < k < i ==> es[k].userId != es[i].userId
  }

  /** `groupby('用户id')['时间'].diff()` at row `i`: the time since the same
      user's previous row in log order; None for the user's first row. */
  function StayOf(es: seq<Event>, i: nat): Option<int>
    requires i < |es|
  {
    match LastOfUserBefore(es, es[i].userId, i)
    case None => None
    case Some(j) => Some(es[i].time - es[j].time)
  }

  /** A row has no stay value exactly when it is its user's first row, and
      otherwise its stay value is the time since the user's previous row. */
  lemma StayOfMeaning(es: seq<Event>, i: nat)
    requires i < |es|
    ensures StayOf(es, i).None? <==> FirstOfUser(es, i)
    ensures StayOf(es, i).Some? ==>
      exists j: nat :: PreviousOfUser(es, j, i) && StayOf(es, i).value == es[i].time - es[j].time
  {
    match LastOfUserBefore(es, es[i].userId, i)
    case None =>
    case Some(j) =>
      assert PreviousOfUser(es, j, i);
  }

  /** Row `i` falls into bucket `k` and contributes the stay value `x`. */
  predicate Contributes(es: seq<Event>, origin: int, width: Width, k: int, i: nat, x: int)
  {
    i < |es| && BucketOf(es[i].time, origin, width) == k && StayOf(es, i) == Some(x)
  }

  /** The stay values contributed by rows before `n` that fall into bucket `k`,
      in log order. */
  function StaysIn(es: seq<Event>, origin: int, width: Width, k: int, n: nat): seq<int>
    requires n <= |es|
  {
    if n == 0 then []
    else
      var vs0 := StaysIn(es, origin, width, k, n - 1);
      var s := StayOf(es, n - 1);
      if BucketOf(es[n - 1].time, origin, width) == k && s.Some? then vs0 + [s.value]
      else vs0
  }

  /** A value is among a bucket's stay values exactly when some row of the
      bucket contributes it. */
  lemma {:induction false} StaysInMembers(es: seq<Event>, origin: int, width: Width, k: int, n: nat)
    requires n <= |es|
    ensures forall x :: x in StaysIn(es, origin, width, k, n) <==>
      exists i: nat :: i < n && Contributes(es, origin, width, k, i, x)
  {
    if n > 0 {
      StaysInMembers(es, origin, width, k, n - 1);
      var s := StayOf(es, n - 1);
      if BucketOf(es[n - 1].time, origin, width) == k && s.Some? {
        assert Contributes(es, origin, width, k, n - 1, s.value);
      }
    }
  }

  /** The rows before `n` that fall into bucket `k` with the stay value `x`. */
  function Contributors(es: seq<Event>, origin: int, width: Width, k: int, n: nat, x: int): set<nat>
  {
    set i: nat | i < n && Contributes(es, origin, width, k, i, x)
  }

  /** Extending the prefix by one row adds that row to the contributors
      exactly when it contributes. */
  lemma ContributorsStep(es: seq<Event>, origin: int, width: Width, k: int, n: nat, x: int)
    requires 0 < n
    ensures |Contributors(es, origin, width, k, n, x)| ==
      |Contributors(es, origin, width, k, n - 1, x)| +
      (if Contributes(es, origin, width, k, n - 1, x) then 1 else 0)
  {
    var c0 := Contributors(es, origin, width, k, n - 1, x);
    ContributorsExtend(es, origin, width, k, n, x);
    if Contributes(es, origin, width, k, n - 1, x) {
      assert n - 1 !in c0;
      assert |c0 + {n - 1}| == |c0| + 1;
    }
  }

  lemma ContributorsExtend(es: seq<Event>, origin: int, width: Width, k: int, n: nat, x: int)
    requires 0 < n
    ensures Contributors(es, origin, width, k, n, x) ==
      Contributors(es, origin, width, k, n - 1, x) +
      (if Contributes(es, origin, width, k, n - 1, x) then {n - 1} else {})
  {
  }

  /** Extending the prefix by one row adds that row's stay value to the bucket
      exactly when the row contributes. */
  lemma StaysInStep(es: seq<Event>, origin: int, width: Width, k: int, n: nat, x: int)
    requires 0 < n <= |es|
    ensures Occurrences(StaysIn(es, origin, width, k, n), x) ==
      Occurrences(StaysIn(es, origin, width, k, n - 1), x) +
      (if Contributes(es, origin, width, k, n - 1, x) then 1 else 0)
  {
    var vs0 := StaysIn(es, origin, width, k, n - 1);
    var s := StayOf(es, n - 1);
    if BucketOf(es[n - 1].time, origin, width) == k && s.Some? {
      assert StaysIn(es, origin, width, k, n) == vs0 + [s.value];
      OccurrencesSnoc(vs0, s.value, x);
    } else {
      assert StaysIn(es, origin, width, k, n) == vs0;
    }
  }

  /** Each value occurs among a bucket's stay values exactly as often as rows
      of the bucket contribute it, so the bucket's mean is over all of them. */
  lemma {:induction false} StaysInCount(es: seq<Event>, origin: int, width: Width, k: int, n: nat, x: int)
    requires n <= |es|
    ensures Occurrences(StaysIn(es, origin, width, k, n), x) == |Contributors(es, origin, width, k, n, x)|
  {
    if n == 0 {
      assert Contributors(es, origin, width, k, n, x) == {};
    } else {
      StaysInCount(es, origin, width, k, n - 1, x);
      StaysInStep(es, origin, width, k, n, x);
      ContributorsStep(es, origin, width, k, n, x);
    }
  }

  /** Mean of the values, or the fill value 1 when there are none. */
  function MeanOrOne(vs: seq<int>): (m: real)
    ensures |vs| == 0 ==> m == 1.0
    ensures |vs| > 0 ==> m == Mean(vs).value
  {
    match Mean(vs)
    case None => 1.0
    case Some(m) => m
  }

  /** Mean stay value per bucket of the frame, 1 where a bucket has none. */
  function Means(es: seq<Event>, f: Frame, width: Width): (m: seq<real>)
    ensures |m| == f.count
  {
    seq(f.count, i => MeanOrOne(StaysIn(es, f.origin, width, f.first + i, |es|)))
  }

  lemma MeansCells(es: seq<Event>, f: Frame, width: Width)
    ensures forall i :: 0 <= i < f.count ==>
      var vs := StaysIn(es, f.origin, width, f.first + i, |es|);
      && (|vs| == 0 ==> Means(es, f, width)[i] == 1.0)
      && (|vs| > 0 ==> Means(es, f, width)[i] == (Sum(vs) as real) / (|vs| as real))
  {
    forall i | 0 <= i < f.count
      ensures var vs := StaysIn(es, f.origin, width, f.first + i, |es|);
        && (|vs| == 0 ==> Means(es, f, width)[i] == 1.0)
        && (|vs| > 0 ==> Means(es, f, width)[i] == (Sum(vs) as real) / (|vs| as real))
    {
      var vs := StaysIn(es, f.origin, width, f.first + i, |es|);
      assert Means(es, f, width)[i] == MeanOrOne(vs);
    }
  }

  /** The `平均停留时长` chart. */
  datatype StayChart = StayChart(segments: seq<int>, means: seq<real>)

  /** `user_average_stay_time`: per bucket of the whole log, the mean stay value
      of the rows in it; buckets with no stay value report 1. */
  function UserAverageStayTime(es: seq<Event>, width: Width): (c: StayChart)
    ensures |c.segments| == |c.means|
    ensures |es| == 0 ==> c.means == []
    ensures |es| > 0 ==> |c.means| == FrameOf(es, width).count
    ensures |es| > 0 ==> c.segments == Starts(FrameOf(es, width), width)
  {
    if |es| == 0 then StayChart([], [])
    else
      var f := FrameOf(es, width);
      StayChart(Starts(f, width), Means(es, f, width))
  }

  /** Bucket `i` of the chart reports exactly 1 when no row of the `i`-th
      bucket of the log's frame contributes a stay value, and the mean of the
      contributed values otherwise. */
  lemma UserAverageStayCells(es: seq<Event>, width: Width)
    requires |es| > 0
    ensures var f := FrameOf(es, width); var c := UserAverageStayTime(es, width);
      forall i :: 0 <= i < f.count ==>
        var vs := StaysIn(es, f.origin, width, f.first + i, |es|);
        && (|vs| == 0 ==> c.means[i] == 1.0)
        && (|vs| > 0 ==> c.means[i] == (Sum(vs) as real) / (|vs| as real))
  {
    var f := FrameOf(es, width);
    MeansCells(es, f, width);
    assert UserAverageStayTime(es, width).means == Means(es, f, width);
  }

  predicate TimeOrdered(es: seq<Event>)
  {
    forall i, j :: 0 <= i < j < |es| ==> es[i].time <= es[j].time
  }

  /** In a time-ordered log no stay value is negative. */
  lemma StayNonNegative(es: seq<Event>, i: nat)
    requires TimeOrdered(es) && i < |es|
    ensures StayOf(es, i).Some? ==> StayOf(es, i).value >= 0
  {
    StayOfMeaning(es, i);
  }

  lemma StaysNonNegative(es: seq<Event>, origin: int, width: Width, k: int)
    requires TimeOrdered(es)
    ensures var vs := StaysIn(es, origin, width, k, |es|);
      forall j :: 0 <= j < |vs| ==> vs[j] >= 0
  {
    var vs := StaysIn(es, origin, width, k, |es|);
    StaysInMembers(es, origin, width, k, |es|);
    forall j | 0 <= j < |vs|
      ensures vs[j] >= 0
    {
      assert vs[j] in vs;
      var i: nat :| i < |es| && Contributes(es, origin, width, k, i, vs[j]);
      StayNonNegative(es, i);
    }
  }

  /** The stay values are differences in log order, not in time order: a log
      sorted by time gives non-negative bucket means, while an unsorted one
      can give negative ones (see `UnsortedStayNegative`). */
  lemma OrderedStaysNonNegative(es: seq<Event>, width: Width)
    requires TimeOrdered(es)
    ensures forall i :: 0 <= i < |UserAverageStayTime(es, width).means| ==>
      UserAverageStayTime(es, width).means[i] >= 0.0
  {
    if |es| > 0 {
      var f := FrameOf(es, width);
      StayChartMeans(es, width);
      forall i | 0 <= i < f.count
        ensures Means(es, f, width)[i] >= 0.0
      {
        MeansCellNonNegative(es, f, width, i);
      }
    }
  }

  lemma MeansCellNonNegative(es: seq<Event>, f: Frame, width: Width, i: nat)
    requires TimeOrdered(es) && i < f.count
    ensures Means(es, f, width)[i] >= 0.0
  {
    MeansCell(es, f, width, i);
    StaysMeanNonNegative(es, f.origin, width, f.first + i);
  }

  lemma StayChartMeans(es: seq<Event>, width: Width)
    requires |es| > 0
    ensures UserAverageStayTime(es, width).means == Means(es, FrameOf(es, width), width)
  {
  }

  lemma MeansCell(es: seq<Event>, f: Frame, width: Width, i: nat)
    requires i < f.count
    ensures Means(es, f, width)[i] == MeanOrOne(StaysIn(es, f.origin, width, f.first + i, |es|))
  {
  }

  lemma StaysMeanNonNegative(es: seq<Event>, origin: int, width: Width, k: int)
    requires TimeOrdered(es)
    ensures MeanOrOne(StaysIn(es, origin, width, k, |es|)) >= 0.0
  {
    var vs := StaysIn(es, origin, width, k, |es|);
    if |vs| > 0 {
      StaysNonNegative(es, origin, width, k);
      MeanNonNegative(vs);
    }
  }

  /** A user whose later row comes first in the log stays a negative time:
      rows at 10 s and then 5 s give the bucket mean -5. */
  lemma UnsortedStayNegative()
    ensures var es := [Event(Comment, 0, 10, "u", ""), Event(Comment, 0, 5, "u", "")];
      UserAverageStayTime(es, 3600).means == [-5.0]
  {
    var es := [Event(Comment, 0, 10, "u", ""), Event(Comment, 0, 5, "u", "")];
    assert es[..1] == [es[0]];
    assert MinTime(es) == 5 && MaxTime(es) == 10;
    var f := FrameOf(es, 3600);
    assert f == Frame(0, 0, 1);
    assert StayOf(es, 0) == None;
    assert LastOfUserBefore(es, "u", 1) == Some(0);
    assert StayOf(es, 1) == Some(-5);
    assert StaysIn(es, 0, 3600, 0, 1) == [];
    assert StaysIn(es, 0, 3600, 0, 2) == [-5];
    assert Mean([-5]) == Some(-5.0);
    MeansCell(es, f, 3600, 0);
  }
}
