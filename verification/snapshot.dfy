/** `get_basic_data`: the scalar figures shown above the charts. */
module Snapshot {
  import opened Wrappers
  import opened Counting
  import opened Events

  /** The actions that count a user as online. */
  const OnlineActions: set<string> := {Purchase, Comment, AddToCart, EnterShop, Follow}

  /** `购买人数`, `购买次数`, `平均讲解时长` (minutes, absent when either lecture
      marker is missing), `加入购物车人数`, `在线人数`. */
  datatype BasicData = BasicData(
    purchasers: nat,
    purchases: nat,
    lectureMinutes: Option<real>,
    cartUsers: nat,
    onlineUsers: nat)

  /** Mean lecture end stamp minus mean lecture start stamp, in minutes. */
  function LectureMinutes(es: seq<Event>): (r: Option<real>)
    ensures r.None? <==> |OfAction(es, LectureStart)| == 0 || |OfAction(es, LectureEnd)| == 0
    ensures r.Some? ==>
      r.value * 60000.0 == Mean(Stamps(OfAction(es, LectureEnd))).value - Mean(Stamps(OfAction(es, LectureStart))).value
  {
    var starts := Mean(Stamps(OfAction(es, LectureStart)));
    var ends := Mean(Stamps(OfAction(es, LectureEnd)));
    if starts.None? || ends.None? then None else Some((ends.value - starts.value) / 1000.0 / 60.0)
  }

  /** When no lecture ends before any lecture starts, the mean lecture
      duration is not negative. */
  lemma LectureNonNegative(es: seq<Event>)
    requires LectureMinutes(es).Some?
    requires forall i, j :: 0 <= i < |OfAction(es, LectureStart)| && 0 <= j < |OfAction(es, LectureEnd)| ==>
      OfAction(es, LectureStart)[i].timestampMs <= OfAction(es, LectureEnd)[j].timestampMs
    ensures LectureMinutes(es).value >= 0.0
  {
    var s := Stamps(OfAction(es, LectureStart));
    var e := Stamps(OfAction(es, LectureEnd));
    var top := SeqMax(s);
    var k :| 0 <= k < |s| && s[k] == top;
    assert forall j :: 0 <= j < |e| ==> top <= e[j];
    MeanBetween(s, SeqMin(s), top);
    MeanBetween(e, top, SeqMax(e));
  }

  lemma SubsetCardinality(a: set<string>, b: set<string>)
    requires a <= b
    ensures |a| <= |b|
  {
    assert b == a + (b - a);
  }

  /** `get_basic_data`. */
  function BasicDataOf(es: seq<Event>): (d: BasicData)
    ensures d.purchases == Occurrences(Actions(es), Purchase)
    ensures d.purchasers == |Users(OfAction(es, Purchase))| <= d.purchases
    ensures d.cartUsers == |Users(OfAction(es, AddToCart))|
    ensures d.onlineUsers == |Users(OfActions(es, OnlineActions))| <= |es|
    ensures d.purchasers <= d.onlineUsers && d.cartUsers <= d.onlineUsers
    ensures d.lectureMinutes == LectureMinutes(es)
  {
    var purchasers := Users(OfAction(es, Purchase));
    var cart := Users(OfAction(es, AddToCart));
    var online := Users(OfActions(es, OnlineActions));
    OfActionCount(es, Purchase);
    UsersMonotone(es, {Purchase}, OnlineActions);
    UsersMonotone(es, {AddToCart}, OnlineActions);
    SubsetCardinality(purchasers, online);
    SubsetCardinality(cart, online);
    BasicData(|purchasers|, |OfAction(es, Purchase)|, LectureMinutes(es), |cart|, |online|)
  }
}
