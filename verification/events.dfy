/** The parsed event log. One `Event` is one row of a broadcast's CSV file:
    action label, epoch milliseconds, the human-readable time (here integer
    seconds on the local clock), user id and message. */
module Events {
  import opened Counting

  datatype Event = Event(action: string, timestampMs: int, time: int, userId: string, message: string)

  // The action labels the reports look for, exactly as they appear in the log.
  const Comment: string := "【实时弹幕】"
  const Follow: string := "【用户关注】"
  const AnchorPushItem: string := "【主播推送商品】"
  const AnchorComment: string := "【主播弹幕】"
  const Purchase: string := "【用户正在购买】"
  const AddToCart: string := "【用户加入购物车】"
  const EnterShop: string := "【用户进入店铺】"
  const LectureStart: string := "【主播开始讲解】"
  const LectureEnd: string := "【主播结束讲解】"

  /** The rows whose action is one of `actions`, in log order (a boolean mask). */
  function OfActions(es: seq<Event>, actions: set<string>): (r: seq<Event>)
    ensures |r| <= |es|
    ensures forall e :: e in r <==> e in es && e.action in actions
  {
    if |es| == 0 then []
    else
      var init := es[..|es| - 1];
      assert es == init + [es[|es| - 1]];
      OfActions(init, actions) + (if es[|es| - 1].action in actions then [es[|es| - 1]] else [])
  }

  lemma OfActionsSnoc(es: seq<Event>, e: Event, actions: set<string>)
    ensures e.action in actions ==> OfActions(es + [e], actions) == OfActions(es, actions) + [e]
    ensures e.action !in actions ==> OfActions(es + [e], actions) == OfActions(es, actions)
  {
    assert (es + [e])[..|es|] == es;
    assert OfActions(es, actions) + [] == OfActions(es, actions);
  }

  /** Filtering keeps each matching row as often as the log holds it and drops
      every other row. */
  lemma {:induction false} OfActionsOccurrences(es: seq<Event>, actions: set<string>, e: Event)
    ensures Occurrences(OfActions(es, actions), e) == (if e.action in actions then Occurrences(es, e) else 0)
  {
    if |es| > 0 {
      var init := es[..|es| - 1];
      var last := es[|es| - 1];
      assert es == init + [last];
      OfActionsOccurrences(init, actions, e);
      OfActionsSnoc(init, last, actions);
      OccurrencesSnoc(init, last, e);
      if last.action in actions {
        OccurrencesSnoc(OfActions(init, actions), last, e);
      }
    }
  }

  /** A one-row log is kept whole or dropped whole. */
  lemma OfActionsSingle(e: Event, actions: set<string>)
    ensures OfActions([e], actions) == (if e.action in actions then [e] else [])
  {
    OfActionsSnoc([], e, actions);
    assert [] + [e] == [e];
  }

  /** Filtering two logs one after the other is filtering each: with
      `OfActionsSingle` this pins the kept rows and their log order. */
  lemma {:induction false} OfActionsAppend(a: seq<Event>, b: seq<Event>, actions: set<string>)
    ensures OfActions(a + b, actions) == OfActions(a, actions) + OfActions(b, actions)
    decreases |b|
  {
    if |b| == 0 {
      assert a + b == a;
      assert OfActions(a, actions) + [] == OfActions(a, actions);
    } else {
      var b0 := b[..|b| - 1];
      var x := b[|b| - 1];
      assert b == b0 + [x];
      assert a + b == (a + b0) + [x];
      var tail := if x.action in actions then [x] else [];
      calc {
        OfActions(a + b, actions);
        { OfActionsSnoc(a + b0, x, actions); }
        OfActions(a + b0, actions) + tail;
        { OfActionsAppend(a, b0, actions); }
        (OfActions(a, actions) + OfActions(b0, actions)) + tail;
        OfActions(a, actions) + (OfActions(b0, actions) + tail);
        { OfActionsSnoc(b0, x, actions); }
        OfActions(a, actions) + OfActions(b, actions);
      }
    }
  }

  /** Filtering on two distinct labels keeps as many rows as the action column
      holds of either. */
  lemma {:induction false} OfActionsPairCount(es: seq<Event>, a: string, b: string)
    requires a != b
    ensures |OfActions(es, {a, b})| == Occurrences(Actions(es), a) + Occurrences(Actions(es), b)
  {
    if |es| > 0 {
      var init := es[..|es| - 1];
      var last := es[|es| - 1];
      assert es == init + [last];
      OfActionsPairCount(init, a, b);
      OfActionsSnoc(init, last, {a, b});
      assert Actions(es) == Actions(init) + [last.action];
      OccurrencesSnoc(Actions(init), last.action, a);
      OccurrencesSnoc(Actions(init), last.action, b);
    }
  }

  function OfAction(es: seq<Event>, action: string): seq<Event>
  {
    OfActions(es, {action})
  }

  function Actions(es: seq<Event>): (r: seq<string>)
    ensures |r| == |es|
  {
    seq(|es|, i requires 0 <= i < |es| => es[i].action)
  }

  function Messages(es: seq<Event>): (r: seq<string>)
    ensures |r| == |es|
  {
    seq(|es|, i requires 0 <= i < |es| => es[i].message)
  }

  function Times(es: seq<Event>): (r: seq<int>)
    ensures |r| == |es|
  {
    seq(|es|, i requires 0 <= i < |es| => es[i].time)
  }

  function Stamps(es: seq<Event>): (r: seq<int>)
    ensures |r| == |es|
  {
    seq(|es|, i requires 0 <= i < |es| => es[i].timestampMs)
  }

  /** Filtering on one action keeps exactly as many rows as the action column
      holds that label. */
  lemma {:induction false} OfActionCount(es: seq<Event>, action: string)
    ensures |OfAction(es, action)| == Occurrences(Actions(es), action)
  {
    if |es| > 0 {
      var init := es[..|es| - 1];
      OfActionCount(init, action);
      assert Actions(es)[..|es| - 1] == Actions(init);
    }
  }

  /** Earliest time in the log (`df['时间'].min()`). */
  function MinTime(es: seq<Event>): (m: int)
    requires |es| > 0
    ensures forall i :: 0 <= i < |es| ==> m <= es[i].time
    ensures exists i :: 0 <= i < |es| && es[i].time == m
  {
    if |es| == 1 then es[0].time
    else
      var m := MinTime(es[..|es| - 1]);
      if es[|es| - 1].time < m then es[|es| - 1].time else m
  }

  /** Latest time in the log (`df['时间'].max()`). */
  function MaxTime(es: seq<Event>): (m: int)
    requires |es| > 0
    ensures forall i :: 0 <= i < |es| ==> es[i].time <= m
    ensures exists i :: 0 <= i < |es| && es[i].time == m
  {
    if |es| == 1 then es[0].time
    else
      var m := MaxTime(es[..|es| - 1]);
      if es[|es| - 1].time > m then es[|es| - 1].time else m
  }

  /** Distinct user ids of the rows (`['用户id'].nunique()` takes its size). */
  function Users(es: seq<Event>): (r: set<string>)
    ensures forall u :: u in r <==> exists i :: 0 <= i < |es| && es[i].userId == u
    ensures |r| <= |es|
  {
    if |es| == 0 then {}
    else
      var init := es[..|es| - 1];
      var last := es[|es| - 1];
      var r := Users(init) + {last.userId};
      assert forall u :: u in r <==> exists i :: 0 <= i < |es| && es[i].userId == u by {
        forall u
          ensures u in r <==> exists i :: 0 <= i < |es| && es[i].userId == u
        {
          if u in Users(init) {
            var i :| 0 <= i < |init| && init[i].userId == u;
            assert es[i].userId == u;
          }
          if exists i :: 0 <= i < |es| && es[i].userId == u {
            var i :| 0 <= i < |es| && es[i].userId == u;
            if i < |init| {
              assert init[i].userId == u;
            }
          }
        }
      }
      r
  }

  /** Every user among the rows of a narrower action set is also among the
      rows of a wider one. */
  lemma UsersMonotone(es: seq<Event>, narrow: set<string>, wide: set<string>)
    requires narrow <= wide
    ensures Users(OfActions(es, narrow)) <= Users(OfActions(es, wide))
  {
    var n := OfActions(es, narrow);
    var w := OfActions(es, wide);
    forall u | u in Users(n)
      ensures u in Users(w)
    {
      var i :| 0 <= i < |n| && n[i].userId == u;
      assert n[i] in n;
      assert n[i] in w;
      var j :| 0 <= j < |w| && w[j] == n[i];
    }
  }
}
