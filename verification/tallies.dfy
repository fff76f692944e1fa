/** Frequency reports: per-value tallies of one column (`value_counts`), the
    top-N purchased items and the word cloud over live comments. A tally is a
    list of (value, count) rows with distinct values. */
module Tallies {
  import opened Wrappers
  import opened Counting
  import opened Events
  import opened Text

  predicate HasKey(t: seq<(string, nat)>, v: string)
  {
    exists i :: 0 <= i < |t| && t[i].0 == v
  }

  predicate DistinctKeys(t: seq<(string, nat)>)
  {
    forall i, j :: 0 <= i < j < |t| ==> t[i].0 != t[j].0
  }

  /** `t` is exactly the tally of `xs`: one row per distinct value, carrying
      that value's number of occurrences. */
  ghost predicate TallyOf(t: seq<(string, nat)>, xs: seq<string>)
  {
    && DistinctKeys(t)
    && (forall i :: 0 <= i < |t| ==> t[i].1 == Occurrences(xs, t[i].0))
    && (forall v :: HasKey(t, v) <==> v in xs)
  }

  function SumCounts(t: seq<(string, nat)>): nat
  {
    if |t| == 0 then 0 else t[0].1 + SumCounts(t[1..])
  }

  /** Count one more occurrence of `v`: its row is incremented in place, or a
      new row is appended when `v` has not been seen yet. */
  function Bump(t: seq<(string, nat)>, v: string): seq<(string, nat)>
  {
    if |t| == 0 then [(v, 1)]
    else if t[0].0 == v then [(v, t[0].1 + 1)] + t[1..]
    else [t[0]] + Bump(t[1..], v)
  }

  /** An existing row of `v` goes up by one and nothing else changes;
      otherwise `(v, 1)` is appended. Keys stay distinct and the total grows
      by one. */
  lemma {:induction false} BumpShape(t: seq<(string, nat)>, v: string)
    requires DistinctKeys(t)
    ensures DistinctKeys(Bump(t, v))
    ensures SumCounts(Bump(t, v)) == SumCounts(t) + 1
    ensures HasKey(t, v) ==> |Bump(t, v)| == |t| && forall i :: 0 <= i < |t| ==>
      Bump(t, v)[i].0 == t[i].0 && Bump(t, v)[i].1 == t[i].1 + (if t[i].0 == v then 1 else 0)
    ensures !HasKey(t, v) ==> Bump(t, v) == t + [(v, 1)]
  {
    if |t| == 0 {
    } else if t[0].0 == v {
      ConsRow((v, t[0].1 + 1), t[1..]);
      assert HasKey(t, v);
    } else {
      HasKeyTail(t, v);
      var rest := Bump(t[1..], v);
      BumpShape(t[1..], v);
      forall j | 0 <= j < |rest|
        ensures rest[j].0 != t[0].0
      {
        if j < |t| - 1 {
          assert rest[j].0 == t[j + 1].0;
        }
      }
      ConsRow(t[0], rest);
      if !HasKey(t, v) {
        assert [t[0]] + (t[1..] + [(v, 1)]) == t + [(v, 1)];
      }
    }
  }

  /** Putting a row in front of a tally. */
  lemma ConsRow(h: (string, nat), rest: seq<(string, nat)>)
    ensures SumCounts([h] + rest) == h.1 + SumCounts(rest)
    ensures DistinctKeys(rest) && (forall j :: 0 <= j < |rest| ==> rest[j].0 != h.0) ==> DistinctKeys([h] + rest)
    ensures forall i :: 0 < i <= |rest| ==> ([h] + rest)[i] == rest[i - 1]
  {
    assert ([h] + rest)[1..] == rest;
  }

  lemma HasKeyTail(t: seq<(string, nat)>, v: string)
    requires |t| > 0 && t[0].0 != v
    ensures HasKey(t, v) <==> HasKey(t[1..], v)
  {
    if HasKey(t, v) {
      var i :| 0 <= i < |t| && t[i].0 == v;
      assert t[1..][i - 1].0 == v;
    }
    if HasKey(t[1..], v) {
      var i :| 0 <= i < |t[1..]| && t[1..][i].0 == v;
      assert t[i + 1].0 == v;
    }
  }

  lemma BumpTally(t: seq<(string, nat)>, xs: seq<string>, v: string)
    requires TallyOf(t, xs)
    ensures TallyOf(Bump(t, v), xs + [v])
  {
    BumpShape(t, v);
    BumpCounts(t, xs, v);
    BumpKeys(t, xs, v);
  }

  lemma BumpCounts(t: seq<(string, nat)>, xs: seq<string>, v: string)
    requires TallyOf(t, xs)
    ensures var r := Bump(t, v);
      forall i :: 0 <= i < |r| ==> r[i].1 == Occurrences(xs + [v], r[i].0)
  {
    var r := Bump(t, v);
    BumpShape(t, v);
    forall i | 0 <= i < |r|
      ensures r[i].1 == Occurrences(xs + [v], r[i].0)
    {
      OccurrencesSnoc(xs, v, r[i].0);
      if i == |t| {
        OccurrencesPositive(xs, v);
      }
    }
  }

  lemma BumpKeys(t: seq<(string, nat)>, xs: seq<string>, v: string)
    requires TallyOf(t, xs)
    ensures var r := Bump(t, v);
      forall w :: HasKey(r, w) <==> w in xs + [v]
  {
    forall w
      ensures HasKey(Bump(t, v), w) <==> w in xs + [v]
    {
      BumpKey(t, xs, v, w);
    }
  }

  lemma BumpKey(t: seq<(string, nat)>, xs: seq<string>, v: string, w: string)
    requires TallyOf(t, xs)
    ensures HasKey(Bump(t, v), w) <==> w in xs + [v]
  {
    var r := Bump(t, v);
    BumpShape(t, v);
    assert w in xs + [v] <==> w in xs || w == v;
    if HasKey(t, v) {
      if HasKey(r, w) {
        var i :| 0 <= i < |r| && r[i].0 == w;
        assert t[i].0 == w;
      }
      if w in xs || w == v {
        var i :| 0 <= i < |t| && t[i].0 == w;
        assert r[i].0 == w;
      }
    } else {
      assert r == t + [(v, 1)];
      if HasKey(r, w) {
        var i :| 0 <= i < |r| && r[i].0 == w;
        if i < |t| {
          assert t[i].0 == w;
        }
      }
      if w in xs {
        var i :| 0 <= i < |t| && t[i].0 == w;
        assert r[i].0 == w;
      }
      if w == v {
        assert r[|t|].0 == w;
      }
    }
  }

  /** The tally of a column in first-seen order: `value_counts` before sorting,
      and the `word_freq` dictionary of the word cloud. */
  function Tally(xs: seq<string>): (t: seq<(string, nat)>)
    ensures TallyOf(t, xs)
    ensures SumCounts(t) == |xs|
  {
    if |xs| == 0 then []
    else
      var init := xs[..|xs| - 1];
      var v := xs[|xs| - 1];
      var t0 := Tally(init);
      assert xs == init + [v];
      BumpTally(t0, init, v);
      BumpShape(t0, v);
      Bump(t0, v)
  }

  predicate SortedByCount(t: seq<(string, nat)>)
  {
    forall i, j :: 0 <= i < j < |t| ==> t[i].1 >= t[j].1
  }

  /** Place `p` in front of the first row whose count is not larger. */
  function Insert(p: (string, nat), s: seq<(string, nat)>): (r: seq<(string, nat)>)
    ensures multiset(r) == multiset(s) + multiset{p}
    ensures forall x :: x in r <==> x in s || x == p
    ensures SumCounts(r) == p.1 + SumCounts(s)
  {
    if |s| == 0 || p.1 >= s[0].1 then [p] + s
    else
      assert s == [s[0]] + s[1..];
      [s[0]] + Insert(p, s[1..])
  }

  lemma {:induction false} InsertSorted(p: (string, nat), s: seq<(string, nat)>)
    requires SortedByCount(s)
    ensures SortedByCount(Insert(p, s))
  {
    if |s| > 0 && p.1 < s[0].1 {
      var rest := Insert(p, s[1..]);
      InsertSorted(p, s[1..]);
      forall j | 0 <= j < |rest|
        ensures s[0].1 >= rest[j].1
      {
        assert rest[j] in rest;
        if rest[j] != p {
          var k :| 0 <= k < |s[1..]| && s[1..][k] == rest[j];
          assert s[k + 1] == rest[j];
        }
      }
    }
  }

  lemma {:induction false} InsertDistinct(p: (string, nat), s: seq<(string, nat)>)
    requires DistinctKeys(s)
    requires forall x :: x in s ==> x.0 != p.0
    ensures DistinctKeys(Insert(p, s))
  {
    if |s| > 0 && p.1 < s[0].1 {
      var rest := Insert(p, s[1..]);
      InsertDistinct(p, s[1..]);
      forall j | 0 <= j < |rest|
        ensures s[0].0 != rest[j].0
      {
        assert rest[j] in rest;
        if rest[j] != p {
          var k :| 0 <= k < |s[1..]| && s[1..][k] == rest[j];
          assert s[k + 1] == rest[j];
        } else {
          assert s[0] in s;
        }
      }
    }
  }

  /** Sort rows by count, largest first; rows with equal counts keep their
      relative order (`sort_values(ascending=False)`). */
  function SortByCount(t: seq<(string, nat)>): (r: seq<(string, nat)>)
    ensures multiset(r) == multiset(t)
    ensures SumCounts(r) == SumCounts(t)
  {
    if |t| == 0 then []
    else
      assert t == [t[0]] + t[1..];
      Insert(t[0], SortByCount(t[1..]))
  }

  /** Sorting yields rows ordered by count, and keeps the values distinct. */
  lemma {:induction false} SortByCountOrders(t: seq<(string, nat)>)
    ensures SortedByCount(SortByCount(t))
    ensures DistinctKeys(t) ==> DistinctKeys(SortByCount(t))
  {
    if |t| > 0 {
      var rest := SortByCount(t[1..]);
      SortByCountOrders(t[1..]);
      InsertSorted(t[0], rest);
      if DistinctKeys(t) {
        forall x | x in rest
          ensures x.0 != t[0].0
        {
          assert x in multiset(t[1..]);
          var j :| 0 <= j < |t[1..]| && t[1..][j] == x;
          assert t[j + 1] == x;
        }
        InsertDistinct(t[0], rest);
      }
    }
  }

  /** A list that is already sorted by count is left as it is. */
  lemma {:induction false} SortByCountSorted(t: seq<(string, nat)>)
    requires SortedByCount(t)
    ensures SortByCount(t) == t
  {
    if |t| > 0 {
      assert SortedByCount(t[1..]);
      SortByCountSorted(t[1..]);
    }
  }

  /** Rearranging the rows of a tally leaves it a tally of the same column. */
  lemma PermutedTally(t: seq<(string, nat)>, r: seq<(string, nat)>, xs: seq<string>)
    requires TallyOf(t, xs)
    requires DistinctKeys(r)
    requires multiset(r) == multiset(t)
    ensures TallyOf(r, xs)
  {
    forall i | 0 <= i < |r|
      ensures r[i].1 == Occurrences(xs, r[i].0)
    {
      assert r[i] in multiset(t);
      var j :| 0 <= j < |t| && t[j] == r[i];
    }
    forall v
      ensures HasKey(r, v) <==> HasKey(t, v)
    {
      if HasKey(r, v) {
        var i :| 0 <= i < |r| && r[i].0 == v;
        assert r[i] in multiset(t);
        var j :| 0 <= j < |t| && t[j] == r[i];
      }
      if HasKey(t, v) {
        var i :| 0 <= i < |t| && t[i].0 == v;
        assert t[i] in multiset(r);
        var j :| 0 <= j < |r| && r[j] == t[i];
      }
    }
  }

  /** `Series.value_counts()`: the tally sorted by count, largest first. */
  function ValueCounts(xs: seq<string>): (r: seq<(string, nat)>)
    ensures TallyOf(r, xs)
    ensures SortedByCount(r)
    ensures SumCounts(r) == |xs|
  {
    var t := Tally(xs);
    var r := SortByCount(t);
    SortByCountOrders(t);
    PermutedTally(t, r, xs);
    r
  }

  /** `user_behavior_counts`: how often each action label occurs. */
  function UserBehaviorCounts(es: seq<Event>): (r: seq<(string, nat)>)
    ensures TallyOf(r, Actions(es))
    ensures SumCounts(r) == |es|
  {
    ValueCounts(Actions(es))
  }

  /** `user_message_counts`: how often each message text occurs. */
  function UserMessageCounts(es: seq<Event>): (r: seq<(string, nat)>)
    ensures TallyOf(r, Messages(es))
    ensures SumCounts(r) == |es|
  {
    ValueCounts(Messages(es))
  }

  /** `Series.head(n)`: the first `n` rows, or all but the last `-n` rows when
      `n` is negative. */
  function Head<T>(t: seq<T>, n: int): (r: seq<T>)
    ensures |r| <= |t| && r == t[..|r|]
    ensures 0 <= n ==> |r| == if n < |t| then n else |t|
    ensures n < 0 ==> |r| == if -n < |t| then |t| + n else 0
  {
    if 0 <= n then (if n < |t| then t[..n] else t)
    else (if -n < |t| then t[..|t| + n] else [])
  }

  /** The purchased item names, one per purchase row. */
  function PurchasedItems(es: seq<Event>): seq<string>
  {
    Messages(OfAction(es, Purchase))
  }

  /** Every leading run of a sorted tally is again sorted, has distinct values,
      and carries each value's full number of occurrences. */
  lemma TallyPrefix(t: seq<(string, nat)>, xs: seq<string>, k: nat)
    requires TallyOf(t, xs) && SortedByCount(t)
    requires k <= |t|
    ensures SortedByCount(t[..k]) && DistinctKeys(t[..k])
    ensures forall i :: 0 <= i < k ==> t[..k][i].1 == Occurrences(xs, t[i].0) && t[i].1 > 0
  {
    forall i | 0 <= i < k
      ensures t[i].1 > 0
    {
      assert HasKey(t, t[i].0);
      OccurrencesPositive(xs, t[i].0);
    }
  }

  /** Keep the first `topN` rows, or all of them when `topN` is None. */
  function Top(t: seq<(string, nat)>, topN: Option<int>): (r: seq<(string, nat)>)
    ensures |r| <= |t| && r == t[..|r|]
    ensures topN.Some? && 0 <= topN.value ==> |r| == if topN.value < |t| then topN.value else |t|
    ensures topN.Some? && topN.value < 0 ==> |r| == if -topN.value < |t| then |t| + topN.value else 0
    ensures topN.None? ==> r == t
  {
    match topN
    case None => t
    case Some(n) => Head(t, n)
  }

  lemma TopOfTally(t: seq<(string, nat)>, xs: seq<string>, topN: Option<int>)
    requires TallyOf(t, xs) && SortedByCount(t)
    ensures var r := Top(t, topN);
      && SortedByCount(r) && DistinctKeys(r)
      && (forall i :: 0 <= i < |r| ==> r[i].1 == Occurrences(xs, r[i].0) && r[i].1 > 0)
      && (topN.None? ==> forall m :: HasKey(r, m) <==> m in xs)
  {
    var r := Top(t, topN);
    TallyPrefix(t, xs, |r|);
  }

  /** `item_purchase_distribution`: purchase counts per item, largest first,
      cut to the first `topN` rows unless `topN` is None. */
  function ItemPurchaseDistribution(es: seq<Event>, topN: Option<int>): (r: seq<(string, nat)>)
    ensures SortedByCount(r)
    ensures DistinctKeys(r)
    ensures forall i :: 0 <= i < |r| ==> r[i].1 == Occurrences(PurchasedItems(es), r[i].0) && r[i].1 > 0
    ensures |r| <= |ValueCounts(PurchasedItems(es))|
    ensures r == ValueCounts(PurchasedItems(es))[..|r|]
    ensures var n := |ValueCounts(PurchasedItems(es))|;
      topN.Some? && 0 <= topN.value ==> |r| == if topN.value < n then topN.value else n
    ensures var n := |ValueCounts(PurchasedItems(es))|;
      topN.Some? && topN.value < 0 ==> |r| == if -topN.value < n then n + topN.value else 0
    ensures topN.None? ==> forall m :: HasKey(r, m) <==> m in PurchasedItems(es)
  {
    var items := PurchasedItems(es);
    var counts := ValueCounts(items);
    SortByCountSorted(counts);
    TopOfTally(counts, items, topN);
    Top(SortByCount(counts), topN)
  }

  /** One purchase of one item under the default limit of 8 gives that item
      with count 1. */
  lemma SinglePurchaseDistribution()
    ensures ItemPurchaseDistribution([Event(Purchase, 0, 0, "u", "itemA")], Some(8)) == [("itemA", 1)]
  {
    var es := [Event(Purchase, 0, 0, "u", "itemA")];
    var row := ("itemA", 1);
    assert OfAction(es, Purchase) == es by {
      OfActionsSingle(es[0], {Purchase});
    }
    assert PurchasedItems(es) == ["itemA"];
    assert ["itemA"][..0] == [];
    assert Tally(["itemA"]) == [row];
    assert SortByCount([row]) == [row];
    assert ValueCounts(["itemA"]) == [row];
    assert SortByCount(ValueCounts(["itemA"])) == [row];
  }

  // ---- word cloud ----------------------------------------------------------

  /** Python's `str.isspace`: the characters `str.split()` splits on. */
  predicate IsSpace(c: char)
  {
    || c in {'\t', '\n', '\U{000B}', '\U{000C}', '\r', '\U{001C}', '\U{001D}', '\U{001E}', '\U{001F}', ' '}
    || c in {'\U{0085}', '\U{00A0}', '\U{1680}', '\U{2028}', '\U{2029}', '\U{202F}', '\U{205F}', '\U{3000}'}
    || ('\U{2000}' <= c <= '\U{200A}')
  }

  /** A token `str.split()` can produce: non-empty, free of whitespace. */
  predicate IsWord(w: string)
  {
    |w| > 0 && forall k :: 0 <= k < |w| ==> !IsSpace(w[k])
  }

  /** The characters of `s` that are not whitespace, in order. */
  function NonSpace(s: string): string
  {
    if |s| == 0 then ""
    else (if IsSpace(s[0]) then "" else [s[0]]) + NonSpace(s[1..])
  }

  function Concat(ws: seq<string>): string
  {
    if |ws| == 0 then "" else ws[0] + Concat(ws[1..])
  }

  /** The tokens joined back with single spaces. */
  function JoinWords(ws: seq<string>): string
  {
    if |ws| == 0 then ""
    else if |ws| == 1 then ws[0]
    else ws[0] + " " + JoinWords(ws[1..])
  }

  /** End of the run of non-whitespace characters starting at `i`. */
  function WordEnd(s: string, i: nat): (j: nat)
    requires i <= |s|
    ensures i <= j <= |s|
    ensures forall k :: i <= k < j ==> !IsSpace(s[k])
    ensures j == |s| || IsSpace(s[j])
    decreases |s| - i
  {
    if i == |s| || IsSpace(s[i]) then i else WordEnd(s, i + 1)
  }

  lemma {:induction false} NonSpacePrefix(s: string, j: nat)
    requires j <= |s|
    requires forall k :: 0 <= k < j ==> !IsSpace(s[k])
    ensures NonSpace(s) == s[..j] + NonSpace(s[j..])
  {
    if j > 0 {
      NonSpacePrefix(s[1..], j - 1);
      assert s[1..][..j - 1] == s[1..j];
      assert s[1..][j - 1..] == s[j..];
      assert s[..j] == [s[0]] + s[1..j];
    }
  }

  /** `str.split()` with no separator: the maximal runs of non-whitespace
      characters, in order. */
  function Split(s: string): (ws: seq<string>)
    ensures forall i :: 0 <= i < |ws| ==> IsWord(ws[i])
    ensures Concat(ws) == NonSpace(s)
    decreases |s|
  {
    if |s| == 0 then []
    else if IsSpace(s[0]) then Split(s[1..])
    else
      var j := WordEnd(s, 0);
      NonSpacePrefix(s, j);
      assert ([s[..j]] + Split(s[j..]))[1..] == Split(s[j..]);
      [s[..j]] + Split(s[j..])
  }

  /** Splitting words that were joined by single spaces gives the words back. */
  lemma {:induction false} SplitJoinWords(ws: seq<string>)
    requires forall i :: 0 <= i < |ws| ==> IsWord(ws[i])
    ensures Split(JoinWords(ws)) == ws
  {
    if |ws| == 1 {
      var s := ws[0];
      assert WordEnd(s, 0) == |s|;
      assert s[..|s|] == s && s[|s|..] == "";
    } else if |ws| > 1 {
      var w := ws[0];
      var rest := JoinWords(ws[1..]);
      var s := w + " " + rest;
      assert s == JoinWords(ws);
      assert s[|w|] == ' ';
      assert forall k :: 0 <= k < |w| ==> s[k] == w[k];
      var j := WordEnd(s, 0);
      assert j == |w|;
      assert s[..j] == w;
      assert s[j..] == " " + rest;
      assert (" " + rest)[1..] == rest;
      SplitJoinWords(ws[1..]);
      assert Split(s) == [w] + Split(s[j..]);
      assert Split(s[j..]) == Split(rest);
    }
  }

  /** A lone word is one token. */
  lemma SplitWord(w: string)
    requires IsWord(w)
    ensures Split(w) == [w]
  {
    SplitJoinWords([w]);
  }

  /** A run that stops at a whitespace character stops there even when more
      text follows. */
  lemma {:induction false} WordEndAppend(a: string, t: string, i: nat)
    requires i <= |a| && |t| > 0 && IsSpace(t[0])
    ensures WordEnd(a + t, i) == WordEnd(a, i)
    decreases |a| - i
  {
    if i < |a| && !IsSpace(a[i]) {
      assert (a + t)[i] == a[i];
      WordEndAppend(a, t, i + 1);
    } else if i == |a| {
      assert (a + t)[i] == t[0];
    } else {
      assert (a + t)[i] == a[i];
    }
  }

  /** Every whitespace character separates: no token spans it, so the tokens
      are the maximal runs and text around a space splits independently. */
  lemma {:induction false} SplitSpace(a: string, c: char, b: string)
    requires IsSpace(c)
    ensures Split(a + [c] + b) == Split(a) + Split(b)
    decreases |a|
  {
    var s := a + [c] + b;
    if |a| == 0 {
      assert s == [c] + b;
      assert s[1..] == b;
    } else if IsSpace(a[0]) {
      assert s[0] == a[0];
      assert s[1..] == a[1..] + [c] + b;
      SplitSpace(a[1..], c, b);
    } else {
      var t := [c] + b;
      assert s == a + t;
      var j := WordEnd(a, 0);
      WordEndAppend(a, t, 0);
      assert s[0] == a[0];
      calc {
        Split(s);
        { assert WordEnd(s, 0) == j; }
        [s[..j]] + Split(s[j..]);
        { assert s[..j] == a[..j]; assert s[j..] == a[j..] + [c] + b; }
        [a[..j]] + Split(a[j..] + [c] + b);
        { SplitSpace(a[j..], c, b); }
        [a[..j]] + (Split(a[j..]) + Split(b));
        ([a[..j]] + Split(a[j..])) + Split(b);
        Split(a) + Split(b);
      }
    }
  }

  /** All tokens of the messages, message after message. */
  function Tokens(msgs: seq<string>): (ws: seq<string>)
    ensures forall i :: 0 <= i < |ws| ==> IsWord(ws[i])
  {
    if |msgs| == 0 then [] else Tokens(msgs[..|msgs| - 1]) + Split(msgs[|msgs| - 1])
  }

  /** One message gives its own tokens. */
  lemma TokensSingle(m: string)
    ensures Tokens([m]) == Split(m)
  {
    assert [m][..0] == [];
  }

  lemma TokensSnoc(msgs: seq<string>, m: string)
    ensures Tokens(msgs + [m]) == Tokens(msgs) + Split(m)
  {
    assert (msgs + [m])[..|msgs|] == msgs;
  }

  /** Messages are split independently and in order: with `TokensSingle`
      this pins the token list completely. */
  lemma {:induction false} TokensAppend(a: seq<string>, b: seq<string>)
    ensures Tokens(a + b) == Tokens(a) + Tokens(b)
    decreases |b|
  {
    if |b| == 0 {
      assert a + b == a;
    } else {
      var b0 := b[..|b| - 1];
      var x := b[|b| - 1];
      assert b == b0 + [x];
      assert a + b == (a + b0) + [x];
      calc {
        Tokens(a + b);
        { TokensSnoc(a + b0, x); }
        Tokens(a + b0) + Split(x);
        { TokensAppend(a, b0); }
        (Tokens(a) + Tokens(b0)) + Split(x);
        Tokens(a) + (Tokens(b0) + Split(x));
        { TokensSnoc(b0, x); }
        Tokens(a) + Tokens(b);
      }
    }
  }

  /** Drop the tokens that are pure digits. */
  function DropNumeric(ws: seq<string>): (r: seq<string>)
    ensures forall i :: 0 <= i < |r| ==> !IsDigits(r[i])
    ensures forall w :: !IsDigits(w) ==> Occurrences(r, w) == Occurrences(ws, w)
    ensures forall w :: w in r <==> w in ws && !IsDigits(w)
  {
    if |ws| == 0 then []
    else
      var init := ws[..|ws| - 1];
      var w := ws[|ws| - 1];
      var r0 := DropNumeric(init);
      var r := r0 + (if IsDigits(w) then [] else [w]);
      assert ws == init + [w];
      forall x | !IsDigits(x)
        ensures Occurrences(r, x) == Occurrences(ws, x)
      {
        OccurrencesAppend(r0, if IsDigits(w) then [] else [w], x);
        OccurrencesAppend(init, [w], x);
      }
      r
  }

  /** The live-comment messages, in log order. */
  function CommentMessages(es: seq<Event>): seq<string>
  {
    Messages(OfAction(es, Comment))
  }

  /** `generate_barrage_wordcloud_data`: (word, frequency) rows over the tokens of
      all live comments, pure-digit tokens excluded, in first-seen order. */
  function BarrageWordCloud(es: seq<Event>): (r: seq<(string, nat)>)
    ensures DistinctKeys(r)
    ensures forall i :: 0 <= i < |r| ==>
      && IsWord(r[i].0)
      && !IsDigits(r[i].0)
      && r[i].1 == Occurrences(Tokens(CommentMessages(es)), r[i].0)
      && r[i].1 > 0
    ensures forall w :: HasKey(r, w) <==> w in Tokens(CommentMessages(es)) && !IsDigits(w)
  {
    var ws := Tokens(CommentMessages(es));
    var kept := DropNumeric(ws);
    var r := Tally(kept);
    forall i | 0 <= i < |r|
      ensures IsWord(r[i].0) && !IsDigits(r[i].0) && r[i].1 == Occurrences(ws, r[i].0) && r[i].1 > 0
    {
      assert HasKey(r, r[i].0);
      var k :| 0 <= k < |ws| && ws[k] == r[i].0;
      OccurrencesPositive(kept, r[i].0);
    }
    r
  }
}
