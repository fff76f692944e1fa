# Live-stream log analytics, modelled in Dafny

The system analyses the event logs of live-commerce broadcasts. Each row of a
log records one action (a live comment, a follow, a purchase, the streamer
pushing an item, a lecture starting or ending, ...). Each row also carries an
epoch-millisecond stamp, a local time, a user id and a message. The
`ChartDataProcessor` class turns such a log into chart-ready series, and
`utils.py` finds a brand's logs and reads the date in each file name.

This project models that core as pure functions over an already-parsed log
`seq<Event>`, with times as integer seconds:

- `wrappers.dfy` (`Wrappers`): the `Option` type for absent values.
- `text.dfy` (`Text`): prefix, suffix and all-digits predicates on strings.
- `counting.dfy` (`Counting`): sums, occurrence counts, the histogram over
  consecutive integer keys, the mean, minimum and maximum.
- `events.dfy` (`Events`): the row record, the action labels, and the
  boolean-mask filters, columns and distinct users.
- `tallies.dfy` (`Tallies`): pandas `value_counts` (tally plus a stable
  sort by count), `head`, the top-N purchased items, Python's `str.split`,
  and the word cloud.
- `windows.dfy` (`Windows`): pandas `resample` / `Grouper` bucketing, with
  its midnight origin and a first-to-last-non-empty-bucket frame. It holds
  the viewer/popularity, comment-count, purchase-count and average-stay
  reports.
- `latency.dfy` (`Latency`): the nearest later interaction after each
  streamer action, and numpy's 50-bin histogram over exact reals.
- `sentiment.dfy` (`Sentiment`): the 30-minute sentiment windows, with the
  scorer as a function parameter.
- `snapshot.dfy` (`Snapshot`): the scalar figures of `get_basic_data`.
- `brands.dfy` (`Brands`): the pinyin-to-brand lookup, the `.csv` filter,
  the POSIX path join and the 8-digit date extraction. The file system is
  passed in as functions.

Two points where the code behaves differently from what its reports
evidently intend. In both cases the model follows the code:

- `user_average_stay_time` fills empty buckets with 1, while its comment
  says 0.
- The per-user stay differences are taken in log order, without first
  sorting by time, although a stay time is meant to be a time since the
  user's previous action and so never negative. `Windows.OrderedStaysNonNegative` shows that the means
  of a time-ordered log are non-negative, and
  `Windows.UnsortedStayNegative` gives an unsorted log with a negative
  mean. An unsorted log can still give non-negative means.

## Model

| member | source | states |
|---|---|---|
| Events.OfActions | controller/chart_data_controller.py:47 | the filter keeps exactly the rows whose action is in the set, and never more rows than the log has |
| Events.OfActionsOccurrences | controller/chart_data_controller.py:47 | a row with a selected action is kept exactly as often as the log holds it; any other row is never kept |
| Events.OfActionsSingle | controller/chart_data_controller.py:47 | a one-row log is kept whole when its action is selected and dropped otherwise |
| Events.OfActionsAppend | controller/chart_data_controller.py:47 | filtering a concatenation filters each part in turn, so the kept rows stay in log order |
| Events.OfActionsPairCount | controller/chart_data_controller.py:114-116 | filtering on two distinct labels keeps as many rows as the action column holds of either label |
| Events.OfActionCount | controller/chart_data_controller.py:190 | filtering on one action keeps as many rows as the action column holds that label |
| Events.Users | controller/chart_data_controller.py:188 | `nunique` counts a set whose members are exactly the user ids present in the rows, and there are no more of them than rows |
| Events.UsersMonotone | controller/chart_data_controller.py:201-202 | the users of a narrower action set are among the users of a wider one |
| Events.MinTime | controller/chart_data_controller.py:246 | the earliest time is a lower bound of every row's time and is some row's time |
| Events.MaxTime | controller/chart_data_controller.py:247 | the latest time is an upper bound of every row's time and is some row's time |
| Tallies.BumpShape | controller/chart_data_controller.py:224-227 | a word already counted has its count raised by one in place; a new word is appended with count 1; keys stay distinct and the total grows by one |
| Tallies.BumpTally | controller/chart_data_controller.py:224-227 | counting one more value turns the tally of a sequence into the tally of that sequence extended by the value |
| Tallies.Tally | controller/chart_data_controller.py:224-227 | the tally has distinct keys, each key counted exactly as often as it occurs, keys exactly the values seen, counts summing to the input length |
| Tallies.SortByCount | controller/chart_data_controller.py:151 | sorting by count permutes the rows and keeps the total |
| Tallies.SortByCountOrders | controller/chart_data_controller.py:151 | the sorted rows have non-increasing counts, and distinct keys stay distinct |
| Tallies.SortByCountSorted | controller/chart_data_controller.py:151 | sorting rows already in count order changes nothing (`sort_values` after `value_counts`), in the model's stable order |
| Tallies.ValueCounts | controller/chart_data_controller.py:20 | `value_counts`: one row per distinct value, its count equal to its occurrences, in non-increasing count order, counts summing to the input length |
| Tallies.UserBehaviorCounts | controller/chart_data_controller.py:20 | each action label's count is the number of rows with that action, and the counts sum to the number of rows |
| Tallies.UserMessageCounts | controller/chart_data_controller.py:29 | each message's count is the number of rows with that message, and the counts sum to the number of rows |
| Tallies.Head | controller/chart_data_controller.py:154 | `head(n)` is a prefix: the first n rows for n ≥ 0, all but the last -n rows for negative n |
| Tallies.Top | controller/chart_data_controller.py:153-154 | with no limit the rows are unchanged; with a limit n the result is `head(n)`: a prefix of exactly min(n, rows) rows for n ≥ 0, and all but the last -n rows for negative n |
| Tallies.TopOfTally | controller/chart_data_controller.py:151-154 | cutting a sorted tally keeps it sorted, distinct and with exact positive counts |
| Tallies.ItemPurchaseDistribution | controller/chart_data_controller.py:149-158 | exactly min(top_n, distinct items) items for top_n ≥ 0 (the negative-n length of `head` otherwise), in non-increasing count order, each counted exactly as often as it was bought; a prefix of the full count table; no limit keeps every bought item |
| Tallies.SinglePurchaseDistribution | controller/chart_data_controller.py:149-158 | one purchase of one item under the limit 8 gives that item with count 1 |
| Tallies.Split | controller/chart_data_controller.py:220 | `str.split()` yields whitespace-free non-empty tokens whose concatenation is the message without its whitespace |
| Tallies.SplitWord | controller/chart_data_controller.py:220 | a message that is one whitespace-free word splits into exactly that word |
| Tallies.WordEndAppend | controller/chart_data_controller.py:220 | a run of non-whitespace that ends at a whitespace character ends there whatever text follows |
| Tallies.SplitSpace | controller/chart_data_controller.py:220 | every whitespace character separates tokens: the text before and after it splits independently, so tokens are the maximal runs |
| Tallies.SplitJoinWords | controller/chart_data_controller.py:220 | splitting words joined by spaces gives back exactly those words |
| Tallies.Tokens | controller/chart_data_controller.py:219-221 | every token of the messages is a whitespace-free word |
| Tallies.TokensSingle | controller/chart_data_controller.py:219-221 | one message gives exactly its own split |
| Tallies.TokensAppend | controller/chart_data_controller.py:219-221 | messages are split independently and in order |
| Tallies.DropNumeric | controller/chart_data_controller.py:223 | no kept token is all digits; every other token keeps its exact number of occurrences |
| Tallies.BarrageWordCloud | controller/chart_data_controller.py:216-229 | distinct words, none all digits, each with its exact positive count over the live comments' tokens; a word is listed iff it occurs and is not all digits |
| Windows.DayStart | controller/chart_data_controller.py:45 | the resample origin is a midnight at or before the time and less than a day before it |
| Windows.BucketContains | controller/chart_data_controller.py:45 | every time lies in the half-open interval of its bucket |
| Windows.BucketUnique | controller/chart_data_controller.py:45 | no other bucket's interval holds the time, so the bucket index is the floor of the offset over the width |
| Windows.BucketOfMonotone | controller/chart_data_controller.py:45 | later times never fall into earlier buckets |
| Windows.KeysBracket | controller/chart_data_controller.py:45 | a row is keyed k exactly when its time lies in bucket k's half-open interval |
| Windows.FrameOrigin | controller/chart_data_controller.py:45 | the frame is measured from a midnight at or before the earliest row and less than a day before it |
| Windows.FrameCovers | controller/chart_data_controller.py:45 | every row falls inside the frame, and its first and last buckets are non-empty, so it is the smallest run of buckets covering the rows |
| Windows.Starts | controller/chart_data_controller.py:56 | one label per bucket, the first at the frame's first bucket start, consecutive labels one width apart |
| Windows.FilteredInFrame | controller/chart_data_controller.py:47 | filtered rows fall inside the unfiltered log's frame |
| Windows.FilteredBucketBound | controller/chart_data_controller.py:47 | no bucket of a filtered series holds more rows than the same bucket of the whole log |
| Windows.WindowedCount | controller/chart_data_controller.py:75 | `resample().size()`: one label per count, the labels the frame's bucket starts; counts sum to the number of rows; the first and last buckets are non-empty; an empty series gives an empty chart |
| Windows.WindowedCountCell | controller/chart_data_controller.py:75 | count i is exactly the number of rows in the i-th bucket of the frame |
| Windows.BarrageSendTimeDistribution | controller/chart_data_controller.py:75-81 | the comment counts sum to the number of live comments, the chart is empty iff there are none, and the labels are the bucket starts of the comments' frame |
| Windows.BarrageCell | controller/chart_data_controller.py:75 | count i is exactly the number of live comments in the i-th bucket of their frame |
| Windows.ItemPurchaseFrequencyDistribution | controller/chart_data_controller.py:175-181 | the purchase counts sum to the number of purchases, the chart is empty iff there are none, and the labels are the bucket starts of the purchases' frame |
| Windows.PurchaseCell | controller/chart_data_controller.py:175 | count i is exactly the number of purchases in the i-th bucket of their frame |
| Windows.BucketUsersMembers | controller/chart_data_controller.py:45 | a user is counted in a bucket iff one of their rows falls in it |
| Windows.BucketUsersEmpty | controller/chart_data_controller.py:45 | a bucket has no users exactly when no row falls in it |
| Windows.BucketUsersBound | controller/chart_data_controller.py:45 | a bucket has no more distinct users than rows |
| Windows.ViewersCell | controller/chart_data_controller.py:45 | viewer cell i is the number of distinct users in the i-th bucket |
| Windows.PopularitySum | controller/chart_data_controller.py:47 | every live comment is counted in exactly one bucket of the log's frame |
| Windows.CommentBucket | controller/chart_data_controller.py:47 | a bucket holds a live comment exactly when its comment count is positive |
| Windows.PopularityCell | controller/chart_data_controller.py:47-52 | popularity cell i is exactly the number of live comments in bucket i, 0 exactly when there are none, and at most the bucket's rows |
| Windows.LiveViewersAndPopularity | controller/chart_data_controller.py:45-58 | labels, viewers and popularity have equal length; the labels are the frame's bucket starts; popularity sums to the number of live comments; an empty log gives empty lists |
| Windows.LiveViewersCell | controller/chart_data_controller.py:45-58 | viewer cell i of the chart is the number of distinct users in bucket i of the log's frame, at most its rows, and 0 exactly when it has none |
| Windows.LivePopularityCell | controller/chart_data_controller.py:47-58 | popularity cell i of the chart is exactly the number of live comments in bucket i of the log's frame, and 0 exactly when there are none |
| Windows.LastOfUserBefore | controller/chart_data_controller.py:94 | finds the user's closest earlier row, or reports that there is none |
| Windows.StayOfMeaning | controller/chart_data_controller.py:94 | a user's first row has no stay value; any other row's is its time minus that user's previous row's time, in log order |
| Windows.StaysInMembers | controller/chart_data_controller.py:96 | a value is among a bucket's stay values iff some row in the bucket contributes it |
| Windows.ContributorsStep | controller/chart_data_controller.py:96 | one more row adds one contributor of a value exactly when that row contributes it |
| Windows.StaysInStep | controller/chart_data_controller.py:96 | one more row adds one occurrence of a value exactly when that row contributes it |
| Windows.StaysInCount | controller/chart_data_controller.py:96 | each value occurs among a bucket's stay values exactly as often as rows of the bucket contribute it, so the mean is over every non-first row of the bucket |
| Windows.MeansCells | controller/chart_data_controller.py:96-100 | each cell is 1 when its bucket has no stay value, otherwise the mean of those values |
| Windows.UserAverageStayTime | controller/chart_data_controller.py:94-105 | labels and values have equal length, the frame's bucket count, and the labels are its bucket starts; an empty log gives empty lists |
| Windows.UserAverageStayCells | controller/chart_data_controller.py:96-100 | each bucket of the frame reports exactly 1 when it has no stay value and the mean of its values otherwise |
| Windows.StayNonNegative | controller/chart_data_controller.py:94 | in a time-ordered log no stay value is negative |
| Windows.OrderedStaysNonNegative | controller/chart_data_controller.py:94-100 | for a time-ordered log every bucket mean is ≥ 0 |
| Windows.UnsortedStayNegative | controller/chart_data_controller.py:94-100 | a user whose later row comes first in the log gets a negative stay: rows at 10 s then 5 s give the mean -5 |
| Latency.NextAfter | controller/chart_data_controller.py:123-125 | the earliest target time strictly after the anchor, absent iff no target is later |
| Latency.SampleOf | controller/chart_data_controller.py:122-127 | one anchor yields at most one sample, and a sample is positive |
| Latency.Samples | controller/chart_data_controller.py:121-127 | no more samples than anchors, every sample > 0 |
| Latency.SamplesAnswered | controller/chart_data_controller.py:121-127 | every sample is the delay from some anchor to its nearest later target |
| Latency.SamplesSingle | controller/chart_data_controller.py:122-127 | an anchor with no later target contributes nothing; otherwise it contributes its delay |
| Latency.SamplesAppend | controller/chart_data_controller.py:121 | anchors are handled independently, in order |
| Latency.Range | controller/chart_data_controller.py:131 | numpy's range: the samples' extent, widened by ½ on each side when they are all equal, [0, 1] when there are none; it contains every sample |
| Latency.BinIndex | controller/chart_data_controller.py:131 | every value in the range gets one of the 50 bins |
| Latency.BinContains | controller/chart_data_controller.py:131 | a value lies between its bin's edges; only the last bin is closed on the right |
| Latency.LatencyHistogram | controller/chart_data_controller.py:131-134 | exactly 50 adjacent increasing bins spanning the range; each count is the number of samples in that bin; the counts sum to the number of samples |
| Latency.SampleInItsBin | controller/chart_data_controller.py:131 | each sample lies inside the bin that counts it |
| Latency.TimeDiffs | controller/chart_data_controller.py:114-127 | no more samples than anchor rows, and every sample is positive |
| Latency.TimeDiffData | controller/chart_data_controller.py:114-134 | 50 counts summing to the number of samples, which is at most the number of rows labelled with either anchor action |
| Counting.Mean | controller/chart_data_controller.py:195 | the mean is absent exactly for no values, and otherwise times the count gives the sum |
| Counting.MeanBetween | controller/chart_data_controller.py:195 | a mean lies between any lower and upper bound of the values |
| Snapshot.LectureMinutes | controller/chart_data_controller.py:193-198 | absent iff either lecture marker is missing; otherwise 60000 times it is the mean end stamp minus the mean start stamp |
| Snapshot.LectureNonNegative | controller/chart_data_controller.py:196-198 | when no lecture ends before any lecture starts, the duration is ≥ 0 |
| Snapshot.BasicDataOf | controller/chart_data_controller.py:188-202 | purchases count the purchase rows; purchasers ≤ purchases; online users ≥ purchasers, ≥ cart users and ≤ rows |
| Sentiment.Classify | controller/chart_data_controller.py:262-267 | above 0.5 positive, below 0.3 negative, otherwise neutral, each iff |
| Sentiment.Boundaries | controller/chart_data_controller.py:248 | boundaries start exactly at the earliest time, step 30 minutes, and the last is within 30 minutes at or below the latest time |
| Sentiment.Classified | controller/chart_data_controller.py:256-267 | a polarity never counts more rows than the window holds |
| Sentiment.ClassesPartition | controller/chart_data_controller.py:256-267 | every row of a window is counted under exactly one polarity |
| Sentiment.InWindowBefore | controller/chart_data_controller.py:257 | a window holds the rows before its end minus those before its start |
| Sentiment.InWindowSplit | controller/chart_data_controller.py:250-257 | adjacent windows add up |
| Sentiment.WindowCounts | controller/chart_data_controller.py:250-270 | cell i counts the rows of window i with that polarity |
| Sentiment.WindowCountsTotal | controller/chart_data_controller.py:250-270 | over the windows the three series together count exactly the rows from the first boundary to the last |
| Sentiment.SentimentByTime | controller/chart_data_controller.py:246-277 | absent for an empty log; one more label than counts; labels from the earliest time in 30-minute steps; each count is the number of rows of that window with that polarity |
| Sentiment.SentimentTotal | controller/chart_data_controller.py:250-257 | rows at or after the last boundary are never counted: the series together count exactly the rows before it |
| Brands.PathJoin | utils.py:20 | the joined path ends with the file name; an absolute name replaces the directory; otherwise the path starts with the directory and is one character longer than both exactly when a separator is inserted |
| Brands.CsvFiles | utils.py:23 | exactly the listed names ending in `.csv`, never more than listed |
| Brands.CsvFilesSingle | utils.py:23 | a one-name listing is kept exactly when the name ends in `.csv` |
| Brands.CsvFilesAppend | utils.py:23 | two listings keep the `.csv` names of each in turn, so the result is in listing order |
| Brands.GetBrandPaths | utils.py:9-27 | None iff the key is not one of the four pinyin keys or the brand directory does not exist; otherwise a one-key map from the brand name to the directory joined with each `.csv` name, in listing order |
| Brands.FirstDateFrom | utils.py:34 | the leftmost position from which eight digits start, absent iff there is none |
| Brands.FirstDate | utils.py:34-36 | the leftmost run of eight digits, absent iff the path has none |
| Brands.DatesOf | utils.py:32-36 | only 8-digit strings, never more than there are paths |
| Brands.DatesOfSingle | utils.py:34-36 | a path without eight digits contributes nothing, otherwise its first date |
| Brands.DatesOfAppend | utils.py:32-36 | paths are read independently and in order |
| Brands.ExtractDates | utils.py:29-37 | only 8-digit strings, no more than the total number of paths |
| Brands.ExtractDatesAppend | utils.py:31-37 | entries are read in order and independently |
| Brands.ExtractDatesSingle | utils.py:31-32 | on a one-entry map, the dates are those of its paths |

## Left out

- Reading the CSV file and parsing the time column in `load_data`
  (controller/chart_data_controller.py:11-13): the model starts from parsed
  rows, with the time as integer seconds on a naive local clock.
- Label text: `strftime` formatting of bucket and window starts, and the
  `int(edge)` labels of the latency histogram. The model returns the start
  times and real edges themselves.
- `round(..., 2)` of the lecture duration: `Snapshot.LectureMinutes` is
  the unrounded value.
- Floating point: numpy's histogram edges and bin search are modelled over
  exact reals, so rounding at a bin edge is not modelled. The float64 means
  of the stay values (controller/chart_data_controller.py:96) and of the
  lecture stamps (controller/chart_data_controller.py:195) are exact
  rational means here.
- Default arguments: the default bucket widths ('25min', '60min', '1H',
  '10min') and `top_n=8` are not constants of the model; every report takes
  its width or limit as a parameter.
- The SnowNLP scorer: it is the parameter `score`, a total function into
  [0, 1].
- Windows.LiveViewersAndPopularity: the popularity series is bucketed from
  the whole log's origin. pandas takes the comments' own midnight, which
  differs only when the first comment falls on a later calendar day than
  the first row and the width does not divide a day. In that case pandas'
  union index is not modelled.
- Missing values: NaN messages and user ids are not modelled. `value_counts`
  and `count()` skip them, and `astype(str)` turns them into `"nan"`.
  So `count()` in `item_purchase_frequency_distribution` equals the row
  count here.
- Tallies.ValueCounts: pandas leaves the order of equal counts
  unspecified. The model keeps first-seen order among ties, so it fixes
  only the order of distinct counts. The same holds for the second sort,
  `sort_values(ascending=False)` at
  controller/chart_data_controller.py:151: its default quicksort is not
  stable, so `Tallies.SortByCountSorted` (nothing changes) holds in pandas
  only up to the order of ties.
- Unicode digits: `str.isdigit` and the regex `\d` also accept non-ASCII
  digits. The model accepts only `0`-`9`.
- Windows paths: `os.path.join` is modelled as the POSIX join.
- The file system: `os.path.isdir` and `os.listdir` are the parameters
  `isDir` and `listDir`.
- Flask routing, login and registration with their JSON persistence, and the
  socket replay loop with its sleeps and threads: plumbing, I/O and
  concurrency.
