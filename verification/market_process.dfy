/**
 * The market-data normaliser: the price and volume series of the payload are
 * inner-joined on their millisecond timestamps, each timestamp becomes a UTC
 * day, and of the rows that share a day only the last one is kept.
 * Prices and volumes are kept as exact reals.
 */
module MarketProcess {
  import opened Wrappers
  import Seqs
  import UtcTime

  /** One `[epoch-ms, value]` pair of a series. */
  datatype Point = Point(ms: int, value: real)

  /** The decoded JSON body; a key may be absent or null. */
  datatype Payload = Payload(prices: Option<seq<Point>>, totalVolumes: Option<seq<Point>>)

  /** A row of the join, before its timestamp is turned into a day. */
  datatype Joined = Joined(ms: int, price: real, volume: real)

  /** An output row: `date, price, volume`, the date as a UTC day number. */
  datatype Row = Row(day: int, price: real, volume: real)

  /** The payload lacks one of the two series, or one of them is empty. */
  datatype ProcessError = MissingSeries

  /** The join of one price point with a volume point, when their timestamps agree. */
  function Pair(p: Point, v: Point): Option<Joined> {
    if v.ms == p.ms then Some(Joined(p.ms, p.value, v.value)) else None
  }

  /** `Pair` with the price point fixed, as a function of the volume point. */
  function PairWith(p: Point): (f: Point -> Option<Joined>) {
    v => Pair(p, v)
  }

  /** The joined row pairs a price point and a volume point that carry the same timestamp. */
  ghost predicate PairsShared(prices: seq<Point>, volumes: seq<Point>, j: Joined) {
    exists i, k :: 0 <= i < |prices| && 0 <= k < |volumes| && prices[i].ms == volumes[k].ms &&
      j == Joined(prices[i].ms, prices[i].value, volumes[k].value)
  }

  /**
   * `pd.merge(prices, volumes, on="timestamp")`: for each price point in
   * order, one row per volume point with its timestamp, in volume order.
   */
  function Join(prices: seq<Point>, volumes: seq<Point>): (js: seq<Joined>)
    ensures |prices| == 0 || |volumes| == 0 ==> js == []
    ensures forall j :: j in js ==> PairsShared(prices, volumes, j)
  {
    if |prices| == 0 then []
    else
      var head := Seqs.FilterMap(volumes, PairWith(prices[0]));
      var rest := Join(prices[1..], volumes);
      HeadPairsShared(prices, volumes);
      TailPairsShared(prices, volumes, rest);
      head + rest
  }

  /** The rows joined for the first price point pair it with volume points of its timestamp. */
  lemma HeadPairsShared(prices: seq<Point>, volumes: seq<Point>)
    requires |prices| > 0
    ensures forall j :: j in Seqs.FilterMap(volumes, PairWith(prices[0])) ==> PairsShared(prices, volumes, j)
  {
    forall j | j in Seqs.FilterMap(volumes, PairWith(prices[0]))
      ensures PairsShared(prices, volumes, j)
    {
      Seqs.FilterMapMember(volumes, PairWith(prices[0]), j);
      var k :| 0 <= k < |volumes| && PairWith(prices[0])(volumes[k]) == Some(j);
      assert prices[0].ms == volumes[k].ms;
    }
  }

  /** A row pairing a later price point also pairs a point of the whole price series. */
  lemma TailPairsShared(prices: seq<Point>, volumes: seq<Point>, rest: seq<Joined>)
    requires |prices| > 0
    requires forall j :: j in rest ==> PairsShared(prices[1..], volumes, j)
    ensures forall j :: j in rest ==> PairsShared(prices, volumes, j)
  {
    forall j | j in rest
      ensures PairsShared(prices, volumes, j)
    {
      var i, k :| 0 <= i < |prices[1..]| && 0 <= k < |volumes| && prices[1..][i].ms == volumes[k].ms &&
                  j == Joined(prices[1..][i].ms, prices[1..][i].value, volumes[k].value);
      assert prices[1..][i] == prices[i + 1];
    }
  }

  /** The join keeps the order of the price series: joining a concatenation joins each part. */
  lemma {:induction false} JoinAppend(a: seq<Point>, b: seq<Point>, volumes: seq<Point>)
    ensures Join(a + b, volumes) == Join(a, volumes) + Join(b, volumes)
  {
    if |a| == 0 {
      assert a + b == b;
    } else {
      assert (a + b)[0] == a[0];
      assert (a + b)[1..] == a[1..] + b;
      JoinAppend(a[1..], b, volumes);
    }
  }

  /** A row is in the join exactly when it pairs a price point and a volume point with the same timestamp. */
  lemma {:induction false} JoinMember(prices: seq<Point>, volumes: seq<Point>, j: Joined)
    ensures j in Join(prices, volumes) <==> PairsShared(prices, volumes, j)
  {
    if |prices| > 0 {
      var f := PairWith(prices[0]);
      Seqs.FilterMapMember(volumes, f, j);
      JoinMember(prices[1..], volumes, j);
      if j in Seqs.FilterMap(volumes, f) {
        var k :| 0 <= k < |volumes| && f(volumes[k]) == Some(j);
        assert prices[0].ms == volumes[k].ms;
      }
      if j in Join(prices[1..], volumes) {
        var i, k :| 0 <= i < |prices[1..]| && 0 <= k < |volumes| && prices[1..][i].ms == volumes[k].ms &&
                    j == Joined(prices[1..][i].ms, prices[1..][i].value, volumes[k].value);
        assert prices[i + 1] == prices[1..][i];
      }
      if PairsShared(prices, volumes, j) {
        var i, k :| 0 <= i < |prices| && 0 <= k < |volumes| && prices[i].ms == volumes[k].ms &&
                    j == Joined(prices[i].ms, prices[i].value, volumes[k].value);
        if i == 0 {
          assert f(volumes[k]) == Some(j);
        } else {
          assert prices[1..][i - 1] == prices[i];
        }
      }
    }
  }

  /** The series carry the same timestamps, in the same order, each once. */
  predicate Aligned(prices: seq<Point>, volumes: seq<Point>) {
    && |prices| == |volumes|
    && (forall i :: 0 <= i < |prices| ==> prices[i].ms == volumes[i].ms)
    && (forall i, k :: 0 <= i < k < |volumes| ==> volumes[i].ms < volumes[k].ms)
  }

  /** A price point whose timestamp occurs once among the volumes joins exactly that volume point. */
  lemma {:induction false} PairWithUnique(p: Point, volumes: seq<Point>, k: nat)
    requires k < |volumes| && volumes[k].ms == p.ms
    requires forall l :: 0 <= l < |volumes| && l != k ==> volumes[l].ms != p.ms
    ensures Seqs.FilterMap(volumes, PairWith(p)) == [Joined(p.ms, p.value, volumes[k].value)]
  {
    var f := PairWith(p);
    assert volumes == volumes[..k] + [volumes[k]] + volumes[k + 1..];
    Seqs.FilterMapAppend(volumes[..k] + [volumes[k]], volumes[k + 1..], f);
    Seqs.FilterMapAppend(volumes[..k], [volumes[k]], f);
    Seqs.FilterMapKeepsAll([volumes[k]], f);
    assert Seqs.FilterMap([volumes[k]], f) == [Joined(p.ms, p.value, volumes[k].value)];
    NoneMatch(p, volumes[..k]);
    NoneMatch(p, volumes[k + 1..]);
  }

  /** No volume point of `vs` has the price point's timestamp: nothing is joined. */
  lemma {:induction false} NoneMatch(p: Point, vs: seq<Point>)
    requires forall l :: 0 <= l < |vs| ==> vs[l].ms != p.ms
    ensures Seqs.FilterMap(vs, PairWith(p)) == []
  {
    if |vs| > 0 {
      assert forall l :: 0 <= l < |vs[1..]| ==> vs[1..][l].ms != p.ms by {
        forall l | 0 <= l < |vs[1..]| ensures vs[1..][l].ms != p.ms {
          assert vs[1..][l] == vs[l + 1];
        }
      }
      NoneMatch(p, vs[1..]);
    }
  }

  /**
   * With aligned series the join pairs the i-th price with the i-th volume:
   * N shared timestamps give N rows.
   */
  lemma {:induction false} JoinAligned(prices: seq<Point>, volumes: seq<Point>)
    requires Aligned(prices, volumes)
    ensures |Join(prices, volumes)| == |prices|
    ensures forall i :: 0 <= i < |prices| ==>
              Join(prices, volumes)[i] == Joined(prices[i].ms, prices[i].value, volumes[i].value)
  {
    JoinSuffixAligned(prices, volumes, 0);
  }

  lemma {:induction false} JoinSuffixAligned(prices: seq<Point>, volumes: seq<Point>, s: nat)
    requires Aligned(prices, volumes) && s <= |prices|
    ensures |Join(prices[s..], volumes)| == |prices| - s
    ensures forall i :: s <= i < |prices| ==>
              Join(prices[s..], volumes)[i - s] == Joined(prices[i].ms, prices[i].value, volumes[i].value)
    decreases |prices| - s
  {
    if s < |prices| {
      JoinSuffixAligned(prices, volumes, s + 1);
      assert prices[s..][1..] == prices[s + 1..];
      assert prices[s..][0] == prices[s];
      forall l | 0 <= l < |volumes| && l != s
        ensures volumes[l].ms != prices[s].ms
      {
        if l < s { assert volumes[l].ms < volumes[s].ms; }
        else { assert volumes[s].ms < volumes[l].ms; }
      }
      PairWithUnique(prices[s], volumes, s);
    }
  }

  /** Each joined row with its timestamp replaced by the UTC day of that timestamp. */
  function ToRows(js: seq<Joined>): (rows: seq<Row>)
    ensures |rows| == |js|
    ensures forall i :: 0 <= i < |js| ==>
              rows[i].day * UtcTime.MillisPerDay <= js[i].ms < (rows[i].day + 1) * UtcTime.MillisPerDay
    ensures forall i :: 0 <= i < |js| ==> rows[i].price == js[i].price && rows[i].volume == js[i].volume
  {
    seq(|js|, i requires 0 <= i < |js| => Row(UtcTime.DayOfMillis(js[i].ms), js[i].price, js[i].volume))
  }

  /** No later row has the day of row `i`. */
  predicate IsLastOfDay(rows: seq<Row>, i: int)
    requires 0 <= i < |rows|
  {
    forall j :: i < j < |rows| ==> rows[j].day != rows[i].day
  }

  /** Row `r` is a row at position `i` or later that no later row shares a day with. */
  ghost predicate IsLastRowFrom(rows: seq<Row>, i: nat, r: Row) {
    exists j :: i <= j < |rows| && r == rows[j] && IsLastOfDay(rows, j)
  }

  /** `drop_duplicates(subset=["date"], keep="last")` applied to `rows[i..]`. */
  function KeepLastFrom(rows: seq<Row>, i: nat): (out: seq<Row>)
    requires i <= |rows|
    ensures |out| <= |rows| - i
    ensures forall r :: r in out ==> IsLastRowFrom(rows, i, r)
    ensures DistinctDays(out)
    decreases |rows| - i
  {
    if i == |rows| then []
    else
      var rest := KeepLastFrom(rows, i + 1);
      if IsLastOfDay(rows, i) then
        assert forall r :: r in rest ==> r.day != rows[i].day;
        [rows[i]] + rest
      else rest
  }

  /**
   * Rows sharing a day collapse to the last of them; the kept rows stay in
   * their order. Every kept row is the last row of its day, and no day is
   * kept twice.
   */
  function DropDuplicateDays(rows: seq<Row>): (out: seq<Row>)
    ensures |out| <= |rows|
    ensures forall r :: r in out ==> IsLastRowFrom(rows, 0, r)
    ensures DistinctDays(out)
  {
    KeepLastFrom(rows, 0)
  }

  /** The positions, from `i` on, of the rows that are last of their day, ascending. */
  function LastIndicesFrom(rows: seq<Row>, i: nat): (idx: seq<nat>)
    requires i <= |rows|
    ensures forall k :: 0 <= k < |idx| ==> i <= idx[k] < |rows| && IsLastOfDay(rows, idx[k])
    ensures forall k, l :: 0 <= k < l < |idx| ==> idx[k] < idx[l]
    ensures forall j :: i <= j < |rows| && IsLastOfDay(rows, j) ==> j in idx
    decreases |rows| - i
  {
    if i == |rows| then []
    else (if IsLastOfDay(rows, i) then [i] else []) + LastIndicesFrom(rows, i + 1)
  }

  /** The kept rows are the rows at the last-of-day positions. */
  lemma {:induction false} KeepLastFromAt(rows: seq<Row>, i: nat)
    requires i <= |rows|
    ensures |KeepLastFrom(rows, i)| == |LastIndicesFrom(rows, i)|
    ensures forall k :: 0 <= k < |KeepLastFrom(rows, i)| ==>
              KeepLastFrom(rows, i)[k] == rows[LastIndicesFrom(rows, i)[k]]
    decreases |rows| - i
  {
    if i < |rows| {
      KeepLastFromAt(rows, i + 1);
      var out, idx := KeepLastFrom(rows, i), LastIndicesFrom(rows, i);
      var rest, ridx := KeepLastFrom(rows, i + 1), LastIndicesFrom(rows, i + 1);
      if IsLastOfDay(rows, i) {
        assert out == [rows[i]] + rest && idx == [i] + ridx;
        forall k | 0 <= k < |out|
          ensures out[k] == rows[idx[k]]
        {
          if k > 0 {
            assert out[k] == rest[k - 1] && idx[k] == ridx[k - 1];
          }
        }
      } else {
        assert out == rest && idx == ridx;
      }
    }
  }

  /** The set of days present in `rows`. */
  function Days(rows: seq<Row>): set<int> {
    set i | 0 <= i < |rows| :: rows[i].day
  }

  /** No two rows share a day. */
  predicate DistinctDays(rows: seq<Row>) {
    forall k, l :: 0 <= k < l < |rows| ==> rows[k].day != rows[l].day
  }

  /** Every row's day has a last row at or after it. */
  lemma {:induction false} LastOfDayExists(rows: seq<Row>, i: nat)
    requires i < |rows|
    ensures exists m :: i <= m < |rows| && rows[m].day == rows[i].day && IsLastOfDay(rows, m)
    decreases |rows| - i
  {
    if !IsLastOfDay(rows, i) {
      var j :| i < j < |rows| && rows[j].day == rows[i].day;
      LastOfDayExists(rows, j);
    }
  }

  /**
   * Keep-last deduplication: the output is the subsequence of the rows that
   * no later row shares a day with, in their original order.
   */
  lemma DropDuplicateDaysKeepsLast(rows: seq<Row>)
    ensures var out, idx := DropDuplicateDays(rows), LastIndicesFrom(rows, 0);
            && |out| == |idx|
            && (forall k :: 0 <= k < |out| ==> out[k] == rows[idx[k]])
            && (forall m :: 0 <= m < |rows| ==> (m in idx <==> IsLastOfDay(rows, m)))
  {
    KeepLastFromAt(rows, 0);
  }

  /**
   * For every day, the row that survives is the last row of that day: it is
   * kept, and no other row of that day is.
   */
  lemma DropDuplicateDaysLastWins(rows: seq<Row>, m: nat)
    requires m < |rows| && IsLastOfDay(rows, m)
    ensures rows[m] in DropDuplicateDays(rows)
    ensures forall r :: r in DropDuplicateDays(rows) && r.day == rows[m].day ==> r == rows[m]
  {
    var out, idx := DropDuplicateDays(rows), LastIndicesFrom(rows, 0);
    KeepLastFromAt(rows, 0);
    var k0 :| 0 <= k0 < |idx| && idx[k0] == m;
    assert out[k0] == rows[m];
    forall r | r in out && r.day == rows[m].day
      ensures r == rows[m]
    {
      var k :| 0 <= k < |out| && out[k] == r;
      var i := idx[k];
      assert IsLastOfDay(rows, i) && rows[i].day == rows[m].day;
    }
  }

  /** Deduplication loses no day: the output carries exactly the input's days. */
  lemma DropDuplicateDaysSameDays(rows: seq<Row>)
    ensures Days(DropDuplicateDays(rows)) == Days(rows)
  {
    var out := DropDuplicateDays(rows);
    forall d | d in Days(rows)
      ensures d in Days(out)
    {
      var i :| 0 <= i < |rows| && rows[i].day == d;
      InputDayKept(rows, i);
    }
    forall d | d in Days(out)
      ensures d in Days(rows)
    {
      var k :| 0 <= k < |out| && out[k].day == d;
      OutputDayPresent(rows, k);
    }
  }

  /** The day of every input row survives deduplication. */
  lemma InputDayKept(rows: seq<Row>, i: nat)
    requires i < |rows|
    ensures rows[i].day in Days(DropDuplicateDays(rows))
  {
    var out, idx := DropDuplicateDays(rows), LastIndicesFrom(rows, 0);
    KeepLastFromAt(rows, 0);
    LastOfDayExists(rows, i);
    var m :| i <= m < |rows| && rows[m].day == rows[i].day && IsLastOfDay(rows, m);
    var k :| 0 <= k < |idx| && idx[k] == m;
    DayIn(out, k);
  }

  /** Every output row's day is the day of an input row. */
  lemma OutputDayPresent(rows: seq<Row>, k: nat)
    requires k < |DropDuplicateDays(rows)|
    ensures DropDuplicateDays(rows)[k].day in Days(rows)
  {
    KeepLastFromAt(rows, 0);
    DayIn(rows, LastIndicesFrom(rows, 0)[k]);
  }

  /** The day of any row is among the days. */
  lemma DayIn(rows: seq<Row>, i: nat)
    requires i < |rows|
    ensures rows[i].day in Days(rows)
  {
  }

  /** The days of the timestamps that both series carry. */
  function SharedDays(prices: seq<Point>, volumes: seq<Point>): set<int> {
    set i, k | 0 <= i < |prices| && 0 <= k < |volumes| && prices[i].ms == volumes[k].ms ::
      UtcTime.DayOfMillis(prices[i].ms)
  }

  /**
   * `process_market_data`: fails when either series is absent or empty;
   * otherwise every row pairs a price and a volume of one shared timestamp,
   * dated by that timestamp's UTC day, and each shared day appears exactly once.
   */
  function ProcessMarketData(payload: Payload): (r: Result<seq<Row>, ProcessError>)
    ensures var prices, volumes := payload.prices.GetOr([]), payload.totalVolumes.GetOr([]);
            && (r.Failure? <==> |prices| == 0 || |volumes| == 0)
            && (r.Success? ==> DistinctDays(r.value) && Days(r.value) == SharedDays(prices, volumes))
            && (r.Success? ==> forall row :: row in r.value ==> FromSharedTimestamp(prices, volumes, row))
  {
    var prices, volumes := payload.prices.GetOr([]), payload.totalVolumes.GetOr([]);
    if |prices| == 0 || |volumes| == 0 then Failure(MissingSeries)
    else
      var js := Join(prices, volumes);
      var rows := ToRows(js);
      var out := DropDuplicateDays(rows);
      ProcessSound(prices, volumes);
      Success(out)
  }

  /** The facts `ProcessMarketData` promises, about the join, day conversion and deduplication together. */
  lemma ProcessSound(prices: seq<Point>, volumes: seq<Point>)
    ensures var out := DropDuplicateDays(ToRows(Join(prices, volumes)));
            && DistinctDays(out) && Days(out) == SharedDays(prices, volumes)
            && forall row :: row in out ==> FromSharedTimestamp(prices, volumes, row)
  {
    var rows := ToRows(Join(prices, volumes));
    DropDuplicateDaysSameDays(rows);
    JoinedDaysAreShared(prices, volumes);
    KeptRowsFromSharedTimestamps(prices, volumes);
  }

  /** The row pairs the price and the volume of one timestamp both series carry, dated by its day. */
  ghost predicate FromSharedTimestamp(prices: seq<Point>, volumes: seq<Point>, row: Row) {
    exists j :: PairsShared(prices, volumes, j) && row == Row(UtcTime.DayOfMillis(j.ms), j.price, j.volume)
  }

  /** Every deduplicated row comes from a timestamp shared by both series. */
  lemma KeptRowsFromSharedTimestamps(prices: seq<Point>, volumes: seq<Point>)
    ensures forall row :: row in DropDuplicateDays(ToRows(Join(prices, volumes))) ==>
              FromSharedTimestamp(prices, volumes, row)
  {
    var js := Join(prices, volumes);
    var rows := ToRows(js);
    var out := DropDuplicateDays(rows);
    forall row | row in out
      ensures FromSharedTimestamp(prices, volumes, row)
    {
      assert IsLastRowFrom(rows, 0, row);
      var n :| 0 <= n < |rows| && row == rows[n] && IsLastOfDay(rows, n);
      assert js[n] in js;
      assert PairsShared(prices, volumes, js[n]);
    }
  }

  /** The days of the joined rows are exactly the days of the shared timestamps. */
  lemma JoinedDaysAreShared(prices: seq<Point>, volumes: seq<Point>)
    ensures Days(ToRows(Join(prices, volumes))) == SharedDays(prices, volumes)
  {
    var js := Join(prices, volumes);
    var rows := ToRows(js);
    forall d | d in Days(rows)
      ensures d in SharedDays(prices, volumes)
    {
      var n :| 0 <= n < |rows| && rows[n].day == d;
      JoinMember(prices, volumes, js[n]);
    }
    forall d | d in SharedDays(prices, volumes)
      ensures d in Days(rows)
    {
      var i, k :| 0 <= i < |prices| && 0 <= k < |volumes| && prices[i].ms == volumes[k].ms &&
                  d == UtcTime.DayOfMillis(prices[i].ms);
      var j := Joined(prices[i].ms, prices[i].value, volumes[k].value);
      JoinMember(prices, volumes, j);
      var n :| 0 <= n < |js| && js[n] == j;
      DayIn(rows, n);
    }
  }

  /** The timestamps of a series never decrease. */
  predicate TimeOrdered(ps: seq<Point>) {
    forall i, k :: 0 <= i < k < |ps| ==> ps[i].ms <= ps[k].ms
  }

  /** The joined rows' timestamps never decrease. */
  predicate JoinedTimeOrdered(js: seq<Joined>) {
    forall a, b :: 0 <= a < b < |js| ==> js[a].ms <= js[b].ms
  }

  /** Joining a time-ordered price series gives rows in time order. */
  lemma {:induction false} JoinTimeOrdered(prices: seq<Point>, volumes: seq<Point>)
    requires TimeOrdered(prices)
    ensures JoinedTimeOrdered(Join(prices, volumes))
  {
    if |prices| > 0 {
      var head := Seqs.FilterMap(volumes, PairWith(prices[0]));
      var rest := Join(prices[1..], volumes);
      JoinTimeOrdered(prices[1..], volumes);
      forall a | 0 <= a < |head|
        ensures head[a].ms == prices[0].ms
      {
        Seqs.FilterMapMember(volumes, PairWith(prices[0]), head[a]);
      }
      forall b | 0 <= b < |rest|
        ensures prices[0].ms <= rest[b].ms
      {
        JoinMember(prices[1..], volumes, rest[b]);
        var i, k :| 0 <= i < |prices[1..]| && 0 <= k < |volumes| && prices[1..][i].ms == volumes[k].ms &&
                    rest[b] == Joined(prices[1..][i].ms, prices[1..][i].value, volumes[k].value);
        assert prices[1..][i] == prices[i + 1];
      }
    }
  }

  /** A later instant never falls on an earlier day. */
  lemma DayOfMillisMonotone(a: int, b: int)
    requires a <= b
    ensures UtcTime.DayOfMillis(a) <= UtcTime.DayOfMillis(b)
  {
  }

  /** Rows of a time-ordered join are in day order. */
  lemma ToRowsDayOrdered(js: seq<Joined>)
    requires JoinedTimeOrdered(js)
    ensures var rows := ToRows(js);
            forall a, b :: 0 <= a < b < |rows| ==> rows[a].day <= rows[b].day
  {
    var rows := ToRows(js);
    forall a, b | 0 <= a < b < |rows|
      ensures rows[a].day <= rows[b].day
    {
      DayOfMillisMonotone(js[a].ms, js[b].ms);
    }
  }

  /** Deduplicating rows in day order leaves rows in strictly increasing day order. */
  lemma DropDuplicateDaysOfDayOrdered(rows: seq<Row>)
    requires forall a, b :: 0 <= a < b < |rows| ==> rows[a].day <= rows[b].day
    ensures var out := DropDuplicateDays(rows);
            forall k, l :: 0 <= k < l < |out| ==> out[k].day < out[l].day
  {
    var out, idx := DropDuplicateDays(rows), LastIndicesFrom(rows, 0);
    KeepLastFromAt(rows, 0);
    forall k, l | 0 <= k < l < |out|
      ensures out[k].day < out[l].day
    {
      assert out[k] == rows[idx[k]] && out[l] == rows[idx[l]];
      assert idx[k] < idx[l];
      assert out[k].day != out[l].day;
    }
  }

  /**
   * When the price series is in time order, the rows `process_market_data`
   * produces are in strictly increasing date order.
   */
  lemma ProcessTimeOrderedIsDateOrdered(payload: Payload)
    requires TimeOrdered(payload.prices.GetOr([]))
    ensures var r := ProcessMarketData(payload);
            r.Success? ==> forall k, l :: 0 <= k < l < |r.value| ==> r.value[k].day < r.value[l].day
  {
    var prices, volumes := payload.prices.GetOr([]), payload.totalVolumes.GetOr([]);
    if |prices| > 0 && |volumes| > 0 {
      var js := Join(prices, volumes);
      JoinTimeOrdered(prices, volumes);
      ToRowsDayOrdered(js);
      DropDuplicateDaysOfDayOrdered(ToRows(js));
      assert ProcessMarketData(payload) == Success(DropDuplicateDays(ToRows(js)));
    }
  }
}
