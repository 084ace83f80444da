# DeFi analytics pipeline — Dafny model of the extract stage

The repository holds two extract-transform-load scripts: one pulls a week of
daily price and volume history for a coin from a price-history API and
writes it as CSV, the other walks the most recent blocks of an Ethereum node
and writes one CSV row per block. This project models the decision logic of
both scripts and proves what it guarantees:

- **Market-data retry policy** (`fetch_market_data`) — module `MarketFetch`.
  The endpoint is replaced by the sequence of outcomes its successive
  requests produce (a decoded response, an HTTP error status, or another
  request-library failure). The model returns the payload, the raised error
  or Python's implicit `None`, together with the number of requests made and
  the number of five-second pauses taken.
- **Market-data normaliser** (`process_market_data`) — module `MarketProcess`.
  This covers the missing-series check, the inner join of the price and
  volume series on their millisecond timestamps, the conversion of each
  timestamp to a UTC day, and the keep-last removal of rows that share a day.
- **Block-window extractor** (`extract_block_data`) and the empty-list guard of
  the on-chain `save_to_csv` — module `OnchainExtract`. The node is replaced
  by a function from block number to `Option<Block>`, where `None` is a failed
  request. The model covers the window clamped at block 0 and walked from the
  head downward, the skip-on-failure fold, and the per-block field mapping.
- `UtcTime` holds the calendar arithmetic both scripts use: the UTC day of a
  millisecond instant, and the split of a Unix second into a day and
  `hh:mm:ss`. `Seqs` holds `FilterMap`, the keep-the-successes fold that the
  join and the extractor share. `Wrappers` holds `Option` and `Result`.

Days are day numbers counted from 1970-01-01. Prices, volumes and gwei are
exact reals.

Facts about the code that shape the model:

- The code never sorts the market rows by date. They keep the join's order.
  When the price series is in time order, that order is also strictly
  increasing by date (`ProcessTimeOrderedIsDateOrdered`).
- The extractor makes `min(num_blocks, latest + 1)` requests when
  `num_blocks >= 1`, and none otherwise. The start block is clamped at 0.
- Inside the per-block `try`, two conversions can raise. `datetime.fromtimestamp`
  raises for a timestamp after 9999-12-31 23:59:59 UTC. `from_wei` raises for
  a base fee above 2^256 - 1. Either exception skips the block, just as a
  failed fetch does.

## Model

| member | source | states |
|---|---|---|
| MarketFetch.FetchMarketData | defi-analytics-pipeline/extract_load/fetch_market_data.py:24-46 | At most `max_retries` requests are made. The result is `None` exactly when `max_retries <= 0`, which is also exactly when no request is made. Every request after the first is preceded by exactly one pause. |
| MarketFetch.Attempt | defi-analytics-pipeline/extract_load/fetch_market_data.py:24-46 | From any attempt on, the loop stays within the budget and pauses once per retry. It always returns or raises; it never falls through to `None`. |
| MarketFetch.ErrorOf | defi-analytics-pipeline/extract_load/fetch_market_data.py:30-46 | An HTTP error is re-raised with its status. Any other request failure is raised as a request error. |
| MarketFetch.FirstStop | defi-analytics-pipeline/extract_load/fetch_market_data.py:31-46 | Gives the index of the first outcome that ends the loop. Every earlier outcome is a 429 or a request error, and the outcome at that index is neither. |
| MarketFetch.FetchFollowsPolicy | defi-analytics-pipeline/extract_load/fetch_market_data.py:24-46 | For every outcome sequence and budget, the loop gives the same result, attempt count and pause count as a loop-free policy. In that policy the first non-retryable outcome within the budget decides; if there is none, the last attempt's error is raised. |
| MarketFetch.FetchReturnsFirstResponse | defi-analytics-pipeline/extract_load/fetch_market_data.py:24-29 | Suppose every attempt before attempt `k+1` was a 429 or a request error, and attempt `k+1` yields a response within the budget. Then that response's payload is returned unchanged after `k+1` requests and `k` pauses, and no further request is made. |
| MarketFetch.FetchReturnsOnlyResponses | defi-analytics-pipeline/extract_load/fetch_market_data.py:24-46 | Conversely, a returned payload is the payload of the last attempt made. That attempt lies within the budget, and every attempt before it was a 429 or a request error. |
| MarketFetch.FetchFailsFastOnHttpError | defi-analytics-pipeline/extract_load/fetch_market_data.py:30-40 | A non-429 HTTP error is raised at the attempt where it occurs. There is no pause for it and no further request. |
| MarketFetch.FetchExhaustsRetries | defi-analytics-pipeline/extract_load/fetch_market_data.py:31-46 | If every attempt within a positive budget is a 429 or a request error, all `max_retries` requests are made with `max_retries - 1` pauses. The last failure is then raised: a 429 as an HTTP error, anything else as a request error. |
| MarketFetch.RateLimitedTwiceThenOk | defi-analytics-pipeline/extract_load/fetch_market_data.py:24-37 | With a budget of three, the outcomes 429, 429, response return that response after three requests and two pauses. |
| MarketProcess.ProcessMarketData | defi-analytics-pipeline/extract_load/fetch_market_data.py:48-85 | Fails if and only if `prices` or `total_volumes` is absent or empty. On success, no day appears twice. The days present are exactly the UTC days of the timestamps shared by both series. Every row pairs the price and the volume of one shared timestamp. |
| MarketProcess.Join | defi-analytics-pipeline/extract_load/fetch_market_data.py:65 | The join is empty when either series is empty, and every joined row pairs a price point and a volume point with the same timestamp. Its own contract gives only this direction. `JoinMember` gives the converse, and `JoinAppend` gives the price-series order. |
| MarketProcess.JoinMember | defi-analytics-pipeline/extract_load/fetch_market_data.py:65 | Inner join: a row is in the join if and only if it pairs a price point and a volume point with the same timestamp. |
| MarketProcess.JoinAppend | defi-analytics-pipeline/extract_load/fetch_market_data.py:65 | The join follows the order of the price series. Joining a concatenation of price series gives the concatenation of the separate joins. |
| MarketProcess.JoinAligned | defi-analytics-pipeline/extract_load/fetch_market_data.py:61-65 | Take two series that carry the same distinct timestamps in the same order. Their join has one row per timestamp, and row `i` pairs price `i` with volume `i`. |
| MarketProcess.ToRows | defi-analytics-pipeline/extract_load/fetch_market_data.py:68-71 | Each joined row becomes one output row. Its day is the UTC day that contains the millisecond timestamp, and its price and volume are unchanged. |
| UtcTime.DayOfMillis | defi-analytics-pipeline/extract_load/fetch_market_data.py:68 | The day number `d` satisfies `d * 86_400_000 <= ms < (d + 1) * 86_400_000`. This is the floor, so instants before the epoch are included. |
| MarketProcess.LastIndicesFrom | defi-analytics-pipeline/extract_load/fetch_market_data.py:79 | Gives, in ascending order, exactly the positions of the rows that no later row shares a day with. |
| MarketProcess.DropDuplicateDays | defi-analytics-pipeline/extract_load/fetch_market_data.py:77-79 | There are no more output rows than input rows. Every kept row is an input row that no later row shares a day with, and no day is kept twice. Its own contract does not state order or completeness. `DropDuplicateDaysKeepsLast`, `DropDuplicateDaysLastWins` and `DropDuplicateDaysSameDays` give those. |
| MarketProcess.DropDuplicateDaysKeepsLast | defi-analytics-pipeline/extract_load/fetch_market_data.py:77-79 | The deduplicated rows are the rows at the last-of-day positions, in their original order, so the output is a subsequence of the input. |
| MarketProcess.DropDuplicateDaysSameDays | defi-analytics-pipeline/extract_load/fetch_market_data.py:77-79 | Deduplication loses no day: the output holds exactly the days of the input. |
| MarketProcess.DropDuplicateDaysLastWins | defi-analytics-pipeline/extract_load/fetch_market_data.py:77-79 | For each day, the last input row with that day is kept. It is the only output row with that day. |
| MarketProcess.ProcessTimeOrderedIsDateOrdered | defi-analytics-pipeline/extract_load/fetch_market_data.py:65-79 | When the price series is in time order, the output rows are in strictly increasing date order. |
| MarketProcess.JoinTimeOrdered | defi-analytics-pipeline/extract_load/fetch_market_data.py:65 | Joining a price series in time order gives joined rows in time order. |
| MarketProcess.KeptRowsFromSharedTimestamps | defi-analytics-pipeline/extract_load/fetch_market_data.py:65-79 | Every deduplicated row pairs the price and the volume of one timestamp that both series carry, and is dated by that timestamp's day. |
| MarketProcess.JoinedDaysAreShared | defi-analytics-pipeline/extract_load/fetch_market_data.py:65-68 | The days of the joined rows are exactly the days of the timestamps both series carry. |
| MarketProcess.ProcessSound | defi-analytics-pipeline/extract_load/fetch_market_data.py:61-79 | Join, day conversion and deduplication together give distinct days. Those days are exactly the shared timestamps' days, and every row comes from a shared timestamp. |
| UtcTime.FromUnixSeconds | defi-analytics-pipeline/extract_load/fetch_onchain_data.py:57 | A Unix second splits into a day and `hh < 24`, `mm < 60`, `ss < 60` with `day*86400 + hh*3600 + mm*60 + ss` equal to it. |
| UtcTime.FromUnixSecondsInverse | defi-analytics-pipeline/extract_load/fetch_onchain_data.py:57 | The split is unique: splitting the seconds of any valid day and clock time gives that day and clock time back. |
| OnchainExtract.StartBlock | defi-analytics-pipeline/extract_load/fetch_onchain_data.py:45-47 | The start block is `max(latest - num_blocks + 1, 0)`. |
| OnchainExtract.RangeDown | defi-analytics-pipeline/extract_load/fetch_onchain_data.py:51 | Python's `range(first, stop, -1)` has `max(first - stop, 0)` elements, and element `i` is `first - i`. |
| OnchainExtract.Window | defi-analytics-pipeline/extract_load/fetch_onchain_data.py:45-51 | The requested block numbers run from `latest` down to the start block, strictly descending and none negative. They are exactly the numbers between the start block and `latest`. There are `min(num_blocks, latest + 1)` of them, or none when `num_blocks <= 0`. |
| OnchainExtract.GweiOf | defi-analytics-pipeline/extract_load/fetch_onchain_data.py:60-62 | The gwei value is 0 when the block has no `baseFeePerGas`. Otherwise it is the wei amount divided by 10^9. |
| OnchainExtract.ToRecord | defi-analytics-pipeline/extract_load/fetch_onchain_data.py:57-69 | A record exists if and only if the timestamp fits Python's `datetime` and any base fee is at most 2^256 - 1. The record copies the block number, counts the transactions, carries the UTC split of the timestamp, and carries the gwei base fee. |
| OnchainExtract.FetchRecord | defi-analytics-pipeline/extract_load/fetch_onchain_data.py:52-79 | One loop iteration gives a record if and only if the fetch succeeds, the timestamp converts and any base fee is at most 2^256 - 1. The record is that of the fetched block. |
| OnchainExtract.ExtractBlockData | defi-analytics-pipeline/extract_load/fetch_onchain_data.py:39-81 | The loop over the window returns the records of exactly the successful blocks, in request order. |
| OnchainExtract.ExtractedCount | defi-analytics-pipeline/extract_load/fetch_onchain_data.py:49-81 | There are at most as many records as requests. There are exactly as many if and only if no fetch or conversion fails. |
| OnchainExtract.ExtractedMember | defi-analytics-pipeline/extract_load/fetch_onchain_data.py:51-79 | A record is extracted if and only if it is the record of some block in the window that succeeds. A failing block is skipped, and no other block's record is lost. |
| OnchainExtract.RecordsDescend | defi-analytics-pipeline/extract_load/fetch_onchain_data.py:51-71 | If the block numbers requested descend strictly, the records of a consistent node come out with strictly descending block numbers. A consistent node returns, for each number, the block with that number. |
| OnchainExtract.ExtractedDescending | defi-analytics-pipeline/extract_load/fetch_onchain_data.py:45-71 | Records extracted from a consistent node have strictly descending block numbers. |
| OnchainExtract.SaveToCsv | defi-analytics-pipeline/extract_load/fetch_onchain_data.py:83-102 | A write happens if and only if the record list is non-empty. An empty list leaves the directory unchanged. Otherwise the named file holds exactly the records, and no other file changes. |

## Left out

- HTTP and RPC I/O (`requests.get`, `w3.eth.block_number`, `w3.eth.get_block`), the per-request timeout and `.env` loading: these are foreign calls. They become the outcome sequence, the `getBlock` function and the `latest` parameter.
- `connect_to_node`: it only checks that a setting is present and that a foreign handshake succeeds.
- `time.sleep(5)`: pauses are counted in `Trace.sleeps`, not timed.
- Logging, including the progress message every 20 records: it is observability only.
- pandas DataFrames, CSV serialisation, directory creation and path resolution. The market `save_to_csv` has no empty-list guard and is pure plumbing. The on-chain directory is modelled as a map from file name to records.
- The `float` casts: prices, volumes and gwei are exact reals.
- Turning a day number into a year-month-day string: dates stay as day numbers.
- The `main` orchestrators: they only chain the steps and log any exception.
- The fixed URL that ignores `coin_id`, and the query parameters: these are request construction, not logic.
- Exceptions that are not raised by the request library: only request-library failures, including a body that does not decode, are modelled outcomes.
- MarketProcess.Join: it follows the documented inner-join order of pandas 2.2 and later: price-series order, then volume order for each price point. Older pandas releases can group repeated price timestamps together instead. That also changes which row keep-last keeps. Take price points at t1, t2, t1 on one day, with volumes at t1 and t2. The model keeps the row from the second t1 price point, while older pandas keeps the t2 row. `JoinAppend` and `DropDuplicateDaysLastWins` hold of the modelled order.
- MarketProcess.ProcessMarketData: it does not model pandas' limited datetime range (roughly 1677 to 2262). Outside that range the conversion raises, and the model gives every integer millisecond a day.
- MarketProcess.ProcessMarketData: it does not model malformed pairs in the series, which make the DataFrame constructor raise.
- OnchainExtract.SaveToCsv: write failures are not modelled. `os.makedirs` can raise outside the `try`, and its error propagates. `to_csv` can raise inside it, and that error is caught and re-raised. In the model a write always succeeds.
- MarketFetch.FetchMarketData: it takes the budget as at most the length of the outcome sequence, because the endpoint answers every request made. It does not model what happens after `None` is returned to the caller.
