# proxymetrics — a Dafny model of `InvocationMetricsProxy`

`InvocationMetricsProxy` is a Java invocation handler. It sits behind a dynamic proxy of a target object and times every call made through that proxy. It keeps one running aggregate per interface method: a `LongSummaryStatistics` with count, sum, min and max of the elapsed nanoseconds. The aggregates can later be queried by method name or logged. A process-wide map links a caller-chosen marker to the handler, so the statistics can be found again without holding the proxy.

This project models the handler's bookkeeping and proves what it promises:

- `statistics.dfy` (module `Statistics`) models `LongSummaryStatistics` as a value `Stats`. A fresh aggregate has min `Long.MAX_VALUE` and max `Long.MIN_VALUE`. `Accept` folds one observation in. The `long` sum wraps around in two's complement, as Java's addition does.
- `method_table.dfy` (module `MethodTable`) gives the meaning of the `methodStats` table. It is a sequence of entries keyed by the method's `toString()` signature, in the table's iteration order. The module defines how the constructor builds the table (`Initial`), how a call changes it (`Record`, `Replay`), and what the query returns (`Matching`, `Query`). The lemmas prove the properties of each.
- `proxy.dfy` (module `ProxyMetrics`) holds the class `InvocationMetricsProxy`. Its constructor fills the table with nested loops. `Invoke`, `GetStatsForMethod` and the three `logStats` forms are its methods, each proved against the functions above. The class `MetricsRegistry` holds the static `objectProxyMap`, with `newInstance` and `getMetricsProxy`.

Reflection is replaced by data. A target is the list of its interfaces, and each interface lists its `Method`s by simple name and `toString()` signature. A call is named by its `Method`. The target's reaction is an `Outcome`: `Returned(value)` or `Threw`. The elapsed time the clock would measure is a parameter. The `null` that `invoke` returns after swallowing a failure is `None`. A `null` that the target itself returns is an ordinary value: the outcome is `Returned(v)` and `Invoke` yields `Some(v)`.

A failed target call is caught and logged. No timing is recorded and `invoke` returns `null`. `Invoke` returns `None` and leaves every statistic unchanged.

Calls the proxy routes for `hashCode`, `equals` and `toString` have signatures of `java.lang.Object`. Those are not among the interface methods, so they take the unregistered-signature path. Such a call returns the target's result and changes nothing.

## Model

| member | source | states |
|---|---|---|
| `Statistics.AcceptAllAggregates` | src/main/java/com/github/mbrun/proxymetrics/InvocationMetricsProxy.java:82 | folding observations into an aggregate adds their number to the count and their total (mod 2^64) to the sum; min and max only move outward, bracket every observation, and are either kept or taken from the observations |
| `Statistics.FromEmpty` | src/main/java/com/github/mbrun/proxymetrics/InvocationMetricsProxy.java:68 | from a fresh aggregate: count is the number of observations, min and max are attained observations, and with no observations the aggregate stays fresh |
| `Statistics.AverageWithinBounds` | src/main/java/com/github/mbrun/proxymetrics/InvocationMetricsProxy.java:58-61 | if the total fits a `long`, the reported average sum/count lies in [min, max] (stated as min·count ≤ sum ≤ max·count) |
| `MethodTable.Find` | src/main/java/com/github/mbrun/proxymetrics/InvocationMetricsProxy.java:80 | lookup by signature: the found entry has that key and no earlier one does; not found means no entry has that key |
| `MethodTable.PutIfAbsentEffect` | src/main/java/com/github/mbrun/proxymetrics/InvocationMetricsProxy.java:68 | `putIfAbsent` keeps keys unique, makes the method's signature a key, leaves existing entries untouched and only appends a zeroed entry |
| `MethodTable.InitialTable` | src/main/java/com/github/mbrun/proxymetrics/InvocationMetricsProxy.java:64-71 | the built table has unique keys, its keys are exactly the signatures of all interface methods, its size is the number of distinct signatures, and every entry is zeroed |
| `MethodTable.InitialKeys` | src/main/java/com/github/mbrun/proxymetrics/InvocationMetricsProxy.java:66-70 | the built table has unique keys, its keys are exactly the signatures of the listed methods, and every entry is zeroed |
| `MethodTable.InitialSize` | src/main/java/com/github/mbrun/proxymetrics/InvocationMetricsProxy.java:66-70 | the built table has exactly as many entries as there are distinct signatures |
| `MethodTable.InitialKeepsFirst` | src/main/java/com/github/mbrun/proxymetrics/InvocationMetricsProxy.java:66-70 | each entry holds the first method listed with its signature: a repeated signature keeps its first entry |
| `MethodTable.RecordUpdatesOnlyItsEntry` | src/main/java/com/github/mbrun/proxymetrics/InvocationMetricsProxy.java:80-83 | one timed call folds `elapsed` into exactly the entry keyed by its signature; keys and every other entry are unchanged; an unknown signature changes nothing |
| `MethodTable.ReplayFoldsEachEntry` | src/main/java/com/github/mbrun/proxymetrics/InvocationMetricsProxy.java:76-83 | after any sequence of successful calls, each entry's statistics are its old ones with exactly the durations of the calls to its own signature folded in, in call order; keys never change |
| `MethodTable.CountsMatchCalls` | src/main/java/com/github/mbrun/proxymetrics/InvocationMetricsProxy.java:78-83 | starting from the built table, each method's count equals the number of calls made to it, and its min and max bracket every duration measured for it |
| `MethodTable.ContainsIff` | src/main/java/com/github/mbrun/proxymetrics/InvocationMetricsProxy.java:100 | the `contains` test holds exactly when the searched name occurs at some position of the method name |
| `MethodTable.MatchingIsOrderedFilter` | src/main/java/com/github/mbrun/proxymetrics/InvocationMetricsProxy.java:99-107 | without stopping, the query result is exactly the table filtered by the match predicate: every result comes from a matching entry with its own signature and statistics, in table order, and no matching entry is missed |
| `MethodTable.MatchingPrefix` | src/main/java/com/github/mbrun/proxymetrics/InvocationMetricsProxy.java:101-105 | the hits found before the loop breaks are a prefix of all the hits |
| `MethodTable.FirstMatchOnly` | src/main/java/com/github/mbrun/proxymetrics/InvocationMetricsProxy.java:99-106 | with stop-on-first-match the result has at most one element; it is empty exactly when nothing matches, and otherwise it is the first matching entry in table order |
| `MethodTable.ExactQueryMatchesName` | src/main/java/com/github/mbrun/proxymetrics/InvocationMetricsProxy.java:100 | every result of an exact (non-contains) query comes from an entry whose method name equals the searched name |
| `MethodTable.EmptyNameMatchesAll` | src/main/java/com/github/mbrun/proxymetrics/InvocationMetricsProxy.java:100 | a contains-search for the empty name lists every entry of the table, in order |
| `ProxyMetrics.InvocationMetricsProxy.constructor` | src/main/java/com/github/mbrun/proxymetrics/InvocationMetricsProxy.java:64-71 | the nested loops over interfaces and their methods leave `methodStats` equal to the built table of all methods, and the object invariant holds |
| `ProxyMetrics.InvocationMetricsProxy.Invoke` | src/main/java/com/github/mbrun/proxymetrics/InvocationMetricsProxy.java:74-88 | a returned call yields the target's value and folds `elapsed` into the entry of its signature only; a thrown call yields null and changes nothing; keys never change |
| `ProxyMetrics.InvocationMetricsProxy.GetStatsForMethod` | src/main/java/com/github/mbrun/proxymetrics/InvocationMetricsProxy.java:96-109 | the loop with its early `break` returns exactly the query: all matches, or only the first when stopping on the first match |
| `ProxyMetrics.InvocationMetricsProxy.LogStats` | src/main/java/com/github/mbrun/proxymetrics/InvocationMetricsProxy.java:114-118 | one report block per table entry, in table order, headed by the entry's signature |
| `ProxyMetrics.InvocationMetricsProxy.LogStatsMatching` | src/main/java/com/github/mbrun/proxymetrics/InvocationMetricsProxy.java:136-141 | one report block per query result, in the query's order |
| `ProxyMetrics.InvocationMetricsProxy.LogStatsNamed` | src/main/java/com/github/mbrun/proxymetrics/InvocationMetricsProxy.java:125-127 | the same blocks as the exact-name, stop-on-first query form, hence at most one block |
| `ProxyMetrics.MetricsRegistry.constructor` | src/main/java/com/github/mbrun/proxymetrics/InvocationMetricsProxy.java:17 | the marker map starts empty |
| `ProxyMetrics.MetricsRegistry.NewInstance` | src/main/java/com/github/mbrun/proxymetrics/InvocationMetricsProxy.java:29-37 | returns a fresh handler with a freshly built table, and inserts it under the marker only if the marker is absent |
| `ProxyMetrics.MetricsRegistry.GetMetricsProxy` | src/main/java/com/github/mbrun/proxymetrics/InvocationMetricsProxy.java:43-45 | returns the handler registered under the marker, or empty exactly when the marker was never registered |
| `ProxyMetrics.FirstRegistrationWins` | src/main/java/com/github/mbrun/proxymetrics/InvocationMetricsProxy.java:35 | after any sequence of registrations, a marker is present exactly when some registration used it, and it then maps to the handler of the first such registration |

## Left out

- Java reflection and proxy creation (`Proxy.newProxyInstance`, `getInterfaces`, `getMethods`, `Method.invoke`, `Method.toString`) are replaced by the `Target`, `Method` and `Outcome` data. `NewInstance` returns the handler itself, not the generated proxy object.
- `System.nanoTime` is not modelled. The elapsed duration is a parameter of `Invoke`, and it is used only when the call returned, as in the code.
- SLF4J logging is not modelled. A report block is an abstract record of its preamble lines and a statistics snapshot. The separator line, the `label: value` formatting and the error line logged for a swallowed exception are left out.
- The average that `getAverage` returns is a `double`, and floating point is not modelled. It is stated only as sum/count bounds in `AverageWithinBounds`.
- `ConcurrentHashMap` thread safety and concurrent `accept` calls are not modelled. The model is single-threaded and sequential.
- The table's iteration order is taken as the order in which signatures were first registered. A real `ConcurrentHashMap` iterates in hash order. Every query and report property is stated relative to the table's order, so it holds for any fixed order.
- `GetStatsForMethod` returns snapshots of the statistics. The Java code returns the live, shared `LongSummaryStatistics` objects, which later calls keep updating. That aliasing is not modelled.
- Statistics.Accept: the count is an unbounded natural number and does not model the 64-bit wrap-around of `++count`. Reaching it would take 2^63 calls to one method.
- `Invoke` catches only `Exception`. Failures of the target reach it wrapped in `InvocationTargetException`, so every target failure is swallowed, and the model has just one `Threw` outcome. `Error`s raised by the reflection machinery itself are not modelled.
- Null arguments are not modelled, because names are strings and markers and targets are values. In Java a `null` marker or target makes the code throw `NullPointerException`. A `null` method name throws only in a contains search over a non-empty table (`contains(null)`). An exact search for a `null` name matches nothing, because `equals(null)` is false, so `getStatsForMethod` returns an empty list and `logStats(null)` logs nothing. Returning `null` for a primitive-typed interface method also fails when the proxy unboxes it, and that is not modelled either.
- The requirement that a marker's `hashCode` stays stable is a property of the Java runtime and is not modelled.
