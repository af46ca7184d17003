# CollaborativeFilter matrix finalisation, modelled in Dafny

This project models the in-memory core of `CollaborativeFilter`, the item-item
collaborative-filtering trainer of the `ranking` repository:

- **Symmetry expansion** (`finalizeMatrix`). The accumulated co-occurrence table is
  upper-triangular: every key `(r, c)` has `r <= c`. It is copied into a new table.
  Each cell is stored, and each off-diagonal cell is also stored transposed.
- **Finalisation order** (`finalizeMatrix`). Expansion comes first. The cosine
  transform always runs next. Row normalisation runs last, and only when the filter's
  `rowNorm` flag is set.
- **Per-player threshold filter** (`processPlayer`). It keeps the items whose rating is
  at least the threshold, in array order, with duplicates kept. That list goes to the
  emitter.
- **One-shot `Builder`**. Each setter writes one field of the filter being built.
  `build()` hands the filter out and clears the builder's reference. After that, every
  call fails on the null reference.

Tables are immutable maps from `(row, column)` item pairs to values (`Tables.Table`).
Item ids are a subset type of `int` with the Java `long` range. Java exceptions and
null references become `Wrappers.Result` failures (`Config.Fault.NullPointer`).

Modules:

- `Wrappers`: `Option` and `Result`.
- `Tables`: keys, tables, the upper-triangular and symmetric predicates, and transpose
  sets.
- `Expansion`: the copy loop of `finalizeMatrix` and its order-free meaning.
- `Pipeline`: `finalizeMatrix` as a whole.
- `Config`: the filter's fields and the constructor.
- `Builder`: the builder and its call sessions.
- `Players`: `processPlayer` and the merge fold.

Guava's `cellSet()` iteration order is not specified, so the copy loop takes the
visiting order as a parameter (`cells`). The expansion results are proved for every
such order. `TableUtils.computeCosine`, `TableUtils.rowNormalize`,
`TableUtils.mergeInto` and `Emitter.emit` are not part of this model. They are
passed in as opaque functions, and nothing is assumed about them.

Facts about the code that the model keeps:

- The emitter receives the filtered list with duplicates kept.
- A fresh filter's threshold is Java's field default `0.0`. The value `0.5` is set only in `main`.
- `withEmitter(null)` is accepted and clears the emitter field, so a later `processPlayer` fails on the null reference.
- `finalizeMatrix` does not check that its input is upper-triangular. Without that property, the expansion's result depends on the iteration order (`Expansion.LaterWriteWins`).

## Model

| member | source | states |
|---|---|---|
| Expansion.PutCell | src/main/java/com/wesleykerr/ranking/CollaborativeFilter.java:153-156 | one loop step stores the cell, and its transpose only when off the diagonal, with the same value; every other stored cell is unchanged |
| Expansion.ExpandInOrder | src/main/java/com/wesleykerr/ranking/CollaborativeFilter.java:151-157 | for any input and any visiting order, the result's key set is exactly the visited keys plus the transposes of the visited off-diagonal keys |
| Expansion.ExpandInOrderValues | src/main/java/com/wesleykerr/ranking/CollaborativeFilter.java:152-156 | on an upper-triangular table, each result cell holds the value the order-free expansion assigns it, for any visiting order |
| Expansion.ExpandInOrderIsExpand | src/main/java/com/wesleykerr/ranking/CollaborativeFilter.java:146-157 | on an upper-triangular table, every iteration order of the cell set yields the same table, the order-free expansion |
| Expansion.Expand | src/main/java/com/wesleykerr/ranking/CollaborativeFilter.java:146-157 | every input cell keeps its value; on an upper-triangular table every off-diagonal cell (r, c, v) also appears as (c, r, v), and the result is symmetric: every stored (a, b) has (b, a) with the same value |
| Expansion.ExpandCardinality | src/main/java/com/wesleykerr/ranking/CollaborativeFilter.java:152-157 | on an upper-triangular table, the expanded cell count is the input count plus the number of off-diagonal input cells |
| Expansion.LaterWriteWins | src/main/java/com/wesleykerr/ranking/CollaborativeFilter.java:152-156 | for any input and any visiting order, the value left at a key is the value of the last visited cell that writes it, which is the later of that key and its transpose |
| Expansion.OrderMattersWithoutTriangularity | src/main/java/com/wesleykerr/ranking/CollaborativeFilter.java:146-156 | on the two-cell table {(1, 2): 10, (2, 1): 20}, the two visiting orders leave different values (20 and 10) at (1, 2) |
| Tables.ExpandedKeysCardinality | src/main/java/com/wesleykerr/ranking/CollaborativeFilter.java:154-156 | the transposes of upper-triangular off-diagonal keys are new and distinct, so each one adds exactly one key |
| Pipeline.Plan | src/main/java/com/wesleykerr/ranking/CollaborativeFilter.java:159-162 | the cosine step runs first and exactly once; row normalisation runs at most once, and only after it, exactly when the flag is set |
| Pipeline.FinalizeMatrix | src/main/java/com/wesleykerr/ranking/CollaborativeFilter.java:145-163 | the result is the planned stages applied to the expanded table; on an upper-triangular input this is independent of the iteration order |
| Players.QualifyingAppend | src/main/java/com/wesleykerr/ranking/CollaborativeFilter.java:129-134 | filtering distributes over concatenation, so the relative order is kept and no item is merged or dropped |
| Players.QualifyingMembership | src/main/java/com/wesleykerr/ranking/CollaborativeFilter.java:131-132 | an item is in the list exactly when one of its ratings is at least the threshold (ties included) |
| Players.QualifyingKeepsAll | src/main/java/com/wesleykerr/ranking/CollaborativeFilter.java:128-133 | when every rating qualifies, the list is every item in array order, with duplicates kept |
| Players.QualifyingDropsAll | src/main/java/com/wesleykerr/ranking/CollaborativeFilter.java:128-133 | when no rating qualifies, the list is empty |
| Players.SelectItems | src/main/java/com/wesleykerr/ranking/CollaborativeFilter.java:128-134 | the appending loop computes exactly the qualifying items in order |
| Players.ProcessPlayer | src/main/java/com/wesleykerr/ranking/CollaborativeFilter.java:126-136 | the emitter receives exactly the qualifying item list, and its table is returned; an unset emitter fails with a null reference |
| Players.Accumulate | src/main/java/com/wesleykerr/ranking/CollaborativeFilter.java:103-108 | each player's emitted table is merged in turn into a table that starts empty; an unset emitter fails as soon as there is one player |
| Config.Fresh | src/main/java/com/wesleykerr/ranking/CollaborativeFilter.java:56-58 | a new filter has row normalisation off, no emitter and threshold 0 |
| Builder.Create | src/main/java/com/wesleykerr/ranking/CollaborativeFilter.java:63-65 | a new builder holds a fresh filter |
| Builder.WithEmitter | src/main/java/com/wesleykerr/ranking/CollaborativeFilter.java:67-70 | sets only the emitter, to the given value or to null, and leaves the other fields unchanged; fails exactly when the builder has already built |
| Builder.WithRowNorm | src/main/java/com/wesleykerr/ranking/CollaborativeFilter.java:72-75 | sets only the row-normalisation flag; fails exactly when the builder has already built |
| Builder.WithThreshold | src/main/java/com/wesleykerr/ranking/CollaborativeFilter.java:77-80 | sets only the threshold; fails exactly when the builder has already built |
| Builder.Build | src/main/java/com/wesleykerr/ranking/CollaborativeFilter.java:82-87 | returns the held filter and clears the reference; fails the non-null check exactly when it is already cleared |
| Builder.SpentSessionFails | src/main/java/com/wesleykerr/ranking/CollaborativeFilter.java:68-85 | after `build()`, any further call fails |
| Builder.SessionOneShot | src/main/java/com/wesleykerr/ranking/CollaborativeFilter.java:60-92 | a call sequence succeeds exactly when nothing follows a `build()`; at most one filter is built, and for each field it carries the last value written before `build()` |
| Builder.BuildChain | src/main/java/com/wesleykerr/ranking/CollaborativeFilter.java:56-92 | a chain of setters followed by `build()` builds exactly one filter, configured by last-write-wins; row normalisation stays off unless it is set |

## Left out

- `processPlayers`: the JSON line parsing, the `BufferedReader` loop and the progress logging are left out. Its loop guard `in.ready()` depends on stream buffering, and it can skip the final line. `Players.Accumulate` keeps only the merge fold, over players that are already decoded.
- JSON decoding in `processPlayer` (`getAsJsonArray`, `getAsDouble`, `getAsLong`) is left out, together with its exceptions on malformed records. The model starts from decoded `(item, rating)` entries.
- `TableUtils.computeCosine`, `TableUtils.rowNormalize`, `TableUtils.mergeInto` and `Emitter.emit` are not part of this model. They are opaque function parameters, and their floating-point arithmetic is not specified.
- `run`, `getOptions`, `printHelp` and `main` are left out. They are file and gzip stream selection, CSV output through `TableUtils.writeCSVMatrix`, and command-line handling.
- Guava table iteration order is not modelled. Every visiting order of the cell set is allowed, and log4j logging is left out.
- Ratings and the threshold are `real`s, not IEEE doubles. A NaN rating, which never satisfies `>=`, is not modelled.
- Builder.WithEmitter: returns the updated builder value, so the source's "returns the same builder object" (object identity) is not stated.
- Builder.WithRowNorm: returns the updated builder value; object identity is not stated.
- Builder.WithThreshold: returns the updated builder value; object identity is not stated.
- The input table is never changed by the expansion. This holds because the model is purely functional, so no separate contract states it.
