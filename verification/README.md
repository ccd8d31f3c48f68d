# snap-o-matic retention selector in Dafny

snap-o-matic takes a fresh snapshot of an Exoscale compute instance's volume.
It then lists the instance's snapshots and deletes those its retention policy
does not keep. The policy gives five counts: hourly, daily, weekly, monthly
and yearly. This project models the pure logic of `main.go` and proves what
that logic guarantees.

- **Selector** (`categorizeSnapshots`, `retainForTimeframe`). Snapshots are
  sorted newest first. Five timeframes are then walked in a fixed order: 1h,
  24h, 7d, 30d and 365d. Each timeframe greedily retains snapshots that no
  earlier timeframe claimed. Each retained snapshot must be more than
  `T - T/10` older than the previous one kept by the same timeframe. A
  timeframe stops once it reaches its limit. All timeframes share one set of
  retained ids. Modules `Retention` (functional) and `RetentionLoop` (the
  loops as written, proved equal to the functional model).
- **Instance filter** of `getSnapshots`. Module `Snapshots`.
- **Keep/delete partition** of `cleanupSnapshots`. Module `Cleanup`.
- **Credentials line parser** of `apiCredentialsFromFile`. It runs over the
  file's lines and returns either an error with a 1-based line number or an
  `(apiKey, apiSecret)` pair. Module `Credentials`.
- `Seqs` holds the order-preserving filter that the instance filter and the
  cleanup share. `Wrappers` holds `Option` and `Result`. `Scenarios` holds
  concrete runs.

Timestamps are `int` nanoseconds and snapshot ids are strings. `sort.Slice`
is not stable. For that reason the selector takes, besides the input list,
an `order`: any permutation of the input with creation times that never
increase (`IsNewestFirstOrder`). Nothing is assumed about the order of ties.
`SortNewestFirst` is one such order. It shows that every input has one, and
`CategorizeSnapshotsLoop` uses it. The code sorts the caller's slice in
place; `CategorizeSnapshotsLoop` returns the sorted order instead, and the
cleanup walks that same order.

## Behaviour one might not expect

- **A limit of 0 still keeps one snapshot.** The limit is tested only after
  a retention (main.go:264-268). Each timeframe therefore keeps
  `max(limit, 1)` snapshots at most, and at least one while unclaimed
  snapshots remain. An all-zero policy keeps `min(5, #ids)` snapshots, not
  none (`Retention.ZeroPolicyStillRetains`).
- **The result depends on the order in which ties are listed.** `sort.Slice`
  is deterministic, but it is not stable, so snapshots with equal timestamps
  keep whatever relative order the sort leaves them in, and that depends on
  the order in which the provider lists them. Take six snapshots with the
  same timestamp, under an all-zero policy, listed in one order and then in
  the reverse order. Which one is deleted depends on that listing
  (`Scenarios.TieOrderDecidesDeletion`). So the selection is a function of
  the listed sequence, not of the set of snapshots.
- **Policy {hourly: 2, daily: 1} over now, -30m, -90m and -25h keeps all
  four.** The hourly timeframe keeps now and -90m. The daily timeframe then
  keeps -30m, the newest unclaimed snapshot. The weekly timeframe has limit 0
  but still keeps -25h (`Scenarios.HourlyTwoDailyOne`).

## Model

| member | source | states |
|---|---|---|
| Snapshots.SnapshotsOfInstance | main.go:204-210 | the result holds exactly the listed snapshots of the given instance, each as many times as it is listed, in list order |
| Snapshots.SnapshotsOfInstanceAppend | main.go:206-210 | filtering a concatenation filters each part and keeps the parts in order |
| Snapshots.SnapshotsOfInstanceIdempotent | main.go:206-210 | filtering an already filtered list changes nothing |
| Snapshots.SortNewestFirst | main.go:217-220 | the result is a permutation of the input with creation times that never increase, so the selector always has an order to walk |
| Snapshots.OrderKeepsIds | main.go:218-220 | a newest-first order has the input's length and ids |
| Retention.Margin | main.go:247 | no contract; specified by Retention.MarginIsExactTenth |
| Retention.MarginIsExactTenth | main.go:247 | for each of the five timeframes the margin times ten is the interval, so truncating `float64(d) * 0.1` loses nothing, and the margin lies strictly between 0 and the interval |
| Retention.Admits | main.go:259 | no contract; specified by Retention.Picks, Retention.PicksSnoc and Retention.PicksAreMaximal |
| Retention.Timeframes | main.go:225-235 | five timeframes with positive, strictly increasing whole-hour intervals, and limits hourly, daily, weekly, monthly, yearly in that order |
| Retention.Picks | main.go:246-270 | one timeframe's picks number at most `max(limit - count, 1)`, come from the walk, have unclaimed and pairwise distinct ids, the first is admitted by the anchor, and each later one is more than `T - T/10` older than the one before |
| Retention.RetainForTimeframe | main.go:246-270 | the shared set only grows, gains only ids of the walk and at most `max(limit, 1)` of them, and stays unchanged exactly when every snapshot was already claimed |
| Retention.UnclaimedIsPicked | main.go:248-262 | with no anchor yet, a timeframe retains something if and only if an unclaimed snapshot remains |
| Retention.FirstUnclaimedIsFirstPick | main.go:253-262 | the first pick is the first unclaimed snapshot of the walk |
| Retention.NewestUnclaimedRetained | main.go:218-262 | on a newest-first walk, the first pick is the newest unclaimed snapshot and its id joins the set |
| Retention.NewestUnclaimedRetainedAnyOrder | main.go:253-262 | in any walk, the first unclaimed snapshot's id joins the set |
| Retention.PicksInWalkOrder | main.go:253-270 | a timeframe's picks are a subsequence of the walk |
| Retention.PicksSnoc | main.go:253-270 | extending the walk by one snapshot adds it to the picks exactly when the limit is not yet reached, its id is neither claimed nor already picked, and it is old enough next to the latest pick (or the anchor); otherwise the picks stay as they were |
| Retention.PicksPrefix | main.go:253-270 | the picks of a prefix of the walk are a prefix of the walk's picks: later snapshots never undo earlier retentions |
| Retention.PicksAreMaximal | main.go:253-270 | at every index of the walk, a snapshot that is below the limit, unclaimed, not already picked and admitted by the anchor in force there (the latest earlier pick, or the anchor) is the walk's next pick; any other snapshot is passed over |
| Retention.RetainAll | main.go:237-240 | after the timeframes run in order, the shared set contains the starting set, gains only ids of the walk, and grows by at most the sum of the caps |
| Retention.AllClaimedIsFixpoint | main.go:253-256 | once every id of the walk is claimed, later timeframes change nothing |
| Retention.PicksPerTimeframe | main.go:237-240 | the per-timeframe picks, one list per timeframe, whose ids together are exactly what the timeframes add to the shared set |
| Retention.EachTimeframeSeesEarlierClaims | main.go:237-240 | timeframe k walks with the ids claimed by timeframes 0..k-1 already in the set |
| Retention.EachTimeframeCappedAndSpaced | main.go:259-268 | every timeframe keeps at most `max(limit, 1)` snapshots, spaced more than its interval minus the margin apart |
| Retention.EachTimeframeClaimsFresh | main.go:237-256 | every timeframe picks from the walk, in walk order, and never an id that was in the set when the selector started or that an earlier timeframe picked |
| Retention.TimeframesClaimDisjointly | main.go:238-262 | no two timeframes claim the same id |
| Retention.CategorizeSnapshots | main.go:216-243 | the retained ids are ids of the input, empty exactly for empty input, and at most the sum of `max(limit, 1)` over the five timeframes |
| Retention.CategorizeSnapshotsByTimeframe | main.go:216-243 | the retained set is the union of the five timeframes' picks, which are capped, spaced, drawn in walk order from the input, pairwise disjoint, each made with the earlier claims in place |
| Retention.SmallLimitsRetainOneEach | main.go:264-268 | with every limit at most one, the set grows by exactly one id per timeframe until no ids are left |
| Retention.SmallLimitTakesNext | main.go:259-268 | with distinct ids and a limit of at most one, a timeframe claims exactly the next snapshot of the walk |
| Retention.SmallLimitsTakeInWalkOrder | main.go:237-268 | with distinct ids and limits at most one, the timeframes claim the walk's snapshots one each, in walk order |
| Retention.ZeroPolicyStillRetains | main.go:226-268 | a policy with every count at most one, including all zero, keeps exactly `min(5, #distinct ids)` snapshots |
| RetentionLoop.RetainForTimeframeLoop | main.go:246-271 | the loop with skip and break computes the functional `RetainForTimeframe` |
| RetentionLoop.CategorizeSnapshotsLoop | main.go:216-243 | sorting and then running the five timeframe loops over one mutable set gives a newest-first order and the functional result for it |
| Cleanup.SnapshotsToDelete | main.go:274-281 | the deletion list holds exactly the snapshots whose id is not retained, each as often as listed, in list order |
| Cleanup.SnapshotsKept | main.go:275-279 | the snapshots left are exactly those with a retained id |
| Cleanup.CleanupPartitions | main.go:275-279 | deleted plus kept is the whole list as a multiset, and the two share no id |
| Cleanup.CleanupLeavesExactlyRetained | main.go:166-170 | after the selector and the cleanup run on the same sorted list, the kept ids are exactly the retained set and the deleted ids are every other id |
| Credentials.Split | main.go:331 | no contract; specified by Credentials.SplitCount, Credentials.SplitPiecesClean, Credentials.SplitJoinsBack and Credentials.SplitJoin |
| Credentials.LowerRune | main.go:337 | no contract; specified by Credentials.LowerRuneSpells and Credentials.ToLowerIdempotent |
| Credentials.ToLower | main.go:337 | no contract; specified by Credentials.ToLowerMatches, Credentials.ReadsKeyIff and Credentials.ToLowerIdempotent |
| Credentials.LowerRuneSpells | main.go:337 | a rune lower-cases to a given lower-case ASCII letter or `_` exactly when it is that rune, its ASCII capital, or (for `k` and `i`) KELVIN SIGN or the dotted capital I |
| Credentials.ToLowerMatches | main.go:337 | a key lower-cases to a lower-case ASCII word exactly when it spells that word rune by rune in a spelling `strings.ToLower` maps to it: the letter, its ASCII capital, KELVIN SIGN for `k` and U+0130 for `i` |
| Credentials.ToLowerIdempotent | main.go:337 | lower-casing keeps the length, leaves no A-Z, KELVIN SIGN or dotted capital I, and a second pass changes nothing |
| Credentials.ReadLine | main.go:331-346 | no contract; specified by Credentials.KeyValueLine and Credentials.FormatNeedsOneEquals |
| Credentials.ParseFrom | main.go:324-347 | no contract; specified by Credentials.ParseFromMeetsSpec |
| Credentials.ParseCredentialLines | main.go:319-349 | no contract; specified by Credentials.ParseCredentialLinesMeetsSpec |
| Credentials.SplitCount | main.go:331-332 | `strings.Split` on `=` yields one more piece than the line has `=` |
| Credentials.SplitPiecesClean | main.go:331 | no piece holds a `=` |
| Credentials.SplitJoinsBack | main.go:331 | joining the pieces with `=` gives back the line |
| Credentials.SplitJoin | main.go:331-335 | splitting pieces joined by `=` gives the pieces back when none holds `=` |
| Credentials.ParseFromMeetsSpec | main.go:324-349 | the loop from any line on succeeds iff every line is accepted, returns the last value given to each key, and otherwise reports the first bad line and its kind |
| Credentials.ParseFromRejects | main.go:331-346 | a rejected line after accepted ones ends the loop with the error of its kind, numbered from 1, and is the file's first bad line |
| Credentials.ParseCredentialLinesMeetsSpec | main.go:319-349 | a file is accepted iff every line assigns `api_key` or `api_secret`. Then each credential is the value from the last line assigning it, or "". Otherwise the error names the first bad line and says whether its format or its key was wrong |
| Credentials.KeyValueLine | main.go:331-346 | a line `key=value` without another `=` is read by its lower-cased key |
| Credentials.FormatNeedsOneEquals | main.go:331-334 | a line is a format error iff it does not hold exactly one `=` |
| Credentials.EmptyLineRejected | main.go:331-334 | an empty line after accepted ones is a format error naming its 1-based line |
| Credentials.ValueWithEqualsRejected | main.go:331-334 | a value that contains `=` is a format error naming its line |
| Credentials.ReadsKeyIff | main.go:331-346 | for every key and value without `=`, the line sets the API key exactly when the key is a spelling `strings.ToLower` maps to `api_key` (ASCII capitals, KELVIN SIGN for `k`, U+0130 for `i`), sets the secret exactly when it is one for `api_secret`, and is a key error otherwise |
| Credentials.LongSIsNotS | main.go:337 | a key spelling `s` as U+017F is a key error: `strings.ToLower` keeps the long s, although `strings.EqualFold` would match it |
| Credentials.KeysIgnoreCase | main.go:337-343 | `API_Key` and `Api_Secret` are accepted, and so is a key spelled with KELVIN SIGN |
| Credentials.LaterLineOverwrites | main.go:337-339 | appending an `api_key` line sets the key to its value and leaves the secret alone |
| Credentials.UnassignedFieldIsEmpty | main.go:319-320 | a field that no line assigns keeps its empty default |
| Credentials.MissingKeyIsEmpty | main.go:319-349 | a file that only sets the secret is accepted with an empty API key |
| Scenarios.HourlyTwoDailyOne | main.go:216-243 | policy {2, 1, 0, 0, 0} over now, -30m, -90m and -25h keeps all four snapshots |
| Scenarios.TieOrderDecidesDeletion | main.go:218-220 | two newest-first orders of the same six tied snapshots, one for each order the provider may list them in, lead to different deletions |

## Left out

- The provider calls `CreateSnapshot`, `ListSnapshots`, `DeleteSnapshot` and
  `Wait`, and the dry-run switch around them. They are network I/O against a
  library outside this model. The orchestration in `processInstance` and
  `main` sequences those calls. Only its pure data flow appears, in
  `Cleanup.CleanupLeavesExactlyRetained`.
- `os.Exit` on the first failing instance. It is process control.
- YAML loading, flag parsing, the log-level switch and the environment
  lookup of the API endpoint. These are library wrappers and I/O.
- Opening the credentials file and `bufio.Scanner`'s line splitting. The
  parser takes the lines as given. It does not model the scanner's error
  check, its trailing `\r` removal or its line-length limit. A line over
  that limit makes `Scan` return false with `bufio.ErrTooLong`; the loop then
  ends, and because `s.Err()` is only checked inside the loop, after a
  successful `Scan` (main.go:325-327), the function returns the credentials read so far with
  a nil error.
- The margin's floating-point computation. It is modelled as `T / 10`. For
  the five intervals, all whole hours, this equals `float64(T) * 0.1`
  truncated.
- Go's zero `time.Time` as the "nothing retained yet" marker. The model uses
  `Option`. In the code, a snapshot created exactly at Go's zero time would
  leave the anchor looking unset.
- `Snapshots.SnapshotsOfInstance` assumes every listed snapshot names its
  instance. If the provider omitted that reference, the code would
  dereference a nil pointer.
- `Credentials.LowerRune` is exact only for runes whose lower case is an
  ASCII letter. Other runes are left unchanged, and that never changes
  whether a key matches. Invalid UTF-8 in a key or value is not modelled:
  a `string` here is a sequence of runes, while the code passes a value's
  bytes through as they are.
- `Snapshots.SortNewestFirst` is one newest-first order, not `sort.Slice`'s
  algorithm. The selector's properties are proved for every such order.
- All printing and logging.
- The in-place reordering of the caller's slice by `sort.Slice`. The model
  returns the new order instead and does not model the caller's slice
  changing under it.
