# Church activity registration: team generator, server helpers and UI state

This project models three parts of a church activity registration system in Dafny.

**The balanced team generator** (`generateTeams`). It splits non-leader attendees into `N` teams, in these steps:

1. Bucket attendees by gender: exactly `"Male"`, exactly `"Female"`, and everything else as Other.
2. Sort each bucket by age, then interleave it: youngest, oldest, second youngest, and so on.
3. Place the attendees in one of two modes:
   - **Strict parity** (the default, or `parity: 'strict'`): every team gets its per-gender quota, shifted off three FIFO queues.
   - **Otherwise:** the buckets are merged round-robin and the merged list is dealt out, item `i` to team `i % N`.
4. Sort each team by age.
5. Rebalance: move the last member of a team above its target size to the first team below its target.

Two small pieces go with it:
- `statsForTeams` summarises each team: its size, mean age and a histogram of raw gender strings.
- `fullName` joins an attendee's first and last name.

**Three pure helpers of the backend:**
- the `Cookie` header parser;
- the download filename sanitiser;
- the zero-padded id field of invoice numbers.

**The frontend's global toast store and loading overlay.** It keeps a counter of outstanding loads, the visible toasts, and the toasts held back while the overlay is up.

Files (each is one module):

| file | module | models |
|---|---|---|
| `wrappers.dfy` | `Wrappers` | `Option` |
| `js_text.dfy` | `JsText` | the `\s` class, `trim`, `split` on one character, `join` |
| `attendees.dfy` | `Attendees` | attendees, gender buckets, the stable age sort, `interleaveAges` |
| `team_gen.dfy` | `TeamGen` | `generateTeams` and each of its steps, imperatively over an array of teams |
| `team_stats.dfy` | `TeamStats` | `statsForTeams`, `fullName` |
| `server_helpers.dfy` | `ServerHelpers` | `parseCookie`, `toSafeFilename`, the padding in `makeInvoiceNo` |
| `ui_state.dfy` | `UiState` | the toast store and loading overlay, as class `Ui` |

How the generator is modelled:
- The generator works on an `array<seq<Attendee>>` of teams that its methods fill, sort and rebalance in place.
- Each step method is proved against a function that specifies its result (`StrictTeams`, `LooseTeams`, `Dealt`, `MergeRounds`, `Quotas`).
- The lemmas prove what those functions promise: pooled members are preserved, quotas have the right shape, each bucket keeps its order, and the rebalancing loop terminates.

The toast store is a class whose fields are the module's state. Its invariant `Valid` says two things:
- nothing is pending unless the overlay is up;
- ids rise strictly across the visible toasts and then the pending ones.

## Model

| member | source | states |
|---|---|---|
| `TeamGen.TeamCount` | frontend/src/utils/teamGen.js:38 | `N` is 0 exactly when `teamCount < 1`; otherwise it is the integer part of `teamCount` |
| `TeamGen.GenerateTeams` | frontend/src/utils/teamGen.js:37-150 | There are exactly `N` teams. For `N > 0`: every attendee is in exactly one team (multiset equality). Team `i` has `floor(total / N)` members, plus one when `i < total % N` (with the corrected targets; see Findings). Teams whose assigned sizes are already settled come out unchanged, and in loose mode the result is the assigned teams |
| `TeamGen.BuildTeams` | frontend/src/utils/teamGen.js:39-147 | Placing, sorting and rebalancing the three ordered queues keeps every queued attendee, ends with sizes equal to the quotas of the total, and leaves settled teams (always the case in loose mode) as assigned |
| `Attendees.InBucket` | frontend/src/utils/teamGen.js:44-47 | Every attendee kept belongs to the bucket, and no more are kept than there are |
| `Attendees.BucketByGender` | frontend/src/utils/teamGen.js:43-47 | The one-pass `forEach` builds, for each bucket, the attendees of that bucket in roster order |
| `Attendees.BucketsPartition` | frontend/src/utils/teamGen.js:43-47 | The three buckets together hold every attendee exactly once |
| `Attendees.SortByAge` | frontend/src/utils/teamGen.js:52 | The result is sorted by age and is a permutation of the bucket |
| `Attendees.SortByAgeStable` | frontend/src/utils/teamGen.js:52 | The sort is stable: attendees of equal age keep their relative order |
| `Attendees.Interleaved` | frontend/src/utils/teamGen.js:15-28 | Interleaving keeps the length |
| `Attendees.Interleave` | frontend/src/utils/teamGen.js:15-28 | The two-index loop yields first, last, second, second-to-last, and so on, with the middle one once |
| `Attendees.InterleavedPermutation` | frontend/src/utils/teamGen.js:15-28 | Interleaving loses and adds nobody |
| `Attendees.InterleavedAt` | frontend/src/utils/teamGen.js:15-28 | Position `2k` holds entry `k`, and position `2k+1` holds entry `n-1-k` |
| `TeamGen.OrderBuckets` | frontend/src/utils/teamGen.js:43-54 | The three ordered buckets are bucket, sort, interleave of the roster, and together they hold the roster |
| `TeamGen.OrderedPartition` | frontend/src/utils/teamGen.js:43-54 | Sorting and interleaving each bucket still partitions the roster |
| `TeamGen.Quotas` | frontend/src/utils/teamGen.js:59-66 | There are `N` quotas, and quota `t` is `floor(count / N)` plus one when `t < count % N` |
| `TeamGen.QuotasFor` | frontend/src/utils/teamGen.js:59-66 | `quotasFor`'s loop over an array of `base`s yields exactly those quotas |
| `TeamGen.RaiseFirst` | frontend/src/utils/teamGen.js:62-64 | The loop `q[i % N]++` for `i < extras` over `N` copies of `base` raises exactly the first `extras` entries by one |
| `TeamGen.QuotasShape` | frontend/src/utils/teamGen.js:59-66 | Every quota is `base` or `base + 1`, and it is `base + 1` exactly for the first `count % N` teams |
| `TeamGen.QuotasPrefix` | frontend/src/utils/teamGen.js:59-66 | The first `t` quotas sum to `t * base + min(t, extras)` |
| `TeamGen.QuotasSum` | frontend/src/utils/teamGen.js:59-66 | The quotas sum to the count they split |
| `TeamGen.QuotasSpread` | frontend/src/utils/teamGen.js:124 | Any two quotas differ by at most one |
| `TeamGen.TestScriptSizes` | frontend/scripts/test-teamGen.mjs:14-23 | For the test roster of 6 Male, 8 Female and 1 Other over 3 teams, the per-gender quotas are [2, 2, 2], [3, 3, 2] and [1, 0, 0]. The strict fill gives sizes [6, 5, 4]. The sizes after rebalancing, the quotas of 15, are [5, 5, 5], and so are the targets as written |
| `TeamGen.TestRosterQuotas` | frontend/scripts/test-teamGen.mjs:14-15 | The quotas of 6, 8, 1 and 15 over 3 teams, and the as-written targets for 15 |
| `TeamGen.MoveFromQueue` | frontend/src/utils/teamGen.js:74-85 | `count` shifts push the queue's first `count` entries (fewer if it runs dry) onto one team and leave the rest queued; nobody is lost |
| `TeamGen.FillTeam` | frontend/src/utils/teamGen.js:74-85 | One team receives its Male, then Female, then Other quota from the queues; nobody is lost |
| `TeamGen.FillNext` | frontend/src/utils/teamGen.js:73-86 | One iteration of the team loop advances the fill invariant by one team |
| `TeamGen.ProgressStep` | frontend/src/utils/teamGen.js:73-86 | Appending team `t`'s quota runs to the empty slot `t` makes the first `t + 1` teams the strict teams, and advances the queues by the quotas |
| `TeamGen.FillStrict` | frontend/src/utils/teamGen.js:73-86 | Team `t` is its Male, Female and Other runs of the queues. The leftovers are what the quotas did not take. Teams plus leftovers are the three queues |
| `TeamGen.StrictTeamFromQueues` | frontend/src/utils/teamGen.js:73-86 | Team `t` is what the queues yield once the earlier teams have taken their quotas |
| `TeamGen.StrictTeamBuckets` | frontend/src/utils/teamGen.js:73-86 | Team `t`'s members of gender `b` are exactly that gender's run for team `t`, in queue order |
| `TeamGen.StrictTeamsLengths` | frontend/src/utils/teamGen.js:68-86 | In strict mode team `t` has exactly its Male quota plus its Female quota plus its Other quota |
| `TeamGen.StrictTeamLength` | frontend/src/utils/teamGen.js:73-86 | One strict team's size is the sum of its three quotas |
| `TeamGen.QuotaRunLength` | frontend/src/utils/teamGen.js:74-85 | Team `t`'s run of a queue, between the running sums of the quotas, is exactly its quota long |
| `TeamGen.StrictRunLength` | frontend/src/utils/teamGen.js:68-86 | With quotas from the queue length, team `t`'s run is exactly its quota long |
| `TeamGen.StrictFillLeavesNothing` | frontend/src/utils/teamGen.js:68-95 | The leftover list after the quota fill is always empty |
| `TeamGen.DealRoundRobin` | frontend/src/utils/teamGen.js:88-116 | Item `i` of the list is appended to team `i % N`, and teams get nothing else |
| `TeamGen.DealtLength` | frontend/src/utils/teamGen.js:112-116 | The round-robin deal gives team `t` exactly its quota of the list |
| `TeamGen.DealtSnoc` | frontend/src/utils/teamGen.js:112-116 | Dealing one more item gives it to team `k % N`, where `k` is the number of items already dealt, and to no other team |
| `TeamGen.DealtPermutation` | frontend/src/utils/teamGen.js:112-116 | The dealt teams together hold the list exactly |
| `TeamGen.ShiftOnto` | frontend/src/utils/teamGen.js:103-109 | A non-empty list moves its head onto `merged`, and `remaining` records whether members are left |
| `TeamGen.MergeLoopStep` | frontend/src/utils/teamGen.js:101-111 | One round of the merge loop keeps `merged` followed by the merge of what is left equal to the full merge |
| `TeamGen.MergeRoundRobin` | frontend/src/utils/teamGen.js:97-111 | The `while (remaining)` loop builds one Male, one Female, one Other per round, skipping exhausted lists, until all are empty |
| `TeamGen.MergeRoundsPermutation` | frontend/src/utils/teamGen.js:97-111 | The merged list holds the three lists exactly |
| `TeamGen.MergeRounds` | frontend/src/utils/teamGen.js:97-111 | The merged list is as long as the three lists together |
| `TeamGen.MergeRoundsKeepsOrder` | frontend/src/utils/teamGen.js:97-111 | Each gender's members appear in the merged list in their bucket's order |
| `TeamGen.TailUniform` | frontend/src/utils/teamGen.js:104-108 | Shifting a list of one gender leaves a list of that gender |
| `TeamGen.RoundInBucket` | frontend/src/utils/teamGen.js:103-110 | One merge round contributes exactly the head of each gender's list |
| `TeamGen.PlaceStrict` | frontend/src/utils/teamGen.js:57-95 | The strict branch leaves exactly the strict teams, which hold the three queues |
| `TeamGen.PlaceLoose` | frontend/src/utils/teamGen.js:96-116 | The loose branch leaves the merged list dealt round-robin, which holds the three queues |
| `TeamGen.Place` | frontend/src/utils/teamGen.js:56-117 | The chosen branch places every queued attendee once |
| `TeamGen.AssignTeams` | frontend/src/utils/teamGen.js:39-122 | `N` fresh teams, placed by the chosen mode and each sorted by age, hold the queues exactly |
| `TeamGen.SortEachTeam` | frontend/src/utils/teamGen.js:119-122 | Each team is replaced by its stable sort by age |
| `TeamGen.SortedTeamsLengths` | frontend/src/utils/teamGen.js:119-122 | Sorting each team keeps every team's size |
| `TeamGen.FlattenPointwise` | frontend/src/utils/teamGen.js:119-122 | Teams that are permutations of one another team by team pool the same members |
| `TeamGen.LooseTeamsLengths` | frontend/src/utils/teamGen.js:112-116 | The loose teams' sizes are the quotas of the merged list |
| `TeamGen.LoosePlacedAtQuotas` | frontend/src/utils/teamGen.js:97-122 | In loose mode the teams already have the balanced sizes before rebalancing |
| `TeamGen.SumLengths` | frontend/src/utils/teamGen.js:125 | The team sizes sum to the number of pooled members |
| `TeamGen.FirstUnder` | frontend/src/utils/teamGen.js:139 | The result is -1 exactly when no team is below its target; otherwise it is the first team below target |
| `TeamGen.MoveLast` | frontend/src/utils/teamGen.js:141-142 | `pop` then `push` moves team `i`'s last member to the end of team `j`; nobody is lost |
| `TeamGen.MoveLastKeepsMembers` | frontend/src/utils/teamGen.js:141-142 | Moving the last member of one team onto another keeps the pooled members |
| `TeamGen.MoveLastLowersExcess` | frontend/src/utils/teamGen.js:137-143 | A move from an over-target team to an under-target team lowers the total excess over target |
| `TeamGen.MoveLowersExcess` | frontend/src/utils/teamGen.js:137-143 | On sizes: such a move lowers the excess by exactly one |
| `TeamGen.RebalanceStep` | frontend/src/utils/teamGen.js:137-145 | A member moves exactly when team `i` is over target and some team is under. Then the last member of team `i` is pushed onto the first team under its target, nothing else changes, and the excess goes down. Otherwise nothing changes |
| `TeamGen.RebalancePass` | frontend/src/utils/teamGen.js:135-146 | A pass that moved someone lowered the excess. A pass that moved nobody left sizes where no team is over target or none is under. Settled teams are never touched |
| `TeamGen.Rebalance` | frontend/src/utils/teamGen.js:133-147 | The loop terminates with sizes that are settled against the targets, keeps every member, and leaves settled teams unchanged |
| `TeamGen.SettledAtTarget` | frontend/src/utils/teamGen.js:133-147 | Settled sizes with the same total as the targets are the targets |
| `TeamGen.RebalanceToQuotas` | frontend/src/utils/teamGen.js:125-147 | With the quotas of the total as targets, rebalancing ends with every team exactly at its quota and keeps every member |
| `TeamGen.UniformTargets` | frontend/src/utils/teamGen.js:128-130 | The targets as written: one per team |
| `TeamGen.TargetsAsWritten` | frontend/src/utils/teamGen.js:126-130 | Lines 126-130 as written compute `base + 1` for every team whenever `total % N > 0` |
| `TeamGen.UniformTargetsOvershoot` | frontend/src/utils/teamGen.js:125-130 | The targets as written sum to more than the total when `total % N > 0`, and otherwise equal the quotas |
| `TeamGen.AsWrittenLeavesGap` | frontend/src/utils/teamGen.js:125-147 | Sizes [2, 2, 0] are settled against the targets as written ([2, 2, 2]) but not against the quotas ([2, 1, 1]) |
| `TeamGen.StrictFillTwoAndTwo` | frontend/src/utils/teamGen.js:59-86 | The strict fill of 2 Male and 2 Female attendees into 3 teams has sizes [2, 2, 0] |
| `TeamGen.BuildTeamsAsWritten` | frontend/src/utils/teamGen.js:39-147 | With the targets as written, placing, sorting and rebalancing keeps every queued attendee. The sizes end settled against those targets only, and teams already settled against them are returned as assigned |
| `TeamGen.AsWrittenTwoAndTwo` | frontend/src/utils/teamGen.js:125-147 | For 2 Male and 2 Female attendees over 3 strict teams, the generator as written returns sizes [2, 2, 0]; with the quotas as targets it returns [2, 1, 1] |
| `TeamStats.StatsForTeams` | frontend/src/utils/teamGen.js:155-161 | There is one summary per team, in team order. Each summary's count is the team size, its mean is 0 for an empty team, and its gender counts add up to its count |
| `TeamStats.AvgAge` | frontend/src/utils/teamGen.js:157-158 | The mean age is 0 for an empty team; otherwise it times the size is the age sum |
| `TeamStats.Histogram` | frontend/src/utils/teamGen.js:159 | Every member's gender string is a key, and every value lies between 1 and the team size |
| `TeamStats.HistogramCounts` | frontend/src/utils/teamGen.js:159 | A gender string is a key exactly when some member has it, and its value counts those members |
| `TeamStats.HistogramTotal` | frontend/src/utils/teamGen.js:159 | The histogram's values add up to the team size |
| `TeamStats.FullName` | frontend/src/utils/teamGen.js:11-13 | The full name is a slice of first name, space, last name with only whitespace cut from either end, and it neither starts nor ends with whitespace |
| `TeamStats.FullNameWithoutFirstName` | frontend/src/utils/teamGen.js:11-13 | With no first name, the full name is the (trimmed) last name, with no leading space |
| `TeamStats.FullNameWithoutLastName` | frontend/src/utils/teamGen.js:11-13 | With no last name, the full name is the (trimmed) first name, with no trailing space |
| `TeamStats.FullNameOfTrimmedNames` | frontend/src/utils/teamGen.js:11-13 | Names without outer whitespace are joined by exactly one space |
| `JsText.Trim` | frontend/src/utils/teamGen.js:12 | `trim` returns a slice of the input with only whitespace cut off, and it neither starts nor ends with whitespace |
| `JsText.TrimAvoids` | backend/server.js:96-97 | Trimming adds no character |
| `JsText.TrimAfterSpace` | frontend/src/utils/teamGen.js:12 | A leading whitespace character does not change the trim |
| `JsText.TrimBeforeSpace` | frontend/src/utils/teamGen.js:12 | A trailing whitespace character after text that does not start with whitespace leaves only the end-trim of that text |
| `JsText.TrimUnchanged` | frontend/src/utils/teamGen.js:12 | A string without whitespace at either end is its own trim |
| `JsText.Split` | backend/server.js:95-96 | `split` yields at least one piece, and no piece contains the separator |
| `JsText.JoinSplit` | backend/server.js:96-97 | Joining the pieces of a split with the separator gives back the string |
| `JsText.SplitJoin` | backend/server.js:96-97 | Splitting a join of separator-free pieces gives back the pieces |
| `JsText.SplitNoSeparator` | backend/server.js:96 | A string without the separator splits into itself |
| `JsText.SplitAround` | backend/server.js:96 | The text before the first separator is the first piece |
| `ServerHelpers.ParseCookie` | backend/server.js:93-100 | A missing or empty header gives the empty map. Any other header defines exactly the keys named by its `;`-separated parts |
| `ServerHelpers.SplitAtFirstEquals` | backend/server.js:96 | Without `=` a string splits into itself. Otherwise the first piece is the text before the first `=`, and the rest joined by `=` is everything after it |
| `ServerHelpers.CookieKey` | backend/server.js:96-97 | The key holds no `=` and has no outer whitespace. It is the trimmed part when that has no `=`, and otherwise the trimmed text before the part's first `=` |
| `ServerHelpers.KeyBeforeFirstEquals` | backend/server.js:96-97 | For a trimmed part: the trimmed first `=`-piece holds no `=`, is the whole part when it has no `=`, and otherwise is the trimmed text before the first `=` |
| `ServerHelpers.CookieValue` | backend/server.js:96-97 | The value is empty when the trimmed part has no `=`, and otherwise is everything after its first `=` |
| `ServerHelpers.Assign` | backend/server.js:95-99 | The `reduce` defines a key for every assignment, and only keys that some assignment names |
| `ServerHelpers.CookiePairs` | backend/server.js:95-97 | Each `;`-separated part gives one key/value assignment, in order |
| `ServerHelpers.CookiePartSplitsAtFirstEquals` | backend/server.js:96-97 | For a trimmed part `a=b` with no `=` in `a`: the key is `a` trimmed, and the value is all of `b`, further `=` included |
| `ServerHelpers.CookiePartWithoutEquals` | backend/server.js:96-97 | A part with no `=` maps its trimmed text to the empty value |
| `ServerHelpers.AssignLastWins` | backend/server.js:95-99 | A key's value is that of the last assignment to it |
| `ServerHelpers.CookieKeysOfParts` | backend/server.js:95-99 | The parsed map's keys are exactly the parts' keys |
| `ServerHelpers.ParseCookieLastWins` | backend/server.js:95-99 | When a key occurs more than once, the last part naming it supplies its value |
| `ServerHelpers.CookieLastWinsOfParts` | backend/server.js:95-99 | Over the split parts: the last part naming a key is the one whose value the cookie map keeps |
| `ServerHelpers.SpaceRunsToUnderscore` | backend/server.js:334 | The result holds no whitespace |
| `ServerHelpers.SpaceRunsChars` | backend/server.js:334 | Every output character is `_` or a non-whitespace character of the input |
| `ServerHelpers.SpaceRunShrinks` | backend/server.js:334 | Two whitespace characters side by side convert like one, so a run of any length gives one `_` |
| `ServerHelpers.SpaceRunsAppend` | backend/server.js:334 | Text that does not end in whitespace converts independently of what follows it |
| `ServerHelpers.SpaceAlone` | backend/server.js:334 | A single whitespace character between non-whitespace neighbours becomes exactly one `_`, and the text on either side converts on its own |
| `ServerHelpers.ReplaceDisallowed` | backend/server.js:335 | Allowed characters are kept, every other character becomes `-`, and the length is kept |
| `ServerHelpers.Squeeze` | backend/server.js:336-337 | No two `c` are left side by side; the result is no longer than the input, starts with the same character, and adds no new characters |
| `ServerHelpers.SqueezeRun` | backend/server.js:336-337 | Two `c` side by side squeeze like one, so a run of `c` of any length gives a single `c` |
| `ServerHelpers.SqueezeKeepsNoDouble` | backend/server.js:336-337 | Collapsing `-` runs keeps `_` runs collapsed |
| `ServerHelpers.Collapsed` | backend/server.js:334-337 | After the four replacements: only `[A-Za-z0-9._-]`, with no `__` and no `--` (what the replacements do character by character is stated by the lemmas on each step) |
| `ServerHelpers.Truncate` | backend/server.js:338 | The result is the prefix of the input whose length is the smaller of the input's length and 120 |
| `ServerHelpers.StripLeading` | backend/server.js:339 | The result is a suffix that does not start with `_` or `-`, and everything cut off is `_` or `-` |
| `ServerHelpers.EdgePrefixStep` | backend/server.js:339 | An `_` or `-` in front extends the stripped prefix by one |
| `ServerHelpers.StripTrailing` | backend/server.js:339 | The result is a prefix that does not end with `_` or `-`, and everything cut off is `_` or `-` |
| `ServerHelpers.CutAndStrip` | backend/server.js:338-339 | The result is a middle slice of the input cut to 120 characters. Only `_` and `-` are removed from either end, and it neither starts nor ends with `_` or `-` |
| `ServerHelpers.StripBothEnds` | backend/server.js:339 | Stripping both ends leaves a slice with only `_` and `-` outside it |
| `ServerHelpers.CutAndStripSafe` | backend/server.js:338-339 | Cutting and stripping a collapsed name gives a safe name |
| `ServerHelpers.CleanFilename` | backend/server.js:332-339 | Any input cleans to a safe name: allowed characters only, at most 120 long, no `__` or `--`, no `_` or `-` at either end |
| `ServerHelpers.CollapsedFixes` | backend/server.js:334-337 | A collapsible name is left unchanged by the replacements |
| `ServerHelpers.CleanFilenameFixes` | backend/server.js:332-339 | A safe name is left unchanged by cleaning |
| `ServerHelpers.ToSafeFilename` | backend/server.js:331-341 | With a non-empty fallback the result is never empty |
| `ServerHelpers.ToSafeFilenameResult` | backend/server.js:340 | The result is the cleaned name when that is non-empty (and then it is safe), and the fallback otherwise |
| `ServerHelpers.ToSafeFilenameIdempotent` | backend/server.js:331-341 | Cleaning twice is cleaning once; sanitising twice with a safe fallback is sanitising once |
| `ServerHelpers.DefaultFallbackIsSafe` | backend/server.js:331 | The default fallback `"file"` is a safe name |
| `ServerHelpers.DefaultFallbackSafe` | backend/server.js:331-341 | With the default fallback the result is always safe and non-empty |
| `ServerHelpers.DecimalString` | backend/server.js:329 | `String(id)` is decimal digits only. It is one digit exactly when the id is below 10, and a longer one has no leading zero |
| `ServerHelpers.DecimalRoundTrip` | backend/server.js:329 | The decimal text denotes the id |
| `ServerHelpers.DigitRoundTrip` | backend/server.js:329 | Each digit character written for a digit reads back as that digit |
| `ServerHelpers.PadStart` | backend/server.js:329 | `padStart` reaches the width, leaves longer strings as they are, and only prepends the pad character |
| `ServerHelpers.LeadingZerosKeepValue` | backend/server.js:329 | Leading zeros do not change the number a digit string denotes |
| `ServerHelpers.InvoiceNo` | backend/server.js:328-329 | The number starts with `INV-<date>-`. The id field after it is all digits and denotes the id. It is exactly 5 long when the plain decimal text is shorter, and that text itself when it has 5 or more digits |
| `ServerHelpers.PaddedId` | backend/server.js:329 | `String(id).padStart(5, "0")` is digits only, exactly five long when the plain text is shorter, the plain text when that is already five or more, and denotes the id |
| `UiState.PlainToast` | frontend/src/services/ui.js:12 | A non-empty type is kept; a missing or empty type becomes `"info"`. A non-empty message is kept; otherwise it is `""`. A non-empty title is kept; otherwise the title is `"Error"` exactly for error toasts, and `""` for all others. There is no action label |
| `UiState.ActionToast` | frontend/src/services/ui.js:34-36 | Missing options act as `{}`. Each given field (type, message, title, action label) is kept, even when empty. A field left undefined takes its default: `"info"` for the type, `""` for message and title |
| `UiState.EmptyKindDefaults` | frontend/src/services/ui.js:12-34 | `pushToast` replaces an empty type with `"info"`; `push` keeps it |
| `UiState.ClampPercent` | frontend/src/services/ui.js:115 | The result is within [0, 100], equals `p` inside that range, and is the nearest bound outside it |
| `UiState.IndexOfId` | frontend/src/services/ui.js:65-77 | `findIndex` returns the first toast with the id, or -1 when there is none |
| `UiState.WithoutIdMembers` | frontend/src/services/ui.js:65-77 | Filtering by id keeps exactly the toasts with another id |
| `UiState.RemoveFirstMatch` | frontend/src/services/ui.js:65-77 | With increasing ids, splicing out the first match removes the id entirely |
| `UiState.RemoveAtKeepsIds` | frontend/src/services/ui.js:65-77 | Splicing keeps the ids increasing and below `nextId` |
| `UiState.VisibleNotPending` | frontend/src/services/ui.js:65-77 | A visible toast's id is not among the pending ones |
| `UiState.DismissVisible` | frontend/src/services/ui.js:67-72 | Dismissing a visible toast removes it from the visible list, leaves the pending list alone, and keeps ids ordered |
| `UiState.DismissPending` | frontend/src/services/ui.js:75-76 | Dismissing an id that is not visible removes it from the pending list only |
| `UiState.QueuedInOrder` | frontend/src/services/ui.js:16-21 | A new toast goes behind every earlier toast, whether shown or pending; while loading the visible list is untouched |
| `UiState.AppendFresh` | frontend/src/services/ui.js:10-21 | A toast with the next id can go at the end and keeps ids increasing |
| `UiState.Ui.constructor` | frontend/src/services/ui.js:4-8 | No toasts, nothing pending, `nextId` 1, no load running, empty message, indeterminate progress |
| `UiState.Ui.Deliver` | frontend/src/services/ui.js:16-21 | While loading, the toast is appended to the pending list; otherwise to the visible list. The invariant is kept |
| `UiState.Ui.PushToast` | frontend/src/services/ui.js:10-30 | Returns the old `nextId` and increments it, and queues the toast built with `pushToast`'s defaults |
| `UiState.Ui.Push` | frontend/src/services/ui.js:33-53 | Returns the old `nextId` and increments it, and queues the toast built with `push`'s defaults |
| `UiState.Ui.Success` | frontend/src/services/ui.js:55-57 | A success toast, titled `"Success"` when no title is given |
| `UiState.Ui.Error` | frontend/src/services/ui.js:58-60 | An error toast, titled `"Error"` when no title is given |
| `UiState.Ui.Info` | frontend/src/services/ui.js:61-63 | An info toast, titled `"Notice"` when no title is given |
| `UiState.Ui.Dismiss` | frontend/src/services/ui.js:65-77 | The first visible match is removed; only when there is none is the first pending match removed; otherwise nothing changes. Either way, this is the id dropped from both lists |
| `UiState.Ui.ShowLoading` | frontend/src/services/ui.js:86-90 | The count goes up by one, the message is set only when one is given, and the progress resets to indeterminate |
| `UiState.Ui.HideLoading` | frontend/src/services/ui.js:92-111 | The count goes down by one but never below zero. At zero: the message and progress reset, every pending toast moves in order behind the visible ones, and the pending list empties |
| `UiState.Ui.SetLoadingProgress` | frontend/src/services/ui.js:113-116 | A missing value gives indeterminate progress; otherwise the value is clamped to [0, 100] |
| `UiState.ToastDeferredUntilLoadingEnds` | frontend/src/services/ui.js:86-111 | A toast raised under two nested loads stays hidden until the last load ends, and then shows |

## Left out

- Foreign and I/O code that `backend/server.js` and the frontend services call is not part of this model: the Express routes, SQLite, JWT, `crypto`, PDF generation, uploads, SSE and `EventSource`, and `fetch`.
- `UiState.Ui`: the `setTimeout` auto-dismiss of toasts, the `_timer`/`clearTimeout` bookkeeping, the `action` callback field, and the async `withLoading` wrapper with its minimum visible time are left out. They are timer- and promise-driven.
- `loadingVisible` is the computed `loadingCount > 0`. It is not a separate member.
- `UiState.Ui.SetLoadingProgress`: works over integers. `Number()` coercion of arbitrary values, fractions and `NaN` are not modelled.
- `UiState.Ui.PushToast`, `UiState.Ui.Push`: take strings or undefined (`Option<string>`). Other JavaScript values (numbers, `null`, objects) are not modelled.
- `UiState.Ui`: ids are unbounded naturals. The 2^53 limit of JavaScript numbers is not modelled.
- `TeamStats.AvgAge`: is an exact rational. Floating-point rounding of `sum / n` is not modelled.
- `TeamGen.TeamCount`: takes a finite `teamCount`. `NaN`, infinities and non-numeric arguments are not modelled.
- `TeamGen.GenerateTeams`:
  - It promises nothing about per-team age order in the final output. Rebalancing appends moved members at the end of a team, so teams are sorted only before rebalancing.
  - `opts.parity` is a string or missing. Other values are treated as "not `'strict'`", as the source does.
- `Attendees.Attendee`: ages are naturals, and a missing age is 0 (the source's `a.age || 0`). Negative or fractional ages are not modelled. A missing name is the empty string.
- `Attendees.SortByAge`: JavaScript's stable `Array.prototype.sort` is modelled by a stable insertion sort. Both give the same order.
- `ServerHelpers.ToSafeFilename`:
  - It takes the text after `String(s || "")` and NFKD normalisation. Unicode normalisation is a foreign call.
  - A character outside the Basic Multilingual Plane is one `-` here but two UTF-16 units (`--`) in JavaScript. After `-` runs are collapsed the two agree.
- `TeamStats.Histogram`: keys are plain map keys. In the source the histogram is a plain JavaScript object, so a gender string such as `"constructor"`, `"toString"` or `"__proto__"` reads an inherited property instead of starting from 0. For those strings the source's counts differ from `TeamStats.HistogramCounts` and `TeamStats.HistogramTotal`, and the model does not capture that.
- `ServerHelpers.ParseCookie`: takes a string or a missing header. Non-string headers are not modelled. Keys are plain map keys, so the special behaviour of keys such as `__proto__` on a JavaScript object is not modelled.
- `ServerHelpers.InvoiceNo`: takes the formatted date as a parameter. The clock and `dayjs` formatting are not modelled. Ids are non-negative integers.
- `JsText.IsSpace`: stands for the `\s` class and the characters `trim` removes (ECMAScript WhiteSpace and LineTerminator). The class includes U+FEFF and all other code points of Unicode category Zs.

## Findings

| source | as written | input that shows it | evidently intended | confidence | as-written member | corrected member |
|---|---|---|---|---|---|---|
| frontend/src/utils/teamGen.js:128 | When `total % N > 0`, every rebalancing target starts at `base + 1` (line 130 then changes nothing). The loop therefore only caps sizes at `base + 1` and leaves under-full teams alone | Strict parity, 2 Male and 2 Female attendees, `teamCount` 3. The quota fill gives sizes [2, 2, 0] and the targets are [2, 2, 2], so nobody moves and two teams differ by two | Targets `base + 1` for the first `total % N` teams and `base` for the rest, as the comments on lines 124, 127 and 129 say, so that sizes differ by at most one | not executed | `TeamGen.AsWrittenTwoAndTwo` | `TeamGen.RebalanceToQuotas` |

The as-written side:
- `TeamGen.UniformTargets` and `TeamGen.TargetsAsWritten` model lines 126-130 as written.
- `TeamGen.BuildTeamsAsWritten` runs the whole pipeline with those targets: `TeamGen.AssignTeams`, `TeamGen.TargetsAsWritten`, then `TeamGen.Rebalance`.
- `TeamGen.StrictFillTwoAndTwo` shows that the strict fill of the input above has sizes [2, 2, 0].
- `TeamGen.AsWrittenLeavesGap` shows that those sizes are settled against the as-written targets, so the loop moves nobody.
- `TeamGen.AsWrittenTwoAndTwo` puts these together: on that input the pipeline as written returns sizes [2, 2, 0], while `TeamGen.BuildTeams` returns [2, 1, 1].

The corrected side:
- `TeamGen.RebalanceToQuotas` runs the same loop (`TeamGen.Rebalance`) against `TeamGen.QuotasFor` of the total.
- It proves that every team ends at exactly its quota. `TeamGen.QuotasSpread` then gives the difference of at most one.
- `TeamGen.BuildTeams` and `TeamGen.GenerateTeams` use the corrected targets.
