# Roulette: a verified model of the mute decision

Roulette is a Discord bot that plays a "mute roulette". When a message in a
watched channel contains a trigger word, the bot acts on the author, or on the
members the author mentions if the author is an admin. It draws a random mute
length from weighted intervals and tells each target the length in words. A
target holding a safe role is spared. Every other target is timed out for that
length, capped at Discord's 28-day maximum.

This project models the deterministic core of that behaviour in Dafny. Each
random draw and each clock reading is an input.

- `wrappers.dfy`: `Option` and `Result`.
- `text.dfy` (module `Text`): the Python string built-ins the core relies on:
  - the `str.isdigit` filter, `int(...)` of a digit string and `str(n)`;
  - `', '.join`, `str.rpartition` and `str.rstrip`;
  - substring `in`.
- `time_display.dfy` (module `TimeDisplay`):
  - `convert_interval_str_to_minutes`: parses `<digits><m|h|d|w>` into minutes.
  - `convert_minutes_to_display_str`: greedy weeks/days/hours/minutes
    decomposition, with singular names for a value of 1, truncation to
    `granularity` units, and ", " / " and " joining. It is a pure reference
    function `Display`, plus the source's loop as the method
    `ConvertMinutesToDisplayStr`, proved equal to it.
- `sampling.dfy` (module `Sampling`): `generate_mute_time`.
  - The package version in `intervals/local.py` falls back to a 1m–5m default.
  - The older top-level version in `intervals.py` has no fallback.
  - `random.choices` is modelled by a ticket in `[0, total)` and its binary
    search over the cumulative weights; `random.randint` is modelled by its
    drawn value.
  - Each generator is told whether its interval list is absent, set to null,
    or given.
- `roulette.dfy` (module `Roulette`): the rules inside `on_message` in
  `main.py`:
  - the ignore guards and the admin gate;
  - target selection (order-preserving de-duplication, removal of the bot,
    cap at 5);
  - the safe-role exemption (safe roles together with admin roles);
  - the 28-day clamp and `until = now + clamped length`.

  `Decide` is the specification, a function of the message, the per-guild
  settings, the bot's id and the per-target draws. `OnMessage` follows the
  handler's statements in order and is proved equal to it. The target list and
  the per-target loop are the methods `SelectTargets`, `ActOnTargets` and
  `ActOn`.

The top-level `intervals.py` repeats the parser and the renderer word for word
(`intervals.py:19-46`). Both copies are modelled by the same members. The
table cites the package copy. In the top-level copy the parser is `intervals.py:19-29` and the
renderer `intervals.py:33-46`: its loop is at 38-44, the singular names at
42-43 and the join at 45-46.

Two consequences of the code are worth spelling out:

- The renderer splits greedily from the largest unit down. 10140 minutes is
  10080 + 60 and renders as "1 week and 1 hour" (`DisplayWeekAndHour`).
  11581 minutes is one of each unit and renders as "1 week and 1 day", because
  only two units are kept (`DisplayTruncated`).
- The bot schedules no unmute. It passes the clamped length to Discord's timed
  timeout (`main.py:203`), and Discord lifts the timeout itself.

## Model

| member | source | states |
|---|---|---|
| Text.Digits | intervals/time_display_converter.py:16 | the filtered string has only decimal digits, is no longer than the input, and is empty exactly when the input has no digit |
| Text.DigitsOfChar | intervals/time_display_converter.py:16 | one character is kept exactly when it is a digit |
| Text.DigitsAppend | intervals/time_display_converter.py:16 | the digits of `a + b` are the digits of `a` followed by those of `b`; with `DigitsOfChar` this fixes the result as the input's digits in order |
| Text.NatToDecimal | intervals/time_display_converter.py:39 | `str(value)` is a non-empty digit string with no leading zero except for 0 itself |
| Text.DecimalValue | intervals/time_display_converter.py:16 | `int` of a digit string is 0 exactly when every digit is 0; with `DecimalRoundTrip` it reads back `str(n)` as n |
| Text.DecimalRoundTrip | intervals/time_display_converter.py:16 | `int(str(n)) == n` for every natural n |
| Text.DigitsOfDigits | intervals/time_display_converter.py:16 | filtering a string that is all digits leaves it unchanged |
| Text.LastIndexOf | intervals/time_display_converter.py:40 | the result is -1 or a position holding the separator, with no separator after it |
| Text.RPartition | intervals/time_display_converter.py:40 | the three parts concatenate back to the input, and the tail has no separator. When the separator occurs, the middle is exactly the separator, so the split is at its last occurrence. Otherwise the result is `("", "", s)` |
| Text.RStrip | intervals/time_display_converter.py:38 | the result is a prefix of the input that does not end in the stripped character, and everything removed was that character |
| Text.Join | intervals/time_display_converter.py:40 | `sep.join(xs)` of a non-empty list starts with the first item and ends with the last |
| Text.Contains | main.py:103 | `needle in haystack`: the empty needle is in every string, and a needle longer than the string is in none |
| TimeDisplay.UnitOfSuffix | intervals/time_display_converter.py:17-24 | a suffix selects the unit whose letter it is, and each of m, h, d, w selects its unit |
| TimeDisplay.ParseInterval | intervals/time_display_converter.py:14-24 | no digit → `NotANumber` (the `int("")` error); an unknown last character → `Unmatched` (the implicit `None`); otherwise the digits' value times 1, 60, 1440 or 10080 |
| TimeDisplay.ParseRendered | intervals/time_display_converter.py:14-24 | parsing `str(n)` followed by a unit letter gives n times the unit's minutes |
| TimeDisplay.ParseUnknownSuffix | intervals/time_display_converter.py:16-24 | a string whose last character is not m/h/d/w yields no value, or the digit error when it has no digits |
| TimeDisplay.ParseDropsNonDigits | intervals/time_display_converter.py:16-24 | non-digits anywhere are dropped before the suffix is read: "1h30m" parses as 130 minutes |
| TimeDisplay.GreedyTakes | intervals/time_display_converter.py:34-39 | a unit that fits emits its whole copies, and the remainder, less than one unit, goes on to the next unit |
| TimeDisplay.GreedySkips | intervals/time_display_converter.py:34-35 | a unit that does not fit emits nothing |
| TimeDisplay.GreedyFrom | intervals/time_display_converter.py:33-39 | the loop from table position `i` emits at most one part per remaining unit; `GreedyFromTotal`, `GreedyFromCanonical` and `GreedyFromUnique` fix its output |
| TimeDisplay.Greedy | intervals/time_display_converter.py:33-39 | at most one part per unit, and at least one for a positive input; `GreedyDecomposes` and `GreedyUnique` fix it as the unique canonical decomposition |
| TimeDisplay.GreedyFromTotal | intervals/time_display_converter.py:33-39 | the parts emitted from any position sum back to what remained, and exist when something remained |
| TimeDisplay.GreedyFromCanonical | intervals/time_display_converter.py:33-39 | the parts emitted from any position are in range and strictly ordered from that unit on |
| TimeDisplay.GreedyDecomposes | intervals/time_display_converter.py:33-39 | the emitted parts sum to the input, have no zero unit, days < 7, hours < 24, minutes < 60, run weeks → days → hours → minutes, and are non-empty exactly for a positive input |
| TimeDisplay.GreedyFromUnique | intervals/time_display_converter.py:33-39 | every canonical list of parts from a position on is the greedy output for its own total |
| TimeDisplay.GreedyUnique | intervals/time_display_converter.py:33-39 | the greedy decomposition is the only canonical one: any canonical list of parts is `Greedy` of its total |
| TimeDisplay.Texts | intervals/time_display_converter.py:33-39 | one phrase per part, in order; `TextsAt` gives the k-th |
| TimeDisplay.TextsAt | intervals/time_display_converter.py:39 | the k-th rendered phrase is the k-th part's "value name" |
| TimeDisplay.PartText | intervals/time_display_converter.py:37-39 | a phrase starts with the value in decimal and a space; `SingularNames` and `PartTextHasNoComma` give the unit name that follows |
| TimeDisplay.PluralStrips | intervals/time_display_converter.py:37-38 | stripping the trailing "s" of each plural name gives its singular, and the singular plus "s" is the plural |
| TimeDisplay.SingularNames | intervals/time_display_converter.py:37-39 | a value of 1 renders "1 week/day/hour/minute"; any other value renders with the plural name |
| TimeDisplay.SliceTo | intervals/time_display_converter.py:40 | `result[:granularity]` is a prefix of the phrases, of length min(granularity, count) for a non-negative granularity, and with a negative granularity the phrases without their last −granularity, or none |
| TimeDisplay.LastCommaToAnd | intervals/time_display_converter.py:40-41 | a string with no comma is returned unchanged; `LastCommaSplit` gives the rewrite of the last comma into " and" |
| TimeDisplay.LastCommaSplit | intervals/time_display_converter.py:40-41 | turning the last comma into " and" on `a + ", " + b`, with b comma-free, gives `a + " and " + b` |
| TimeDisplay.CommaTrickIsEnglishList | intervals/time_display_converter.py:40-41 | the join-then-rpartition trick equals the English list (one item alone; otherwise comma-separated with " and " before the last) when no item has a comma |
| TimeDisplay.PartTextHasNoComma | intervals/time_display_converter.py:39 | a rendered phrase is non-empty and has no comma |
| TimeDisplay.PhrasesAsEnglishList | intervals/time_display_converter.py:40-41 | for a positive input, slicing, joining and turning the last comma into " and" on the greedy phrases give their English list |
| TimeDisplay.Display | intervals/time_display_converter.py:28-41 | for a positive input, the rendering is the English list of the first `granularity` phrases of the greedy decomposition; `DisplayZero` covers 0 |
| TimeDisplay.DisplayDefaultGranularity | intervals/time_display_converter.py:28-41 | with the default granularity 2, one unit renders alone and several render as "first and second" |
| TimeDisplay.DisplayZero | intervals/time_display_converter.py:30-31 | 0 renders as "0 minutes" whatever the granularity |
| TimeDisplay.DisplayOneMinute | intervals/time_display_converter.py:28-41 | 1 renders as "1 minute" |
| TimeDisplay.DisplayNinety | intervals/time_display_converter.py:28-41 | 90 renders as "1 hour and 30 minutes" |
| TimeDisplay.DisplayWeekAndHour | intervals/time_display_converter.py:28-41 | 10140 renders as "1 week and 1 hour" |
| TimeDisplay.DisplayTruncated | intervals/time_display_converter.py:28-41 | 11581 (1 week, 1 day, 1 hour, 1 minute) renders as "1 week and 1 day": the third and fourth units are dropped |
| TimeDisplay.LoopTake | intervals/time_display_converter.py:34-39 | appending the phrase for a unit that fits, and keeping the remainder, preserves the loop invariant "phrases so far + phrases of the rest = phrases of the input" |
| TimeDisplay.LoopSkip | intervals/time_display_converter.py:34-35 | skipping a unit that does not fit preserves the same invariant |
| TimeDisplay.LoopDone | intervals/time_display_converter.py:33-39 | after the last unit, the phrases collected are all the phrases of the input |
| TimeDisplay.DisplayFromTexts | intervals/time_display_converter.py:40-41 | slicing, joining and the last-comma rewrite applied to the greedy phrases give `Display` |
| TimeDisplay.ConvertMinutesToDisplayStr | intervals/time_display_converter.py:28-41 | the loop that decrements the remaining minutes and appends phrases returns exactly `Display(minutes, granularity)` |
| Sampling.Bounds | intervals/local.py:29 | one bound per interval, in order |
| Sampling.Weights | intervals/local.py:30 | one weight per interval, in the same order, each being that interval's weight |
| Sampling.Cumulative | intervals/local.py:31 | `accumulate(weights)`: one entry per weight, the k-th being the sum of the first k + 1 weights |
| Sampling.BisectRight | intervals/local.py:31 | the binary search inside `random.choices` returns a position between `lo` and `hi`; on any list, sorted or not, the entry at the result exceeds the key unless the result is `hi`, and the entry before it does not unless the result is `lo` |
| Sampling.BisectFinds | intervals/local.py:31 | on a sorted list the binary search returns the first position whose entry exceeds the key, or `hi` |
| Sampling.CumulativeSorted | intervals/local.py:31 | with non-negative weights the cumulative weights are sorted |
| Sampling.Pick | intervals/local.py:31 | `random.choices` with one draw returns an index of the population |
| Sampling.PickFrom | intervals/local.py:31 | the reference scan, for weights read as ranges: the selected index lies between the starting index and the last one |
| Sampling.PickFromFirst | intervals/local.py:31 | the reference scan passes only cumulative weights at most the ticket, and stops before the last index only where the cumulative weight exceeds it |
| Sampling.PickIsScan | intervals/local.py:31 | with non-negative weights, the binary search selects the same index as the reference scan |
| Sampling.ScanIff | intervals/local.py:31 | with non-negative weights, the reference scan selects index k exactly when the ticket lies in `[cum[k-1], cum[k])` |
| Sampling.NegativeWeightSelects | intervals/local.py:30-31 | with weights 5, -4, 2 and ticket 1, `random.choices` selects the last interval while the scan selects the first. With weights 1, -1, 1 the only ticket, 0, selects the last interval, so the first is never chosen |
| Sampling.PrefixMonotone | intervals/local.py:31 | with non-negative weights, cumulative weights never decrease |
| Sampling.PickFromLands | intervals/local.py:31 | scanning from any index whose cumulative weight is at most the ticket lands on the index whose cumulative range holds the ticket |
| Sampling.RangesDisjoint | intervals/local.py:31 | at most one index's cumulative range holds a given ticket |
| Sampling.PickIff | intervals/local.py:31 | with non-negative weights, `random.choices` picks index k exactly when the ticket lies in `[cum[k-1], cum[k])` |
| Sampling.PickBracket | intervals/local.py:31 | for any weights and a ticket below the total, the running total through the picked interval exceeds the ticket and the running total before it does not |
| Sampling.PickedWeightPositive | intervals/local.py:31 | for any weights with a positive total, the picked interval has a positive weight, so one of weight 0 or less is never picked |
| Sampling.EveryPositiveWeightReachable | intervals/local.py:31 | with non-negative weights, every interval of positive weight is picked by some ticket in range |
| Sampling.Choose | intervals/local.py:29-31 | an empty list raises (`IndexError`), a total weight ≤ 0 raises (`ValueError`), otherwise the result is the bound of the interval `Pick` selects for the ticket |
| Sampling.Draw | intervals/local.py:35-38 | the drawn length lies in `[lower, upper]`; `ValueError` exactly when a bound has no digits; otherwise `TypeError` exactly when a bound has an unknown unit; otherwise `ValueError` (`EmptyRange`) exactly when lower > upper |
| Sampling.Generate | intervals/local.py:29-45 | the choice's failures are the generator's: `IndexError` exactly for no intervals, `ValueError` exactly for a total weight ≤ 0; once an interval is chosen, the result is the draw from its bounds, errors included |
| Sampling.GeneratedWithinChosen | intervals/local.py:29-45 | for any weights, a generated length lies within the parsed bounds of the picked interval, which has positive weight |
| Sampling.LocalIntervals | intervals/local.py:19-25 | an absent or empty interval list becomes the single default interval, and a non-empty one is used as is. A list set to null fails (`TypeError` from `len(None)`) |
| Sampling.GenerateLocal | intervals/local.py:17-45 | with the fallback, the package version never fails on an empty list. It fails on the list itself exactly when the list is set to null. Otherwise it is `Generate` on the configured list, or on the default one |
| Sampling.LocalWithinChosen | intervals/local.py:19-45 | with a configured list, a length from the package version lies within the parsed bounds of the picked interval, which has positive weight |
| Sampling.DefaultBounds | intervals/local.py:8-14 | the default bounds "1m" and "5m" parse to 1 and 5 |
| Sampling.FallbackWithinOneToFive | intervals/local.py:19-38 | with no configured intervals, the generated length is defined and lies in [1, 5] |
| Sampling.GenerateLegacy | intervals.py:49-72 | without the fallback, an absent or null list fails (`TypeError`), an empty list fails (`IndexError`), and a non-empty list behaves as in the package version |
| Roulette.Requested | main.py:149 | `message.mentions or [message.author]` is never empty |
| Roulette.Dedupe | main.py:149 | de-duplication never lengthens the list; `DedupeIsFirstOccurrences` fixes it as the first member of each id, in order |
| Roulette.DedupeKeepsHead | main.py:149 | the first requested member survives de-duplication and stays first |
| Roulette.FirstOccurrences | main.py:149 | the first-occurrence positions are in range, strictly increasing, and each is the first position with its id |
| Roulette.FirstOccurrencesCover | main.py:149 | an id appears among the first occurrences exactly when it appears in the list |
| Roulette.DedupeIsFirstOccurrences | main.py:149 | `list(dict.fromkeys(ms))` keeps exactly the first member of each id, in order |
| Roulette.FirstOccurrencesDistinct | main.py:149 | the first occurrences carry pairwise different ids |
| Roulette.FirstWithId | main.py:152-154 | the position of the first member with the id, or the length when there is none |
| Roulette.RemoveId | main.py:152-154 | `remove` takes out exactly the first member with the id and keeps the rest in order; it leaves the list unchanged when the id is absent |
| Roulette.RemoveIdFrom | main.py:152-154 | removal keeps only members of the original list |
| Roulette.RemoveIdKeeps | main.py:152-154 | every member with another id is still present after removal |
| Roulette.RemoveIdDistinct | main.py:152-154 | removal from a list of distinct ids leaves distinct ids |
| Roulette.RemoveIdDrops | main.py:152-154 | among distinct ids, removing an id leaves no member with it |
| Roulette.Targets | main.py:149-156 | there are min(5, n) targets, where n counts the de-duplicated request without the bot. With `TargetsFromRequest`, they are the first five of that list |
| Roulette.TargetsDistinct | main.py:149-156 | the targets have pairwise different ids, and the bot is never a target |
| Roulette.TargetsFromRequest | main.py:149-156 | the targets are requested members, a prefix of the de-duplicated request with the bot removed |
| Roulette.TargetsCover | main.py:149-156 | when the request names at most five distinct members, every one except the bot is a target |
| Roulette.NoMentionsTargetsAuthor | main.py:149-156 | with no mentions the only target is the author, or nobody if the author is the bot |
| Roulette.SelectTargets | main.py:149-156 | the statements building the target list compute `Targets` |
| Roulette.Clamp | main.py:192-196 | the applied length is the generated length capped at 28 days (40320 minutes) |
| Roulette.ActionFor | main.py:171-200 | a target is spared exactly when it holds a safe role. Otherwise its length overflows `timedelta` exactly when it reaches a billion days. Otherwise it is timed out for the capped length, until now plus that length. The reply notes whether the target is the author and shows the rendered length |
| Roulette.Shows | main.py:165 | each target's length is rendered with the default granularity 2 |
| Roulette.ActionsFor | main.py:162-200 | the loop produces one action per target, stopping early only after an overflow, which can be only the last action |
| Roulette.ActionsForAt | main.py:162-200 | the k-th action is the k-th target's, using the k-th draw |
| Roulette.OverflowEndsLoop | main.py:192 | an unprotected target whose length overflows is the last one reached |
| Roulette.HaltedStays | main.py:162-218 | once the handler has raised, later targets add no actions |
| Roulette.AppendAction | main.py:162 | while the handler has not raised, one more pass of the loop appends the next target's action |
| Roulette.ActOn | main.py:175-200 | one pass of the loop body (safe check with `continue`, then the `timedelta` overflow, the clamp and the deadline) computes `ActionFor` |
| Roulette.ActOnTargets | main.py:162-200 | the loop over targets, rendering each length, computes one action per target in order, and returns at the first overflow |
| Roulette.SharesRole | main.py:122 | `not set(roles).isdisjoint(listed)`: some role is in both lists |
| Roulette.AnyTrigger | main.py:103 | no trigger word matches nothing, and an empty trigger word matches every message |
| Roulette.Decide | main.py:37-131 | a bot author is ignored; an empty guild configuration exits; a message outside a watched guild or channel, or without a trigger word, is ignored; a refusal means mentions from an author without an admin role; acting means no mentions or an admin author; and conversely a message from a human in a watched guild and channel, with a trigger word and either no mentions or an admin author, is acted on |
| Roulette.AdminGate | main.py:114-131 | past the guards, a request with mentions is refused exactly when the author holds no admin role; the handler acts exactly when there are no mentions or the author holds an admin role; with no admin roles configured, every request with mentions is refused |
| Roulette.SharesRoleUnion | main.py:135-142 | holding a role of the extended safe list is holding a safe role or an admin role |
| Roulette.ActedFacts | main.py:135-200 | when the handler acts: actions in target order, one for every target unless the handler raised first. A target is spared exactly when it holds a safe or an admin role. Otherwise the handler raises, ending the loop, exactly when the length reaches a billion days. Otherwise the applied length is min(generated, 40320) and `until = now + applied` |
| Roulette.OnMessage | main.py:37-200 | the handler's statements, with their early returns, compute `Decide` |

## Left out

- Discord I/O is not modelled: the replies, the typing indicator, the `timeout` call itself, and the random choice of reply templates. These are network calls. An `Action` records what the replies and the timeout would carry.
- Bot construction, sharding and `main` are not modelled.
- Logging is not modelled; it does not affect any decision.
- The dispatch in `intervals/intervals.py` (remote source with a local fallback, `sys.exit` on missing configuration) and the HTTP client in `intervals/digital_ocean_function.py` are not part of this model. The handler takes each target's generated length as an input (`Roll.minutes`).
- Roulette.OnMessage: an exception raised while generating a length would escape the handler; the model assumes each draw succeeded.
- Roulette.ActedFacts: an exception from a reply or from `target_user.timeout` leaves the loop at `main.py:162-218` and skips the remaining targets. Discord refusing to time out an administrator is one such case. The model assumes every such call succeeds. The only early stop it models is the `OverflowError` of `timedelta` at `main.py:192`.
- Loading settings (`config.py`) is not modelled. A `Setting` says only whether the interval list is absent, null or given; an `intervals` entry that is null or empty reads as absent for the package generator, as `or dict()` makes it. Guild ids are natural numbers, where the settings key guilds by strings cast with `int(...)`.
- The model has no separate branch for an empty settings entry (`main.py:59-63`) or for a guild with no channels (`main.py:67-71`). Both are settings with an empty channel list. The message's channel id is never in that list, so the channel guard ignores the message, which is what the handler does in both cases.
- Direct messages, which have no guild and make the handler fail, are not modelled; every message carries a guild id.
- `safe_roles.extend(admin_roles)` can extend the list held in the settings object itself, so that it grows with each message. The model extends a copy. Only membership is ever read, and repeated extension does not change membership.
- Discord members compare by id, and the model compares ids for `dict.fromkeys`, `bot.user in ...`, `remove` and `target_user == message.author`.
- Times are whole minutes; `datetime`/`timedelta` values are not modelled, apart from the largest length a `timedelta` holds. The clock reading for each target is part of its `Roll`.
- The floating-point side of `random.choices` is not modelled. The ticket stands for `random() * total` rounded down, an integer in `[0, total)`. The search compares the key only with integer cumulative weights, and for those `x < c` holds exactly when `floor(x) < c`. Weights are integers, as after `int(...)`.
- Sampling.PickIff: like `ScanIff`, `PickIsScan` and `EveryPositiveWeightReachable`, it assumes non-negative weights; with weights 1, -1, 1 index 0 is never picked. `Pick` itself is the binary search of `random.choices`, for any weights; `NegativeWeightSelects` shows how it behaves with a negative weight.
- Python 3.9 and later is assumed for `random.choices`: an empty population raises `IndexError`, and a total weight ≤ 0 raises `ValueError`.
- `str.isdigit` also accepts non-ASCII digits; the model accepts only `'0'`–`'9'`.
- Negative minutes given to the renderer are excluded by the type `nat`. Floor division makes such output meaningless, and lengths are never negative.
- TimeDisplay.ConvertMinutesToDisplayStr writes `remaining % count` where the source writes `minutes -= value * count`. The two are equal, as proved by `Leftover`.
