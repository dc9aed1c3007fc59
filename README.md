# Toolbox randomisers and countdown timer, modelled in Dafny

This project models the bookkeeping behind the toolbox's three randomiser tools and its
stand-alone countdown timer:

- **Lucky wheel** (`wheel.dfy`, with `list_groups.dfy`). This is a store of named item lists (`ListGroup`)
  with an active-id pointer that falls back to the first group. Its handlers add, rename, delete and
  re-fill groups; edit, shuffle and bulk-replace items; and save a list to the cloud, which creates
  the cloud copy or updates it. A spin has a guard, a winning index, a ten-entry newest-first
  history, and an optional removal of the winner.
- **Group generator** (`group_generator.dfy`). It splits a shuffled name list into groups. In
  *by-size* mode the groups are chunks of `groupSize`, and only the last may be short. In
  *by-count* mode `groupCount` near-equal shares are dealt out in order, the first `n % groupCount`
  shares get one extra name, and empty shares are dropped. The name list has add, remove, bulk
  input and clear. The numeric inputs are clamped to at least 1.
- **Number draw** (`number_draw.dfy`). It checks the range and count, draws `count` numbers from
  `[min, max]` with or without repeats, and keeps an uncapped newest-first history of the draws.
  Without repeats, it splices each pick out of a pool that starts as the whole range.
- **Countdown timer** (`timer.dfy`). This is the state machine over minutes, seconds and the
  running flag. It has the once-a-second tick, start/pause, reset to 03:00, presets, the
  adjustment clamped at one minute, the mode presets, and the `MM:SS` display.

Shared pieces:

- `text.dfy` models ECMAScript `trim` (its whitespace set), `split(/[\n,]+/)` (runs of separators
  collapse), the bulk-input parser, `String(n)`, `padStart` and base-10 `parseInt`.
- `seqs.dfy` models `splice(i, 1)` on a copy, flattening, and duplicate-freedom.

Every use of `Math.random()` becomes a parameter. A spin's winning index and a draw's picks are
caller-supplied indices, each in range for what it picks from. The `sort(() => Math.random() - 0.5)`
shuffles become an arbitrary permutation of the input. Every property below therefore holds for
every random outcome.

React state becomes a class per component (`WheelState`, `GeneratorState`, `DrawState`), and the
timer's closure variables become the class `CountdownTimer`. Each asynchronous continuation is a
separate method:

- the last animation frame of a spin or a draw;
- the 1.5-second timeouts that remove a winner or reveal the generated groups.

Each such method uses the values its closure captured when it was created. Timeouts with equal
delays fire in the order they were set, so pending ones are kept in a queue (a `seq`).

Two places need a word on what is modelled:
- `deleteGroup` (Wheel.tsx:393-404) resets the pointer of a deleted active group to
  `listGroups[0].id`. That is the list of the render *before* the filter, so when the first group
  is the one deleted, the pointer keeps the deleted id (see Findings). The code evidently means the
  first group that remains: the reset aims at the first group (line 401), and the wheel already
  falls back to the first group when the active id names none (line 157). The class uses that
  corrected delete. `DeleteGroupAsWritten` models the code as written, beside it.
- The shuffles sort with a random comparator (`sort(() => Math.random() - 0.5)`). That is not a
  uniform shuffle, so the model promises only that the result is some permutation.

## Model

| member | source | states |
|---|---|---|
| Text.Trim | client/src/components/Wheel.tsx:343 | `trim` leaves no whitespace at either end, and gives the empty string exactly when the input is all whitespace |
| Text.TrimStripsEnds | client/src/components/Wheel.tsx:343 | the input is whitespace, then the trimmed string, then whitespace: trimming removes nothing else |
| Text.TrimOfTrimmed | client/src/components/GroupGenerator.tsx:38 | trimming a string without surrounding whitespace returns it unchanged |
| Text.TrimKeepsCharacters | client/src/components/GroupGenerator.tsx:39 | every character of a trimmed string occurs in the original |
| Text.Split | client/src/components/Wheel.tsx:343 | `split(/[\n,]+/)` yields at least one piece and no piece contains a newline or comma; text that opens with a separator gives an empty first piece followed by at least one more, and text that opens with another character gives a first piece that starts with it |
| Text.SplitInterleave | client/src/components/Wheel.tsx:343 | the split inverts every interleaving: separator-free pieces, none empty but possibly the first and the last, with any non-empty runs of newlines and commas between them, split back into exactly those pieces |
| Text.SplitDecomposes | client/src/components/Wheel.tsx:343 | every text is its split pieces, which are of that shape, with non-empty separator runs between them; with `SplitInterleave`, the split is the only such decomposition |
| Text.Clean | client/src/components/Wheel.tsx:343 | `.map(s => s.trim()).filter(s => s)` gives no more items than pieces, each non-empty and trimmed |
| Text.TrimAll | client/src/components/Wheel.tsx:343 | the `map` of `trim`: one trimmed piece per piece, in order |
| Text.CleanKeepsNonEmptyTrims | client/src/components/Wheel.tsx:343 | the cleaned items are, in order, exactly the non-empty trims of the pieces: an increasing index list picks each of them and no other |
| Text.ParseBulkInterleave | client/src/components/GroupGenerator.tsx:52 | bulk text of any shape (runs such as `\n\n` or `,\n`, spaces after commas, separators at either end) parses to the cleaned pieces between its runs |
| Text.CleanNoSeparator | client/src/components/Wheel.tsx:343 | trimming the pieces and dropping empty ones introduces no separator |
| Text.ParseBulk | client/src/components/Wheel.tsx:343 | every item the bulk parser yields is non-empty, trimmed and free of newlines and commas |
| Text.SplitJoin | client/src/components/Wheel.tsx:343 | splitting non-empty separator-free items joined by a newline or comma gives back the items (a case of `SplitInterleave`) |
| Text.ParseBulkJoin | client/src/components/GroupGenerator.tsx:52 | round trip: text made of clean items joined by either separator parses back to exactly those items, in order |
| Text.IntToString | client/public/timer/script.js:22 | `String(i)` is non-empty and starts with `-` exactly for a negative `i` |
| Text.IntToStringRoundTrip | client/public/timer/script.js:22 | `parseInt(String(i))` is `i` for every integer |
| Text.NatToString | client/public/timer/script.js:22 | `String(n)` is a non-empty digit string with no leading zero, one digit below 10 and at most two below 100 |
| Text.NatToStringRoundTrip | client/public/timer/script.js:22 | the digits `String(n)` writes have the value `n` |
| Text.PadStart | client/public/timer/script.js:22 | `padStart(width, fill)` keeps the string as a suffix and puts only `fill` before it, up to `width` characters |
| Text.ParseInt | client/src/components/GroupGenerator.tsx:164 | `parseInt` after leading whitespace: NaN exactly when no digit follows the optional sign, otherwise the sign times the value of the leading digits |
| Text.LeadingDigits | client/src/components/GroupGenerator.tsx:164 | the digits `parseInt` reads are the longest run of digits at the start of the text |
| Text.ParseIntOfNat | client/src/components/GroupGenerator.tsx:164 | `parseInt` reads back the number `String(n)` wrote, also with a non-digit suffix such as `.5` |
| Text.ParseIntOfNegatedNat | client/src/components/GroupGenerator.tsx:177 | with a minus sign in front, `parseInt` reads the negated number |
| Seqs.RemoveAt | client/src/components/Wheel.tsx:349-353 | `splice(i, 1)` on a copy: for an index in range, one element fewer, the others kept in order, exactly one occurrence of `s[i]` gone from the multiset; past the end, nothing changes |
| Seqs.RemoveAtNoDup | client/src/components/NumberDraw.tsx:58 | splicing out of a duplicate-free pool keeps it duplicate-free and removes the picked value |
| Seqs.FlattenAppend | client/src/components/GroupGenerator.tsx:73-77 | concatenating one more group's members extends the concatenation by exactly those members |
| Seqs.FlattenLength | client/src/components/GroupGenerator.tsx:93 | the member counts add up to the length of the concatenation |
| ListGroups.FindIndex | client/src/components/Wheel.tsx:157 | `find` by id gives the first group with that id, and nothing exactly when no group has it |
| ListGroups.ActiveItemsShown | client/src/components/Wheel.tsx:157-158 | the items on the wheel are those of the first group with the active id, or of the first group when none has it, and none for no groups |
| ListGroups.ActiveIndex | client/src/components/Wheel.tsx:157 | the group on display is the first with the active id, and the first group when none has it |
| ListGroups.SetItems | client/src/components/Wheel.tsx:331-335 | the `map` of `updateItems`: same length, ids and names; the groups with the id get the new items, the others keep theirs |
| ListGroups.SetName | client/src/components/Wheel.tsx:414-416 | the `map` of `saveEditingName`: same length, ids and items; the groups with the id get the new name |
| ListGroups.RemoveById | client/src/components/Wheel.tsx:399 | the `filter` keeps exactly the groups whose id differs |
| ListGroups.SetItemsKeepsStore | client/src/components/Wheel.tsx:331-335 | replacing items keeps the store valid: non-empty, distinct ids, active id present |
| ListGroups.SetActiveItemsShows | client/src/components/Wheel.tsx:331-335 | after replacing the active group's items the wheel shows exactly the new items, from the same group |
| ListGroups.SetItemsMissingId | client/src/components/Wheel.tsx:331-335 | an item update aimed at an id no group has changes nothing |
| ListGroups.SetNameKeepsStore | client/src/components/Wheel.tsx:411-418 | a rename keeps the store valid |
| ListGroups.SetNameKeepsItems | client/src/components/Wheel.tsx:411-418 | a rename leaves the items on the wheel unchanged |
| ListGroups.SetNameMissingId | client/src/components/Wheel.tsx:414-416 | a rename aimed at an id no group has changes nothing |
| ListGroups.SameIdsSameActive | client/src/components/Wheel.tsx:157 | which group is on display depends only on the ids, in order |
| ListGroups.RemoveByIdUnique | client/src/components/Wheel.tsx:399 | with distinct ids, the filter removes exactly the one group with the id and keeps the rest in order |
| ListGroups.RemoveByIdMissing | client/src/components/Wheel.tsx:399 | filtering an id no group has returns the collection unchanged |
| ListGroups.RemoveAtKeepsUnique | client/src/components/Wheel.tsx:399 | removing a group keeps the remaining ids distinct |
| ListGroups.DeleteGroupAsWritten | client/src/components/Wheel.tsx:393-402 | `deleteGroup` as written: refused for a lone group, otherwise the filter; deleting the active group sets the active id to the first id of the list before the filter, and any other deletion keeps it |
| ListGroups.DeleteFirstActiveGroupDangles | client/src/components/Wheel.tsx:399-402 | as written, deleting the active first group leaves an active id that names no group; the wheel falls back to the new first group, and item updates and renames of it change nothing |
| ListGroups.DeleteGroup | client/src/components/Wheel.tsx:393-402 | the corrected delete: refused for a lone group, otherwise the filter; deleting the active group makes the first remaining group active, and any other deletion keeps the active id |
| ListGroups.DeleteActiveMovesToFirst | client/src/components/Wheel.tsx:399-402 | in a valid store, deleting the active group leaves at least one group, and the first remaining one becomes active |
| ListGroups.DeleteGroupKeepsStore | client/src/components/Wheel.tsx:393-402 | the corrected delete is refused exactly for a lone group; otherwise it removes exactly the group with the id (or nothing when the id is absent) and leaves a valid store |
| Wheel.PushHistory | client/src/components/Wheel.tsx:286 | the new winner heads the history, followed by the older entries, truncated to ten |
| Wheel.Reverse | client/src/components/Wheel.tsx:286 | reversal is pointwise: element `i` is element `n - 1 - i` of the input |
| Wheel.HistoryKeepsTenNewest | client/src/components/Wheel.tsx:285-288 | after any sequence of spins the history is the ten most recent winners, newest first |
| Wheel.FindByName | client/src/components/Wheel.tsx:361 | `find` by name gives the first cloud list with that name, and nothing exactly when none has it |
| Wheel.SaveToCloudRequest | client/src/components/Wheel.tsx:355-375 | without a login nothing is sent; otherwise the FIRST cloud list with the group's name is updated with the items, and when none exists (or none are fetched) a `wheel` list is created |
| Wheel.DefaultListGroups | client/src/components/Wheel.tsx:14-41 | the built-in collection is three groups with distinct ids, `raymond30` first, each with at least two items: a valid store with `raymond30` active |
| Wheel.NewGroupId | client/src/components/Wheel.tsx:381 | `custom-${Date.now()}` is `custom-` followed by digits that read back as the clock reading |
| Wheel.NewGroupIdInjective | client/src/components/Wheel.tsx:381 | groups created at different clock readings get different ids |
| Wheel.WheelState.constructor | client/src/components/Wheel.tsx:65-93 | a first visit starts with the three built-in groups, `raymond30` active, no spin and an empty history |
| Wheel.WheelState.UpdateItems | client/src/components/Wheel.tsx:331-335 | the active group's items are replaced and the wheel shows them; the store stays valid |
| Wheel.WheelState.HandleBulkInput | client/src/components/Wheel.tsx:341-347 | text that parses to no items changes nothing; otherwise the wheel shows the parsed items |
| Wheel.WheelState.RemoveItem | client/src/components/Wheel.tsx:349-353 | the wheel shows its items without element `index` |
| Wheel.WheelState.ShuffleItems | client/src/components/Wheel.tsx:337-339 | the wheel shows the given permutation of its items |
| Wheel.WheelState.AddNewGroup | client/src/components/Wheel.tsx:377-391 | a blank name changes nothing; otherwise one group with the trimmed name and no items is appended and becomes active |
| Wheel.WheelState.DeleteGroup | client/src/components/Wheel.tsx:393-404 | refused exactly for a lone group, leaving the store unchanged; otherwise the corrected delete, which keeps the store valid, makes the first remaining group active when the active one is deleted, and keeps the active id otherwise |
| Wheel.WheelState.SaveEditingName | client/src/components/Wheel.tsx:411-418 | a blank name changes nothing; otherwise the active group takes the trimmed name; the items shown never change |
| Wheel.WheelState.SelectGroup | client/src/components/Wheel.tsx:528 | clicking a group makes it the one on display |
| Wheel.WheelState.ToggleRemoveWinner | client/src/components/Wheel.tsx:461 | the removal preference flips |
| Wheel.WheelState.ClearHistory | client/src/components/Wheel.tsx:484 | the history becomes empty |
| Wheel.WheelState.StartSpin | client/src/components/Wheel.tsx:252-264 | a spin starts exactly when none is running and there are at least two items, capturing the index, items, group and preference; otherwise nothing changes |
| Wheel.WheelState.FinishSpin | client/src/components/Wheel.tsx:276-298 | the spin ends, `items[targetIndex]` wins and heads the capped history, and with removal enabled one removal of that index is queued |
| Wheel.WheelState.FireRemoval | client/src/components/Wheel.tsx:292-296 | the oldest queued removal replaces the items of the group it was bound to |
| Wheel.WheelState.CloudSave | client/src/components/Wheel.tsx:355-375 | `saveToCloud` for the group on display: without a login nothing is sent; an update or a new `wheel` list carries the items on the wheel, and a new list the group's name |
| Wheel.SpinWithRemoval | client/src/components/Wheel.tsx:252-301 | a whole spin with removal: the item at the chosen index wins, heads the history, and the wheel then shows one item fewer, without it |
| GroupGenerator.GroupNameReadsBack | client/src/components/GroupGenerator.tsx:76 | the label `第 ${id} 組` is the prefix, the decimal digits of the id and the suffix, so different group numbers get different labels |
| GroupGenerator.BySizePartition | client/src/components/GroupGenerator.tsx:71-79 | by size: `ceil(n / size)` groups numbered from 1, all of `size` members except the last, which has 1 to `size`, and together exactly the shuffled list in order |
| GroupGenerator.CeilDivBounds | client/src/components/GroupGenerator.tsx:72 | `ceil(n / size)` chunks cover the list, and one chunk fewer does not |
| GroupGenerator.ByCountPartition | client/src/components/GroupGenerator.tsx:80-98 | by count: `min(k, n)` non-empty groups numbered from 1; group `j` has `n / k` members, plus one for `j < n % k`; together exactly the shuffled list in order |
| GroupGenerator.ShareSize | client/src/components/GroupGenerator.tsx:82-88 | a share has `n / k` members or one more, and one more exactly for the first `n % k` shares |
| GroupGenerator.ShareStartClosed | client/src/components/GroupGenerator.tsx:84-95 | the running `startIndex` before share `i` is `i * (n / k) + min(i, n % k)` |
| GroupGenerator.ShareStep | client/src/components/GroupGenerator.tsx:88-89 | a share is non-empty exactly when its index is below `n`, and it ends inside the list |
| GroupGenerator.EmptyShare | client/src/components/GroupGenerator.tsx:89 | an empty share comes only once every name is placed |
| GroupGenerator.ShareEnd | client/src/components/GroupGenerator.tsx:86-97 | the `k` shares together hold all `n` names |
| GroupGenerator.PartitionKeepsNames | client/src/components/GroupGenerator.tsx:68 | the groups hold every name exactly once (their members are a permutation of the names) and their sizes sum to `n` |
| GroupGenerator.ClampInput | client/src/components/GroupGenerator.tsx:164 | the clamp `Math.max(1, parseInt(v) or 1)` is at least 1, keeps a positive number, and gives 1 for NaN, 0 or a negative |
| GroupGenerator.ClampInputOfNumber | client/src/components/GroupGenerator.tsx:177 | a typed positive number is taken as is, its negation and an empty field give 1 |
| GroupGenerator.GeneratorState.constructor | client/src/components/GroupGenerator.tsx:19-35 | a first visit starts with the twelve default names, size 3, count 4, by-size mode, no groups |
| GroupGenerator.GeneratorState.SetNewName | client/src/components/GroupGenerator.tsx:197 | typing sets the single-name box |
| GroupGenerator.GeneratorState.AddName | client/src/components/GroupGenerator.tsx:37-42 | a blank entry changes nothing; otherwise the trimmed entry is appended and the box is cleared |
| GroupGenerator.GeneratorState.RemoveName | client/src/components/GroupGenerator.tsx:44-48 | the names lose exactly element `index`, one fewer and that occurrence gone from the multiset |
| GroupGenerator.GeneratorState.HandleBulkInput | client/src/components/GroupGenerator.tsx:50-56 | text that parses to no names changes nothing; otherwise the names become the parsed items |
| GroupGenerator.GeneratorState.ClearNames | client/src/components/GroupGenerator.tsx:189 | the name list becomes empty |
| GroupGenerator.GeneratorState.SetGroupSize | client/src/components/GroupGenerator.tsx:164 | the group size becomes the clamped value of the field |
| GroupGenerator.GeneratorState.SetGroupCount | client/src/components/GroupGenerator.tsx:177 | the group count becomes the clamped value of the field |
| GroupGenerator.GeneratorState.SetMode | client/src/components/GroupGenerator.tsx:146 | the mode becomes the chosen one |
| GroupGenerator.GeneratorState.GenerateGroups | client/src/components/GroupGenerator.tsx:58-98 | refused exactly with fewer than two names, changing nothing; otherwise the animation starts with no groups shown and the queued groups are the partition for the mode, a permutation of the names |
| GroupGenerator.GeneratorState.FinishGenerating | client/src/components/GroupGenerator.tsx:101-105 | the oldest queued groups are shown and the animation ends |
| NumberDraw.Range | client/src/components/NumberDraw.tsx:54 | the pool is the `n` consecutive numbers from `min` |
| NumberDraw.RangeFacts | client/src/components/NumberDraw.tsx:54 | the pool is duplicate-free and holds exactly the numbers of `[min, min + n)` |
| NumberDraw.Deal | client/src/components/NumberDraw.tsx:55-59 | picking and splicing `count` times takes `count` numbers and leaves the pool `count` smaller |
| NumberDraw.DealPartitions | client/src/components/NumberDraw.tsx:55-59 | from a duplicate-free pool the numbers taken are distinct, and with what is left they are exactly the pool |
| NumberDraw.DealFromRange | client/src/components/NumberDraw.tsx:54-59 | dealt from `[min, max]` the numbers are distinct and in range, and with the rest of the pool they are the range |
| NumberDraw.DrawWithRepeat | client/src/components/NumberDraw.tsx:49-52 | with repeats: `count` numbers, number `i` is `min` plus pick `i`, all in `[min, max]` |
| NumberDraw.DrawWithoutRepeat | client/src/components/NumberDraw.tsx:53-60 | without repeats: the loop computes the deal from `[min, max]`; `count` distinct numbers in range, and results plus remaining pool are a permutation of the range |
| NumberDraw.DrawAllIsPermutation | client/src/components/NumberDraw.tsx:54-59 | drawing every number of the range yields a permutation of the range |
| NumberDraw.GenerateNumbers | client/src/components/NumberDraw.tsx:47-60 | the numbers generated are `count` numbers in range, distinct without repeats, and the whole range when `count` is its size |
| NumberDraw.DrawState.constructor | client/src/components/NumberDraw.tsx:13-20 | the draw starts at range 1 to 100, one number, no repeats, no history |
| NumberDraw.DrawState.WillStart | client/src/components/NumberDraw.tsx:29-42 | a draw that passes the guards is not already running, has `min < max`, and without repeats asks for no more numbers than the pool built from the range holds |
| NumberDraw.DrawState.Draw | client/src/components/NumberDraw.tsx:29-60 | ignored while drawing; refused exactly when `min >= max`, or without repeats when `count` exceeds the range; refusals change nothing; otherwise the animation starts with no numbers shown and a valid draw pending |
| NumberDraw.DrawState.FinishDraw | client/src/components/NumberDraw.tsx:79-82 | the drawn numbers are shown and put in front of the uncapped history, older entries unchanged |
| NumberDraw.DrawState.ClearHistory | client/src/components/NumberDraw.tsx:116-120 | the history and the numbers shown become empty |
| Timer.Countdown | client/public/timer/script.js:50-54 | a tick with time left keeps seconds in 0..59 and lowers the total `60 * m + s` by exactly one |
| Timer.Step | client/public/timer/script.js:43-54 | one firing: at 0:00 the time stays; otherwise the total drops by exactly one second; seconds stay in 0..59 |
| Timer.After | client/public/timer/script.js:42-56 | any number of ticks keeps seconds in 0..59 |
| Timer.RunsDownToZero | client/public/timer/script.js:42-56 | from `m:s` the first `60 * m + s` ticks each take one second off, and 0:00 is reached exactly at the last of them |
| Timer.StaysAtZero | client/public/timer/script.js:43-49 | once at 0:00, further ticks change nothing |
| Timer.AfterStep | client/public/timer/script.js:42-56 | `k` ticks then one more are `k + 1` ticks |
| Timer.TwoDigits | client/public/timer/script.js:22 | a field of the display has at least two characters |
| Timer.Format | client/public/timer/script.js:22 | the display is the minutes field, a colon, the seconds field, each at least two characters |
| Timer.TwoDigitsRoundTrip | client/public/timer/script.js:22 | a number below 100 is shown as exactly two digits that read back as the number |
| Timer.FormatRoundTrip | client/public/timer/script.js:22 | below 100 minutes the display is five characters, `MM:SS`, whose two fields read back as the minutes and seconds |
| Timer.CountdownTimer.constructor | client/public/timer/script.js:4-7 | the timer starts at 03:00, stopped |
| Timer.CountdownTimer.Tick | client/public/timer/script.js:42-56 | at 0:00 the interval clears itself and the timer stops with the time unchanged; otherwise one second goes, borrowing a minute at `:00` |
| Timer.CountdownTimer.ToggleTimer | client/public/timer/script.js:34-60 | a running timer pauses; a stopped one starts unless the time is 0:00 |
| Timer.CountdownTimer.ResetTimer | client/public/timer/script.js:63-70 | the timer is stopped at 03:00 |
| Timer.CountdownTimer.SetPreset | client/public/timer/script.js:73-82 | the timer is stopped at `mins:00` |
| Timer.CountdownTimer.AdjustTime | client/public/timer/script.js:85-94 | the timer is stopped at `max(1, minutes + value):00` |
| Timer.CountdownTimer.SwitchMode | client/public/timer/script.js:97-114 | `break` sets 05:00, `start` and `practice` 10:00, both stopped; any other mode changes nothing |
| Timer.RunUntilStopped | client/public/timer/script.js:34-60 | started from a positive time, the timer runs down and stops at 0:00 |

## Left out

- The wheel's rotation, easing and random offset are floating-point arithmetic for the animation only, so they are not modelled. Only the integer winning index is.
- Canvas drawing and confetti are rendering and calls into a library.
- `requestAnimationFrame`, `setTimeout`, `setInterval` and the clock are not modelled as such. Each continuation is a method, and clock readings are parameters.
- Randomness is not modelled. The picks are parameters, and whether the random-comparator sort is uniform is not a question the model asks.
- Persistence in `localStorage` (JSON of the groups, history, preferences and names) is browser I/O. The constructors model a first visit only.
- The cloud service (tRPC queries and mutations, their toasts and refetches, the server) is remote I/O. `saveToCloud` is modelled as the request it decides to send, and cloud deletion is not modelled.
- User messages (`alert`, `toast`) are not modelled; refusals are reported as outcomes.
- The wheel's editing flags (`isEditing`, `isAddingNew`) and its input boxes (`editingName`, `newGroupName`) belong to the forms. The handlers take the box's text as a parameter.
- Group ids of type number are not modelled. Ids are strings, as are all ids the wheel creates.
- Wheel.WheelState.AddNewGroup: requires that the clock-derived id is not already taken, because the source relies on `Date.now()` differing between additions. `NewGroupIdInjective` shows distinct readings give distinct ids.
- The number draw's `min`, `max` and `count` setters are not modelled, and neither is `Number()` of the inputs (fractions, NaN). Fields are integers, and `count` is the slider's natural number.
- The number draw's `animationNumbers` (random numbers shown while spinning, and the placeholder reset by `clearHistory`) are visual only.
- Timer.CountdownTimer.SetPreset: takes an integer. `parseInt` of a button's data attribute is assumed to give a number, not NaN.
- The timer's mode title text, button labels, music and particle background are DOM and media.
- Text.ParseInt: models base 10 only. `parseInt` with no radix also reads a `0x` or `0X` prefix as base 16. The inputs that reach it are `type="number"` fields and the timer's numeric data attributes, which never hold that prefix.
- The display text is modelled as `Format`. Its round trip is proved only below 100 minutes, since longer times are wider than `MM`.

## Findings

| source | as written | input that shows it | evidently intended | confidence | as-written member | corrected member |
|---|---|---|---|---|---|---|
| client/src/components/Wheel.tsx:399-402 | after the filter, a deleted active group's pointer is reset to `listGroups[0].id` of the list before the deletion | three groups, the first active; delete the first group: the active id is the deleted group's id, so the wheel falls back to the new first group, but bulk input, removing or shuffling items, winner removal and renaming match no group and are lost | move the pointer to the first group that remains | not executed | ListGroups.DeleteGroupAsWritten, ListGroups.DeleteFirstActiveGroupDangles | ListGroups.DeleteGroup, ListGroups.DeleteActiveMovesToFirst, ListGroups.DeleteGroupKeepsStore |
