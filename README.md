# Description updater: a verified model in Dafny

`description_updater.py` is a polling script for a ClickUp workspace. At start-up it looks
up the team, the configured spaces and their folders. It stores the list lookup
`list_getter` without calling it. It then fetches the tasks of one list. In every cycle it cleans each task's name, description and body
with configured rule strings. A task that is new enough, and that the cleaning changed, is
written back and gets a confirmation comment.

This project models the logic of that script and proves properties of it. All network
traffic is left out: responses are inputs, and the two remote calls are events in a log.

The model has five modules:

- `PyText` (`pytext.dfy`) models the Python string built-ins the cleaner relies on, on
  sequences of Unicode scalar values:
  - `str.replace(p, "")`: leftmost, non-overlapping matches in a single pass; an empty
    pattern changes nothing;
  - `p in s`;
  - `str.splitlines()` with Python's full set of line boundaries, where `"\r\n"` counts as
    one break;
  - `str.strip()` with Python's full `isspace` set;
  - `sep.join`.
- `TextCleaner` (`textcleaner.dfy`) models `TaskEditor.replace_text`.
  - The method `ReplaceText` keeps the source's loops. It rebinds the text once per rule.
    It then walks the lines by index. After each removal it rebinds the sequence of lines,
    and the index moves on as a Python list iterator's does.
  - `CleanText` is the function it is proved equal to.
- `TaskEditor` (`taskeditor.dfy`) models `TaskEditor.edit_task`.
  - A task is a record with `id`, `name`, `description`, `textContent`, `dateCreated` and
    an opaque remainder `rest`.
  - `EditTask` follows the source's loops.
  - `EditedTask` is the function `EditTask` is proved equal to.
- `Polling` (`polling.dfy`) models `TaskRunner.run`.
  - The class `TaskRunner` holds the watermark `lastUpdateTime` and the log of remote calls.
  - `RunCycle` is one pass over the tasks; `Run` is any number of passes.
  - The decisions are proved for any editor function; the poller's editor is
    `EditWith(rules)`.
- `Hierarchy` (`hierarchy.dfy`) models the lookups of `WorkSpaceGetter`: team selection, the
  space filter, the flat folder map and the nested folder-to-list map (`ListIds`, from
  `list_getter`).

Verifying the natural contracts showed some behaviour of the code that a reader might not
expect. Each point below is proved as a lemma:

- `replace_text` does not remove every occurrence of a rule. One pass of `str.replace` can
  create a new occurrence (`RemoveAllCanLeaveOccurrence`).
- `replace_text` is not idempotent. Cleaning `"xaabb"` with the rule `"ab"` gives `"xab"`,
  and cleaning that again gives `"x"` (`CleanTextNotIdempotent`).
- The line pass can leave a line equal to a rule in place:
  - it never examines the line that follows a removed one (`LinePassSkipsNext`);
  - `list.remove` deletes the first equal line, which can lie before the line being
    examined (`LinePassRemovesEarlier`).
- The header pass and the footer pass are two complete runs of `replace_text`. The header
  pass folds the text into one line before any footer rule is applied (`EditTask`,
  `EditedTextIsOneLine`). After that, a footer rule can match only the whole folded text
  as a line, never one of the original lines.
- The task list is fetched once and eligibility compares creation times with `>=`. So,
  with integer timestamps (see "Left out"), the watermark no longer moves from the second
  cycle on (`RunSettles`). A changed task created exactly at
  the watermark is written and commented on again in every later cycle
  (`LaterCycleEligible`, `RepublishedInLaterCycles`).

## Model

| member | source | states |
|---|---|---|
| `PyText.Contains` | description_updater.py:229 | defined as Python's `p in s`: some window of the string equals the pattern, and the empty pattern occurs in every string; its properties are the `PyText.RemoveAllIdentity` and `TaskEditor.NameUnchangedIff` rows |
| `PyText.RemoveAll` | description_updater.py:215 | `s.replace(p, "")` either leaves the string as it is or makes it strictly shorter |
| `PyText.RemoveAllIdentity` | description_updater.py:229-230 | removal leaves the string unchanged exactly when the pattern is empty or does not occur, so the `subject in name` test before each removal changes nothing |
| `PyText.RemoveAllMatch` | description_updater.py:215 | an occurrence at the front is dropped and the scan resumes right after it |
| `PyText.RemoveAllSkip` | description_updater.py:215 | a prefix at none of whose positions an occurrence starts is kept as it is, in front of the rest of the scan |
| `PyText.RemoveAllCanLeaveOccurrence` | description_updater.py:215 | a single pass can create an occurrence: removing "ab" from "aabb" leaves "ab" |
| `PyText.SplitLines` | description_updater.py:217 | no line that `splitlines` returns contains a line-break character |
| `PyText.SplitJoinRoundTrip` | description_updater.py:217 | `splitlines` undoes `"\n".join` of break-free lines whose last line is not empty |
| `PyText.Join` | description_updater.py:221 | defined as `sep.join(xs)`: the strings in order with the separator between neighbours; its properties are the `PyText.JoinNoLineBreak` and `PyText.SplitJoinRoundTrip` rows |
| `PyText.JoinNoLineBreak` | description_updater.py:221 | joining break-free strings with a break-free separator gives a break-free string |
| `PyText.Strip` | description_updater.py:221 | the result of `strip()` has no whitespace at either end |
| `PyText.StripIsSlice` | description_updater.py:221 | `strip()` returns a contiguous piece of its input, and everything cut off at either end is whitespace |
| `PyText.StripNoLineBreak` | description_updater.py:221 | stripping a break-free string leaves it break-free |
| `PyText.StripTrimmed` | description_updater.py:221 | a string without whitespace at its ends is its own strip |
| `TextCleaner.RemoveEach` | description_updater.py:214-215 | defined as removing every rule from the text, one after another in list order; its properties are the `TaskEditor.RemoveSubjectsIsRemoveEach` and `TextCleaner.CleanTextSingleLine` rows |
| `TextCleaner.IndexOf` | description_updater.py:220 | the position `list.remove` deletes at: the first element equal to the argument |
| `TextCleaner.RemoveFirst` | description_updater.py:220 | defined as `list.remove(x)`: the list without its element at `IndexOf(xs, x)`; its properties are the `TextCleaner.IndexOf` and `TextCleaner.RemoveFirstKept` rows |
| `TextCleaner.RemoveFirstKept` | description_updater.py:220 | removing a rule line drops exactly one copy of it and leaves the non-rule lines and their order unchanged |
| `TextCleaner.StripEachOneLine` | description_updater.py:221 | every line the comprehension strips has no whitespace at either end, and lines without a break stay without one |
| `TextCleaner.CleanText` | description_updater.py:212-221 | defined as the rule removals, then `splitlines`, the line pass, stripping each line, joining with single spaces and a final strip; its properties are the `TextCleaner.ReplaceText` and `TextCleaner.CleanText…` rows |
| `TextCleaner.ReplaceText` | description_updater.py:212-221 | the loops compute `CleanText(text, changes)`, and the result is one line with no whitespace at either end |
| `TextCleaner.LinePass` | description_updater.py:218-220 | defined as the line loop resumed at iterator position `i`: a rule line read there is removed with `RemoveFirst`, and the position moves on by one either way; its properties are the four `TextCleaner.LinePass…` rows |
| `TextCleaner.LinePassDeletesOnlyRules` | description_updater.py:218-220 | the line pass deletes only lines equal to a rule; every other line survives as often as it occurred and in its original relative order |
| `TextCleaner.LinePassIdentity` | description_updater.py:218-220 | a list with no rule line passes through the line loop untouched |
| `TextCleaner.LinePassSkipsNext` | description_updater.py:218-220 | the line after a removed one is never examined: `["X","X","Y"]` with rule "X" keeps `["X","Y"]` |
| `TextCleaner.LinePassRemovesEarlier` | description_updater.py:218-220 | `remove` deletes the first equal line: `["X","X","Y","X"]` with rule "X" keeps `["Y","X"]` |
| `TextCleaner.CleanTextIsOneLine` | description_updater.py:217-221 | `replace_text` returns a string with no line break and no whitespace at either end |
| `TextCleaner.CleanTextNoRules` | description_updater.py:214-221 | with no rules, `replace_text` strips each line, joins the lines with single spaces and strips the result |
| `TextCleaner.CleanTextSingleLine` | description_updater.py:214-221 | a text that is one trimmed, non-rule line after the removals comes out as exactly that line |
| `TextCleaner.CleanTextNotIdempotent` | description_updater.py:214-215 | cleaning "xaabb" with rule "ab" gives "xab", and cleaning that again gives "x" |
| `TaskEditor.RemoveSubjects` | description_updater.py:228-230 | defined as the guarded subject loop: each subject, in order, removed from the name when it occurs in it; its properties are the `TaskEditor.RemoveSubjects…` and `TaskEditor.NameUnchangedIff` rows |
| `TaskEditor.CleanField` | description_updater.py:232-234 | defined as the header pass followed by a separate footer pass, each a whole `replace_text`; its property is the `TaskEditor.EditedTextIsOneLine` row |
| `TaskEditor.EditedTask` | description_updater.py:225-234 | defined as the copied record with the subjects removed from the name and both text fields cleaned; its properties are the `TaskEditor.EditTask` and `TaskEditor.EditedTextIsOneLine` rows |
| `TaskEditor.EditTask` | description_updater.py:223-236 | the loops compute `EditedTask`: id, creation time and every other key keep their values; each text field is the header pass followed by the separate footer pass; both fields are single trimmed lines |
| `TaskEditor.RemoveSubjectsIsRemoveEach` | description_updater.py:228-230 | the guarded subject loop equals plain removal of every subject in order |
| `TaskEditor.RemoveSubjectsShortens` | description_updater.py:228-230 | subject removal leaves the name as it is or makes it shorter |
| `TaskEditor.NameUnchangedIff` | description_updater.py:228-230 | the name stays the same exactly when no non-empty subject occurs in it |
| `TaskEditor.EditedTextIsOneLine` | description_updater.py:232-234 | the cleaned description and body are single lines with no whitespace at either end |
| `Polling.TaskRunner.constructor` | description_updater.py:292 | the watermark starts at 0 and no call has been made |
| `Polling.Eligible` | description_updater.py:307 | defined as the `>=` test of the task's creation time against the watermark reached just before it in the cycle; its properties are the `Polling.CallInCycle`, `Polling.PublishedIff` and `Polling.LaterCycleEligible` rows |
| `Polling.Watermark` | description_updater.py:307-314 | defined as the watermark after one cycle: each eligible task's creation time replaces it in turn; its properties are the `Polling.Watermark…` rows |
| `Polling.Publish` | description_updater.py:307-310 | defined as one task's calls: a write then a comment when the task is eligible and its edited copy differs, none otherwise; its property is the `Polling.ProcessTask` row |
| `Polling.CycleEvents` | description_updater.py:304-315 | defined as the calls of one cycle, task by task, each against the watermark reached so far; its properties are the `Polling.CallInCycle`, `Polling.PublishedIff` and `Polling.CycleEventsPaired` rows |
| `Polling.RunWatermark` | description_updater.py:302-315 | defined as the watermark after `n` cycles over the same tasks; its properties are the `Polling.RunSettles` and `Polling.RunWatermarkMonotone` rows |
| `Polling.RunEvents` | description_updater.py:302-315 | defined as the calls of `n` cycles, one cycle after another; its properties are the `Polling.RunSettles` and `Polling.RunEventsPaired` rows |
| `Polling.ProcessTask` | description_updater.py:305-315 | one task's loop body: a write then a comment exactly when the task is eligible and its edited copy differs; the watermark moves to the creation time of every eligible task |
| `Polling.TaskRunner.RunCycle` | description_updater.py:304-315 | one cycle appends `CycleEvents` to the log, sets the watermark to `Watermark`, and never lowers it |
| `Polling.TaskRunner.Run` | description_updater.py:301-317 | `cycles` passes over the same fetched tasks leave the watermark at `RunWatermark` and append `RunEvents` to the log |
| `Polling.WatermarkIsMax` | description_updater.py:307-314 | after a cycle the watermark is the largest of its start value and the creation times of the tasks |
| `Polling.WatermarkIsLastEligible` | description_updater.py:307-314 | after a cycle the watermark is the creation time of the last eligible task |
| `Polling.WatermarkUnchangedIfNoneEligible` | description_updater.py:307-314 | a cycle without an eligible task leaves the watermark unchanged |
| `Polling.CallInCycle` | description_updater.py:307-310 | a call on a task id is in a cycle's log exactly when a task with that id is eligible and its edit changes it |
| `Polling.PublishedIff` | description_updater.py:307-310 | a task is written, and likewise commented on, exactly when it is eligible and its edited copy differs from it; ineligible or unchanged tasks cause no call |
| `Polling.CycleEventsPaired` | description_updater.py:309-310 | in a cycle's log every write is immediately followed by the comment on the same task |
| `Polling.WatermarkStable` | description_updater.py:302-314 | a second cycle over the same tasks leaves the watermark where the first put it |
| `Polling.RunSettles` | description_updater.py:302-314 | from the second cycle on the watermark stays put and every cycle repeats the calls of the second |
| `Polling.RunWatermarkMonotone` | description_updater.py:302-314 | the watermark does not decrease across cycles |
| `Polling.RunEventsPaired` | description_updater.py:302-310 | in the log of any number of cycles every write is immediately followed by its comment |
| `Polling.LaterCycleEligible` | description_updater.py:307-314 | once a cycle has run, a task is eligible again exactly when it was created at the watermark |
| `Polling.RepublishedInLaterCycles` | description_updater.py:302-314 | a changed task created at the watermark is written and commented on again in the next cycle |
| `Hierarchy.Matching` | description_updater.py:78-79 | defined as the comprehension that keeps the teams with the configured name, in response order; its properties are the `Hierarchy.MatchingEmpty` and `Hierarchy.MatchingFirst` rows |
| `Hierarchy.SelectTeam` | description_updater.py:78-79 | defined as element 0 of `Matching`, or `NoMatch` where the source raises `IndexError`; its property is the `Hierarchy.SelectTeamFirst` row |
| `Hierarchy.SelectTeamFirst` | description_updater.py:78-79 | the team id is that of the first team with the configured name; there is none exactly when no team has that name |
| `Hierarchy.MatchingEmpty` | description_updater.py:78-79 | the comprehension selects no team exactly when no team has the name |
| `Hierarchy.MatchingFirst` | description_updater.py:78-79 | element 0 of the comprehension is the first team with the name |
| `Hierarchy.SpaceIds` | description_updater.py:81-84 | the space filter selects at most as many ids as there are spaces |
| `Hierarchy.SpaceIdsMember` | description_updater.py:81-84 | an id is selected exactly when some space with a configured name carries it |
| `Hierarchy.SpaceIdsAppend` | description_updater.py:81-84 | the filter keeps response order |
| `Hierarchy.Flatten` | description_updater.py:104 | defined as the records of all folder responses, one response after another; its property is the `Hierarchy.FlattenMember` row |
| `Hierarchy.NameMap` | description_updater.py:104 | defined as storing each record's id under its name, in order; its properties are the `Hierarchy.NameMapKeys` and `Hierarchy.NameMapLastWins` rows |
| `Hierarchy.FolderIds` | description_updater.py:99-104 | defined as `NameMap` of the flattened folder responses; its property is the `Hierarchy.FolderIdsKeys` row |
| `Hierarchy.FlattenMember` | description_updater.py:104 | the nested comprehension visits every folder of every response and nothing else |
| `Hierarchy.NameMapKeys` | description_updater.py:104 | the names in a name-to-id map are exactly the names of the records |
| `Hierarchy.NameMapLastWins` | description_updater.py:104 | the last record with a given name decides its id |
| `Hierarchy.FolderIdsKeys` | description_updater.py:99-104 | a folder name is in the folder map exactly when some space's response lists it |
| `Hierarchy.ListMap` | description_updater.py:171-179 | defined as each folder mapped to the name map of its lists, a later folder of the same name replacing an earlier one; its properties are the `Hierarchy.ListIds`, `Hierarchy.ListMapKeys` and `Hierarchy.ListMapLastWins` rows |
| `Hierarchy.ListIds` | description_updater.py:171-179 | the loops build `ListMap`: each folder mapped to the name map of its lists |
| `Hierarchy.ListMapKeys` | description_updater.py:171-179 | the folders in the nested map are exactly the folders of the input |
| `Hierarchy.ListMapLastWins` | description_updater.py:171-179 | the last folder with a name decides its entry, which maps each list name to the id of the last list of that name |

## Left out

- HTTP is not modelled. This covers `get_response`, the `*_getter` request builders,
  `get_myuser`, `task_list_getter`, `put_update` and `post_comment`
  (description_updater.py:90-98, 106-169, 181-200, 238-285). The task list is fetched once,
  before the first cycle (description_updater.py:294-299). Responses are inputs, given as sequences of
  `{name, id}` records or of tasks. The write-back and the comment are `Write` and `Comment`
  events in the log.
- The model treats every write-back and every comment as succeeding. In the source, a
  response that is not JSON makes `response.json()` raise and ends `run`. For `put_update`
  this happens at description_updater.py:284, outside the `try`. For `post_comment` it
  happens at description_updater.py:257, which has no `try` at all. So a Python run can
  stop with a write that has no comment after it, which the model's log
  (`Polling.CycleEventsPaired`) never shows.
- The `try/except` around the write-back request (description_updater.py:274-281) is not
  modelled, since the request is not modelled.
- `__post_init__` connects the lookups through requests (description_updater.py:77-88).
  The team id picks the spaces request, and the space ids pick the folder requests. Each
  lookup is modelled on its own response; the chaining is I/O.
- Line 88 stores the bound method `self.list_getter` and never calls it. The setting
  therefore holds a method, not the nested map. `Hierarchy.ListIds` models the map that
  `list_getter` computes when called. The assignment of the method object itself is not
  modelled.
- Logging, `.env` and `params.toml` loading, `print`, and global mutation of
  `ClickUpSettings` (description_updater.py:11-68) are left out, as is the `Logger216`
  wrapper. The rule lists and names
  are parameters.
- The fixed count of 250 cycles and the five-minute sleep between them
  (description_updater.py:302, 317) are left out. `Run` takes the cycle count as a
  parameter. Time itself does not appear.
- The `date_created` type is simplified (description_updater.py:307, 314). Line 307
  compares `int(date_created)`, but line 314 stores the raw value, which the service sends
  as a string. The model keeps creation times as integers throughout, so it does not
  reproduce the `TypeError` that the next comparison would raise in Python.
- Dictionary key order is not modelled: maps are Dafny `map`s. The values `edit_task` does
  not touch are kept abstract as strings in `rest`.
- `SelectTeam` returns `NoMatch` where the source's `[...][0]` raises `IndexError`. The
  exception is not modelled.
- Strings are sequences of Unicode scalar values. A Python `str` holding a lone surrogate
  code point cannot be represented.
- `edit_task` stores its result in the `updated_task` field of a short-lived `TaskEditor`
  object and also returns it. The model returns the record. The input record is a value,
  so it is unchanged by construction.
- The commented-out code (description_updater.py:322-371) is not modelled.
