# xrandr block — a Dafny model

A model of the xrandr block of i3status-rust (`src/blocks/xrandr.rs`). The
block polls the `xrandr` tool and shows the selected monitor's name,
brightness and (optionally) resolution. A left click selects the next
monitor. Scrolling steps the selected monitor's brightness.

The model has seven modules:

- `Wrappers`: `Option`, `Result` and `FilterMap`, an order-keeping filter-and-map. It is the pure form of the push loop of `get_active_monitors` (`src/blocks/xrandr.rs` lines 134-143) and of the `.filter` of `get_monitor_metrics` (line 172).
- `Strings`: the parts of Rust's `str` API the block uses.
  - `split(char)`, `split_whitespace`, `trim`, `u32::to_string`.
  - Each is a function on `seq<char>`.
  - Their contracts characterise them: `Split` joins back and is unique, and `Words` are the maximal non-whitespace runs.
- `Monitors`: the `Monitor` record, `u32`/`i32`, and the state half of `Monitor::set_brightness` (two's-complement wrap made explicit).
- `ActiveOutputs`: `get_active_monitors` on the text that `xrandr --listactivemonitors` prints.
  - `GetActiveMonitors` is the source's loop, proved against `ActiveMonitors`.
- `Metrics`: `get_monitor_metrics` on the text that `xrandr --verbose` prints.
  - Lines are filtered by the pattern set.
  - They are paired with `chunks_exact(2)`.
  - Each pair is read into at most one record, or the parse error.
  - `GetMonitorMetrics` is the source's loop. `ReadChunk` is one pass of it. Both are proved against `MonitorMetrics` and `PairRecord`.
- `Templates`: the four format strings `display` chooses between, and the placeholder substitution.
- `Block`: the `Xrandr` object, a `class`.
  - Its fields: the monitors, the selection index and the shown text.
  - Its methods: the constructor, `Display`, `Update` and `Click`.
  - Each method's postcondition states the new state in terms of the functions above.

Two behaviours of the code are kept as written:

- **The count line.** `xrandr --listactivemonitors` starts with `Monitors: <n>`. Its last word `<n>` is collected as if it were an output name (`ActiveOutputs.CountLineIsCollected`).
- **Parse errors on records that would be skipped.** A header with a first word makes the block parse the brightness line. It does so even when the header has no geometry word, so that pair would yield no record. A bad number there still fails the whole extraction (`Metrics.PairRecord`).

Two more behaviours of the code that the model keeps:

- A brightness line without `:` leaves the brightness at its initial 0 (`src/blocks/xrandr.rs` lines 175 and 182); it is not an error (`Metrics.PairBrightness`, `Metrics.PairRecordFields`).
- `current_idx` is not revalidated after an update replaces the monitors (`src/blocks/xrandr.rs` lines 264-270), so it may be out of range for the new list (`Block.Xrandr.Update`, `Block.Xrandr.Display`).

## Model

| member | source | states |
|---|---|---|
| Strings.Split | src/blocks/xrandr.rs:133 | `split('\n')`: at least one piece, no piece holds the separator, joining the pieces with it gives the text back |
| Strings.SplitUnique | src/blocks/xrandr.rs:133 | any separator-free pieces that join back to the text are exactly `Split` of it |
| Strings.SplitAtSeparator | src/blocks/xrandr.rs:133 | a separator-free first piece followed by the separator splits off as the first piece |
| Strings.SplitField | src/blocks/xrandr.rs:182 | no contract of its own: piece `k` of `Split`, if there is one; characterised by `SecondFieldExists` and `FieldAfterSeparator` |
| Strings.SecondFieldExists | src/blocks/xrandr.rs:182 | `split(':').get(1)` exists exactly when `:` occurs in the line |
| Strings.PrefixBefore | src/blocks/xrandr.rs:193 | `split('+').get(0)` is the longest prefix without `+`: it is followed by `+` or ends the text |
| Strings.IsWhitespace | src/blocks/xrandr.rs:136-138 | no contract of its own: the code points with the Unicode White_Space property, as `char::is_whitespace`; the `Words*` and `Trim*` rows state what it separates and strips |
| Strings.Words | src/blocks/xrandr.rs:136-138 | `split_whitespace` yields non-empty words free of whitespace |
| Strings.WordLength | src/blocks/xrandr.rs:136-138 | a word runs up to the first whitespace character or the end |
| Strings.NoWordsIffBlank | src/blocks/xrandr.rs:136-140 | a line has no words exactly when it is all whitespace |
| Strings.WordsAfterBlank | src/blocks/xrandr.rs:179 | leading whitespace contributes no word |
| Strings.WordsOfWordThen | src/blocks/xrandr.rs:179 | a word ending at whitespace or at the end is read whole, first |
| Strings.WordsOfJoin | src/blocks/xrandr.rs:179 | splitting words joined by spaces gives the words back |
| Strings.LastWordSplit | src/blocks/xrandr.rs:136-141 | the last word of a non-blank line is followed only by whitespace and preceded by whitespace or nothing |
| Strings.TrimStart | src/blocks/xrandr.rs:181 | drops exactly the leading whitespace: a suffix, the dropped part whitespace, the result not starting with it |
| Strings.TrimEnd | src/blocks/xrandr.rs:181 | drops exactly the trailing whitespace: a prefix, the dropped part whitespace, the result not ending with it |
| Strings.Trim | src/blocks/xrandr.rs:181 | neither end of the result is whitespace; a text without whitespace is unchanged |
| Strings.TrimSplit | src/blocks/xrandr.rs:183 | a text is whitespace, then its trimmed form, then whitespace |
| Strings.NatToString | src/blocks/xrandr.rs:208 | no contract of its own; characterised by `NatToStringDigits` and `NatToStringRoundTrip` |
| Strings.NatToStringDigits | src/blocks/xrandr.rs:208 | `to_string` gives a non-empty string of digits, starting with `0` only for zero |
| Strings.NatToStringRoundTrip | src/blocks/xrandr.rs:208 | reading back the digits of `to_string` gives the number |
| Strings.Contains | src/blocks/xrandr.rs:172 | no contract of its own: the needle occurs at some position of the text; `ContainsInfix` states that every infix is contained |
| Strings.ContainsInfix | src/blocks/xrandr.rs:172 | a text contains each of its infixes |
| Monitors.AsI32 | src/blocks/xrandr.rs:47 | `as i32` keeps the value modulo 2^32 |
| Monitors.AsU32 | src/blocks/xrandr.rs:47 | `as u32` keeps the value modulo 2^32 |
| Monitors.WrappingAdd | src/blocks/xrandr.rs:47 | `i32` addition agrees with the exact sum modulo 2^32 |
| Monitors.SetBrightness | src/blocks/xrandr.rs:36-48 | name and resolution kept; new brightness is old plus step modulo 2^32, exactly the sum when that fits a `u32` |
| ActiveOutputs.GetActiveMonitors | src/blocks/xrandr.rs:133-148 | the loop returns `ActiveMonitors`: every non-blank line's last word, in line order, or `None` when there are none |
| ActiveOutputs.LineName | src/blocks/xrandr.rs:136-142 | a line yields a name exactly when it has a word, and the name is a non-empty run without whitespace; `LineNameIsLastWord` states which word |
| ActiveOutputs.ActiveMonitors | src/blocks/xrandr.rs:133-148 | a `Some` result is non-empty and holds at most one name per line; characterised further by `ActiveMonitorsNoneIff` and `NamesLineByLine` |
| ActiveOutputs.Names | src/blocks/xrandr.rs:134-143 | no contract of its own: the names the lines push, in line order; characterised by `NamesFrom`, `NamesLineByLine`, `NamesEmptyIffBlank` and `LineNameIsLastWord` |
| ActiveOutputs.NamesFrom | src/blocks/xrandr.rs:135-143 | each line contributes its own name ahead of the later lines' names |
| ActiveOutputs.LineNameIsLastWord | src/blocks/xrandr.rs:136-142 | a line contributes a name exactly when it is not blank, and that name is its last word |
| ActiveOutputs.NamesLineByLine | src/blocks/xrandr.rs:133-143 | lines contribute independently and in order |
| ActiveOutputs.NamesEmptyIffBlank | src/blocks/xrandr.rs:133-143 | no name is collected exactly when every line is blank |
| ActiveOutputs.ActiveMonitorsNoneIff | src/blocks/xrandr.rs:144-148 | the result is `None` exactly when every line of the listing is blank |
| ActiveOutputs.CountLineIsCollected | src/blocks/xrandr.rs:133-143 | a leading `Monitors: <n>` line contributes `<n>` ahead of the output names |
| Metrics.ChunksExact2 | src/blocks/xrandr.rs:174 | `chunks_exact(2)`: half as many pairs, pair `j` is lines `2j` and `2j+1`, an odd last line dropped |
| Metrics.PatternsCompile | src/blocks/xrandr.rs:162-168 | no contract of its own (a predicate): the `<name> connected` patterns and `Brightness:` all compile; used by `MonitorMetricsOutcome` |
| Metrics.ConnectedPattern | src/blocks/xrandr.rs:165 | no contract of its own: `format!("{} connected", x)`; `ConnectedLineIsMetric` states that an active output's header line matches it |
| Metrics.ConnectedLineIsMetric | src/blocks/xrandr.rs:162-172 | a line holding `<name> connected` for an active `name` is kept by the filter |
| Metrics.BrightnessLineIsMetric | src/blocks/xrandr.rs:162-172 | a line holding `Brightness:` is kept by the filter, whatever the active names |
| Metrics.IsMetricLine | src/blocks/xrandr.rs:162-172 | no contract of its own (a predicate): the line contains `Brightness:` or `<name> connected` for an active name; used by `MetricLinesMembership` |
| Metrics.MetricLines | src/blocks/xrandr.rs:170-173 | keeps at most the lines it is given; characterised by `MetricLinesMembership` and `MetricLinesInOrder` |
| Metrics.MetricPairs | src/blocks/xrandr.rs:170-174 | no contract of its own: `chunks_exact(2)` of the filtered lines; characterised by `ChunksExact2`, `MetricLinesMembership`, `MetricLinesInOrder` and `MonitorMetricsOutcome` |
| Metrics.PairBrightness | src/blocks/xrandr.rs:182-186 | the only error is `UnparsableBrightness`; a line without `:` gives brightness 0 |
| Metrics.Harvest | src/blocks/xrandr.rs:174-197 | a successful loop keeps what was pushed and adds at most one record per pair; characterised by the `Harvest*` lemma rows |
| Metrics.Records | src/blocks/xrandr.rs:174-197 | at most one record per pair; characterised by `HarvestFailIff` and `HarvestInPairOrder` |
| Metrics.GeometryWord | src/blocks/xrandr.rs:189-192 | the geometry word exists only when the header has at least three words |
| Metrics.PairRecord | src/blocks/xrandr.rs:175-196 | a pair fails exactly when its header has a word and its second `:` field does not parse; otherwise it yields no record exactly when the header has no geometry word |
| Metrics.ReadChunk | src/blocks/xrandr.rs:175-196 | the loop body returns `PairRecord` of the chunk |
| Metrics.PairRecordParsed | src/blocks/xrandr.rs:189-195 | once the brightness is read, the record depends only on the header words |
| Metrics.PairRecordFields | src/blocks/xrandr.rs:179-195 | a record is named by header word 0; its resolution is the part before `+` of word 2 (if it holds `+`) or word 3; brightness is the parsed second `:` field, or 0 without `:` |
| Metrics.PairRecordShape | src/blocks/xrandr.rs:179-195 | a record's fields are the trimmed name, trimmed geometry prefix and the pair's brightness |
| Metrics.TrimOfPrefix | src/blocks/xrandr.rs:193-194 | trimming the part of a word before `+` changes nothing |
| Metrics.PairRecordBrightness | src/blocks/xrandr.rs:175-187 | the brightness is 0 without a second `:` field, otherwise that field parsed |
| Metrics.PairRecordExample | src/blocks/xrandr.rs:174-197 | `eDP-1 connected 1920x1080+0+0` with `Brightness: 0.80` read as 80 yields (`eDP-1`, 80, `1920x1080`) |
| Metrics.FieldAfterSeparator | src/blocks/xrandr.rs:182 | the second field of `a:b` is `b` when neither part holds `:` |
| Metrics.PrefixOfSeparated | src/blocks/xrandr.rs:193 | the part before the first `+` of `a+b` is `a` |
| Metrics.TrimOneLeading | src/blocks/xrandr.rs:183 | trimming a word preceded by one whitespace character gives the word |
| Metrics.MonitorMetrics | src/blocks/xrandr.rs:198-202 | a `Some` result is never empty |
| Metrics.GetMonitorMetrics | src/blocks/xrandr.rs:151-203 | the loop returns `MonitorMetrics` of the verbose text |
| Metrics.HarvestFail | src/blocks/xrandr.rs:183-184 | a failing pair ends the loop with its error |
| Metrics.HarvestSkip | src/blocks/xrandr.rs:189-196 | a pair without a record leaves the pushed records unchanged |
| Metrics.HarvestPush | src/blocks/xrandr.rs:194 | a pair with a record pushes exactly that record |
| Metrics.MetricLinesMembership | src/blocks/xrandr.rs:170-173 | a line is kept exactly when it is an output line matching a pattern |
| Metrics.MetricLinesInOrder | src/blocks/xrandr.rs:170-173 | filtering works line by line and keeps the order |
| Metrics.HarvestPrepends | src/blocks/xrandr.rs:174-197 | records already pushed stay in front of the later ones |
| Metrics.HarvestFirst | src/blocks/xrandr.rs:174-197 | the first pair either fails the loop or puts its record in front of the others' |
| Metrics.HarvestFailAt | src/blocks/xrandr.rs:183-184 | a failing pair anywhere fails the whole loop |
| Metrics.FailingPair | src/blocks/xrandr.rs:183-184 | a failed loop reports the error of some failing pair |
| Metrics.HarvestFailIff | src/blocks/xrandr.rs:174-197 | the loop fails exactly when some pair fails, so no partial list is returned |
| Metrics.HarvestInPairOrder | src/blocks/xrandr.rs:174-197 | a successful loop pushes every pair's record, in pair order, at most one per pair |
| Metrics.MonitorMetricsOutcome | src/blocks/xrandr.rs:162-202 | pattern error exactly when a pattern does not compile; parse error exactly when some pair fails; `None` exactly when no pair yields a record; otherwise the records of the pairs in order |
| Templates.FormatForMentions | src/blocks/xrandr.rs:214-224 | name and brightness always shown; the resolution only with the resolution option, the icons only with the icons option |
| Templates.FormatFor | src/blocks/xrandr.rs:214-224 | no contract of its own; characterised by `FormatForMentions` and `FormatForStrings` |
| Templates.ValuesOf | src/blocks/xrandr.rs:207-211 | no contract of its own; its icon values are stated by `IconOrEmpty`, its brightness text by `NatToStringDigits` and `NatToStringRoundTrip` |
| Templates.Render | src/blocks/xrandr.rs:226-227 | no contract of its own; characterised by `RenderReadsMentioned`, `RenderAppend`, `PlainText` and `ResolutionText` |
| Templates.FormatForStrings | src/blocks/xrandr.rs:214-224 | each option pair's template reads as its format string |
| Templates.MentionsAppend | src/blocks/xrandr.rs:214-224 | a template's placeholders are its parts' placeholders |
| Templates.FormatStringAppend | src/blocks/xrandr.rs:214-224 | the format string of a template is those of its parts, concatenated |
| Templates.RenderAppend | src/blocks/xrandr.rs:226-227 | the rendered text of a template is those of its parts, concatenated |
| Templates.IconOrEmpty | src/blocks/xrandr.rs:209-211 | the trimmed theme icon, or the empty string when the theme has none |
| Templates.RenderReadsMentioned | src/blocks/xrandr.rs:226-227 | the rendered text depends only on the placeholders the template mentions |
| Templates.IconsUnusedWithoutIconsOption | src/blocks/xrandr.rs:214-227 | without the icons option the theme's icons never reach the text |
| Templates.ResolutionUnusedWithoutResolutionOption | src/blocks/xrandr.rs:214-227 | without the resolution option the resolution never reaches the text |
| Templates.PlainText | src/blocks/xrandr.rs:223-227 | with neither option the text is `<name>: <brightness>` |
| Templates.ResolutionText | src/blocks/xrandr.rs:218-227 | with the resolution option only, the text is `<name>: <brightness> [<resolution>]` |
| Block.ClampStepWidth | src/blocks/xrandr.rs:245-248 | the step is at most 50 and at most the configured value, and one of the two |
| Block.NextIndex | src/blocks/xrandr.rs:283-287 | after a left click the selection is in range: the next monitor modulo the count, or the first one after a stale index |
| Block.LeftClicksAscend | src/blocks/xrandr.rs:283-287 | left clicks from an in-range selection step up one monitor at a time |
| Block.LeftClicksCompose | src/blocks/xrandr.rs:283-287 | `a + b` left clicks are `a` left clicks followed by `b` more |
| Block.LeftClicksComeBack | src/blocks/xrandr.rs:283-287 | after as many left clicks as there are monitors the same monitor is selected again |
| Block.ScrollUp | src/blocks/xrandr.rs:292-298 | one step brighter unless that would pass 100%, name and resolution kept, never past 100% from at most 100% |
| Block.ScrollDown | src/blocks/xrandr.rs:299-305 | one step darker unless that would go below 0, name and resolution kept, never brighter |
| Block.Scrolled | src/blocks/xrandr.rs:289-307 | only the selected monitor changes, and only on a scroll; a stale selection changes nothing |
| Block.ScrollDownUndoesUp | src/blocks/xrandr.rs:292-305 | a step up that was taken is undone by a step down |
| Block.ScrollUpUndoesDown | src/blocks/xrandr.rs:292-305 | a step down from at most 100% is undone by a step up |
| Block.ScrollingKeepsAtMostFull | src/blocks/xrandr.rs:292-305 | scrolling keeps every brightness at most 100% |
| Block.ScrollUpSumFitsI32 | src/blocks/xrandr.rs:43-47 | a scroll up that passes the guard of line 294 computes `brightness as i32 + step` without `i32` overflow |
| Block.ScrollDownSumFitsI32 | src/blocks/xrandr.rs:43-47 | a scroll down that passes the guard of line 301 has no `i32` overflow when the brightness is below 2^31 |
| Block.ScrollDownSumCanOverflow | src/blocks/xrandr.rs:43-47 | at brightness 2^31 and step 5 the guard passes and the `i32` sum falls below `i32::MIN` |
| Block.TextFor | src/blocks/xrandr.rs:205-228 | no contract of its own; characterised by `PlainDisplayExample`, `PlainText`, `ResolutionText` and the two `Unused` lemmas |
| Block.Refresh | src/blocks/xrandr.rs:264-270 | a `Some` result is never empty; no active outputs means `None` whatever the verbose output |
| Block.BlankListingFindsNothing | src/blocks/xrandr.rs:144-148 | a listing of blank lines leaves nothing to update |
| Block.Xrandr.constructor | src/blocks/xrandr.rs:238-260 | step clamped to 50, options copied, no monitors, selection 0 |
| Block.Xrandr.Display | src/blocks/xrandr.rs:205-232 | the text becomes the selected monitor's rendering; a stale selection leaves it unchanged |
| Block.Xrandr.Update | src/blocks/xrandr.rs:264-273 | errors propagate with the state unchanged; found monitors replace the list and are displayed; an empty result keeps the old list and text; the selection is never touched |
| Block.Xrandr.Click | src/blocks/xrandr.rs:279-314 | other blocks' clicks change nothing; a left click selects `NextIndex`, a scroll applies `Scrolled`; the text is then redrawn |
| Block.PlainDisplayExample | src/blocks/xrandr.rs:206-228 | monitor `DP-1` at 60% with neither option is shown as `DP-1: 60` |

## Left out

- Running `xrandr` and decoding its output as UTF-8 are left out. The decoded text, or the error, is an input of `Update`.
- `spawn_child_async` in `set_brightness` is left out. It is a fire-and-forget call into a process, and its `expect` panic is not modelled.
- Monitors.SetBrightness: models the wrapping `i32`/`u32` arithmetic of an optimised build, not the overflow panic of a debug build. The click guards rule that panic out when scrolling up (`Block.ScrollUpSumFitsI32`). When scrolling down they rule it out only for a brightness below 2^31 (`Block.ScrollDownSumFitsI32`, `Block.ScrollDownSumCanOverflow`). Such a brightness can only come from an absurd `Brightness:` value.
- Metrics.PairRecord: parsing the brightness is the parameter `parse`. It stands for `f32::from_str` followed by `(x * 100.0).floor() as u32`. Floating-point conversion and saturation are not modelled.
- Metrics.IsMetricLine: `RegexSet` patterns are matched as plain substrings. Which pattern sets compile is the parameter `validPattern`. Regular-expression syntax is not modelled.
- `FormatTemplate::from_string` and `render_static_str` are left out. They are the templating engine. Substitution is modelled as `Render` over the four fixed templates. The render error that `?` would propagate, and `set_icon("xrandr")`, are not modelled.
- The theme's icon table is the parameter `themeIcons`.
- `ButtonWidget`, `view` and `id` are left out, as is the `Update` value `update` returns (the poll interval).
- Deserialising `XrandrConfig` is left out, along with its defaults, `interval` and `color_overrides`.
- Block.Xrandr.Click: a click's target is the flag `onThisBlock`, standing for `matches_id`. The host's scroll mapping, `to_logical_direction`, is already applied in `Button`.
- Block.Xrandr.Click: a left click on an empty list makes `self.monitors.len() - 1` underflow. That is a panic in a debug build and a wrap-around in an optimised one. The model reports it as `Err(IndexUnderflow)` with the state unchanged, and does not repair it.
