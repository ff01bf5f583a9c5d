# Landing-page behaviour of `script.js`

This project models the client-side script of a static landing page. Once the
document has loaded, the script does the following:

- toggles and closes the mobile navigation menu;
- restyles the fixed header past a scroll threshold;
- counts each statistic up from 0 to the number written in it, with a quartic
  ease-out over two seconds;
- fades cards in with a stagger as they enter the viewport;
- shows the quotation before its attribution;
- cascades the hero code listing in line by line;
- scrolls to a section while leaving room for the header.

The model is written in Dafny, one module per concern:

| module | file | what it holds |
|---|---|---|
| `Numerals` | `numerals.dfy` | decimal numerals, three-digit grouping (the shape of `toLocaleString`), one-decimal rounding (`toFixed(1)`) |
| `StatText` | `stat_text.dfy` | the `[^0-9.]` filter, the `%` and `.` flags, `parseFloat` on the filtered text (`None` is `NaN`) |
| `Counter` | `counter.dfy` | `animateValue`/`updateValue`: progress, easing, interpolation, the displayed text, the chain of animation frames, and round-trip lemmas for the stat texts the page uses |
| `Observers` | `observer.dfy` | the fire-once pass that each IntersectionObserver callback makes over its batch, as a class whose `watched` set shrinks |
| `Reveals` | `reveal.dfy` | hidden and shown poses, timer schedules for cards, the quote and hero lines, `split('\n')`/`join` |
| `Page` | `page.dfy` | the three observer callbacks and the card set-up loop, assembled from the above |
| `Navigation` | `navigation.dfy` | the menu's two `active` flags, the header style at a scroll offset, `scrollToSection` |

Arithmetic is exact: numbers are `real` or `int`, never IEEE doubles. Time is
given as input:

- an animation frame is the timestamp the host would pass to `updateValue`;
- a `setTimeout` is a `Commit`, a delay together with the pose it applies;
- whether an element intersects the viewport is the `isIntersecting` field of
  an entry.

Three behaviours of the code are worth stating plainly, since the model keeps
them:

- A stat whose text holds no number, such as "N/A", gets `parseFloat` = `NaN`.
  Every frame then displays "NaN" (`Counter.NotANumberExample`); there is no
  fallback to zero.
- An observer callback handles every intersecting entry of its batch, even when
  two entries of one batch share a target: `unobserve` during the batch does not
  drop the later entry, so that target is handled twice (`Observers.HitsComplete`).
- A card's delay is `100 * index`, with `index` the entry's position in the whole
  batch, counting the entries that do not intersect
  (`Reveals.CardsStaggerByBatchPosition`).

## Model

| member | source | states |
|---|---|---|
| `Numerals.NatToString` | script.js:66 | the decimal numeral of a natural number is non-empty and made of digits only |
| `Numerals.NatToStringValue` | script.js:66 | reading the numeral of `n` back gives `n` |
| `Numerals.NatToStringThousands` | script.js:66 | the numeral of `n >= 1000` is the numeral of `n / 1000` followed by the zero-padded three-digit group `n % 1000` |
| `Numerals.Grouped` | script.js:66 | the grouped numeral (`toLocaleString` shape) is non-empty and ends in a digit |
| `Numerals.GroupedWithoutSeparators` | script.js:66 | with an empty separator, grouping gives exactly the plain numeral |
| `Numerals.Fixed1` | script.js:64 | `toFixed(1)` always ends in `.` followed by one digit; its value is pinned by `Numerals.Fixed1Nearest` |
| `Numerals.Fixed1OfTenths` | script.js:64 | `toFixed(1)` of `w + d/10` is the numeral `w.d` itself |
| `Numerals.Fixed1Nearest` | script.js:64 | `toFixed(1)` of a non-negative value writes `w.d` whenever `10 * w + d` is the whole number nearest to ten times the value, the larger one on a tie (round half up) |
| `Numerals.NearestTenths` | script.js:64 | every non-negative value has such a nearest whole number of tenths, `floor(10 * y + 0.5)`, within half a tenth |
| `StatText.ExtractNumber` | script.js:38 | the filtered text holds only digits and dots and is no longer than the input |
| `StatText.ExtractNumberAppend` | script.js:38 | filtering distributes over concatenation |
| `StatText.ExtractNumberCounts` | script.js:38 | each digit and dot keeps its count, and every other character is removed |
| `StatText.ExtractNumberKeepsNumeral` | script.js:38 | text made only of digits and dots passes the filter unchanged |
| `StatText.DecimalFlagMatchesNumber` | script.js:38-40 | the text contains `.` exactly when its filtered number does |
| `StatText.IsPercentage` | script.js:39 | `includes('%')` on the stat's text; `Counter.CounterFor` states that the percent flag is exactly this |
| `StatText.IsDecimal` | script.js:40 | `includes('.')` on the stat's text; `StatText.DecimalFlagMatchesNumber` states that it holds exactly when the filtered number has a dot |
| `StatText.ExtractNumberOfGrouped` | script.js:38 | filtering a grouped numeral with a separator free of digits and dots gives back the plain numeral |
| `StatText.DigitRun` | script.js:42 | the length of the leading digit run: every character before it is a digit, and the character at it is not |
| `StatText.ParseFloat` | script.js:42 | `parseFloat` on a digit-and-dot string is `NaN` exactly when the string starts with neither a digit nor `.` followed by a digit; otherwise it is non-negative; its value on every input follows from `StatText.NumeralShape` with `StatText.ParseDigits` and `StatText.ParsePrefix` |
| `StatText.ParseNatural` | script.js:42 | a plain numeral parses to its value |
| `StatText.ParseDigits` | script.js:42 | a run of digits alone, leading zeros included, parses to its value, and the empty string to `NaN` |
| `StatText.ParsePrefix` | script.js:42 | `w.f` followed by nothing or by a further dot parses to `w` plus `f` scaled by its length, ignoring everything from the second dot on; it is `NaN` only when neither `w` nor `f` has a digit |
| `StatText.NumeralShape` | script.js:42 | every digit-and-dot string is either digits only or the shape `ParsePrefix` reads: its digit run, a dot, the next digit run, then nothing or a further dot |
| `StatText.ParseTenths` | script.js:42 | the numeral `w.d` parses to `w + d/10` |
| `StatText.ParseSecondDotExample` | script.js:42 | "1.2.3" parses to 1.2 |
| `StatText.ParseLeadingDotExample` | script.js:42 | ".1.2" parses to 0.1 |
| `StatText.ParseTrailingDotExample` | script.js:42 | "5." parses to 5 |
| `StatText.ParseLeadingZerosExample` | script.js:42 | "007" parses to 7 |
| `StatText.DigitRunPrefix` | script.js:42 | a digit string followed by a non-digit has its own length as the digit run |
| `Counter.CounterFor` | script.js:38-42 | the stat observer starts from 0 over 2000 ms; the percent flag is `%` in the text; the decimal flag is `.` in the filtered number; the end is `NaN` exactly when the number does not start a numeral |
| `Counter.Progress` | script.js:57 | the clamped progress is at most 1, non-negative for non-negative elapsed time, and exactly 1 once the duration has elapsed |
| `Counter.ProgressMonotone` | script.js:57 | progress never decreases as time passes |
| `Counter.Pow4Monotone` | script.js:59 | `q^4` stays in [0, 1] and grows with `q` on [0, 1] |
| `Counter.Pow4` | script.js:59 | `Math.pow(q, 4)` is never negative; `Counter.Pow4Monotone` bounds and orders it on [0, 1] |
| `Counter.Ease` | script.js:59 | the quartic ease-out maps 0 to 0, 1 to 1, and [0, 1] into [0, 1] |
| `Counter.EaseMonotone` | script.js:59 | the ease-out never decreases on [0, 1] |
| `Counter.Interpolate` | script.js:60 | an eased value of 0 gives `start`, and 1 gives `end` |
| `Counter.InterpolateBetween` | script.js:60 | for `start <= end` and eased value in [0, 1], the value lies between `start` and `end` |
| `Counter.InterpolateMonotone` | script.js:60 | the value grows with the eased value, for any two eased values, when `start <= end` |
| `Counter.Current` | script.js:55-60 | the counter's value is `NaN` exactly when the end is; it equals `end` once the duration has elapsed, and `start` at time 0 |
| `Counter.CountsUp` | script.js:55-60 | a counter with `start <= end` never counts down, and stays between `start` and `end` |
| `Counter.IntegerText` | script.js:66 | the text of `Math.floor(current).toLocaleString()` is non-empty and ends in a digit |
| `Counter.Body` | script.js:62-67 | the display before `%`: "NaN" for `NaN`; with the decimal flag, it ends in `.` and a digit; otherwise it ends in a digit; its value is pinned by `Counter.IntegerBodyValue` and `Counter.DecimalBodyValue` |
| `Counter.IntegerBodyValue` | script.js:62-67 | for a group separator without digits or dots, without the decimal flag, the display reads back as a whole number `m` with `m <= x < m + 1` (the floor), with a leading minus exactly for negative values |
| `Counter.GroupedReadsBack` | script.js:38-42 | a grouped numeral, filtered and parsed, gives back its number |
| `Counter.MinusDropped` | script.js:38 | the filter drops a leading minus sign |
| `Counter.DecimalBodyValue` | script.js:62-65 | with the decimal flag, the display of a non-negative value is a numeral of whole tenths within 0.05 of the value |
| `Counter.DecimalBodyNegative` | script.js:62-65 | with the decimal flag, a negative value is shown as a minus sign before the display of its magnitude |
| `Counter.Render` | script.js:62-73 | the frame's text ends in `%` exactly when the percent flag is set, and the text before it is the body |
| `Counter.FrameText` | script.js:55-73 | the text a frame writes ends in `%` exactly when the percent flag is set, and once the duration has elapsed it is the end value in the stat's format |
| `Counter.Texts` | script.js:73 | one text per frame run; `Counter.Animate` and `Counter.LastFrameShowsEnd` state which texts they are |
| `Counter.Animate` | script.js:52-81 | frames run in order at `tick - startTime`; the first is always requested; every frame except the last has progress below 1; the chain stops only after a frame reaching the duration; each frame shows its `Render` text |
| `Counter.LastFrameShowsEnd` | script.js:73-77 | the frame that stops the chain shows the end value in the stat's format |
| `Counter.LiteralFilter` | script.js:38-39 | a stat text `<int>[.<d>][%]` filters to its number, and carries `%` exactly when it has the suffix |
| `Counter.CounterEndsOnLiteral` | script.js:38-73 | a stat written as such a literal counts up to exactly its value in its own format; its final text (the literal itself, or its grouped form) starts the same animation when read again |
| `Counter.TenthsLiteral` | script.js:38-42 | a one-decimal literal gives an end equal to its value and sets the decimal flag |
| `Counter.TenthsNumber` | script.js:40-42 | a one-decimal literal's number has a dot and parses to the literal's value |
| `Counter.WholeLiteral` | script.js:38-73 | a whole-number literal ends on its grouped numeral, which filters like the original text and has the same `%` flag |
| `Counter.WholeCounter` | script.js:38-42 | a whole-number literal's counter ends on its value, with the percent flag of the text and no decimal flag |
| `Counter.TenthsRereads` | script.js:62-73 | the final text of a one-decimal stat is its own text |
| `Counter.GroupedRereads` | script.js:62-73 | the final text of a whole-number stat is the grouped numeral plus the suffix, and it filters back to the plain numeral |
| `Counter.GroupedRenders` | script.js:62-73 | the final text of a whole number without the decimal flag is its grouped numeral plus the suffix |
| `Counter.GroupedFilters` | script.js:38-39 | the grouped numeral plus the suffix filters to the plain numeral and has `%` exactly when the suffix is there |
| `Counter.GroupedChars` | script.js:66 | every character of a grouped numeral is a digit or comes from the separator |
| `Counter.OneThousandTwoHundredThirtyFour` | script.js:66 | 1234 is written "1234" and grouped as "1,234" |
| `Counter.FilterGroupedExample` | script.js:38 | "1,234" filters to "1234" |
| `Counter.GroupedStatExample` | script.js:38-73 | the stat "1,234" counts from 0 to 1234 over 2000 ms and ends showing "1,234" |
| `Counter.DecimalStatExample` | script.js:38-73 | the stat "98.5%" counts to 98.5 with both flags set and ends showing "98.5%" |
| `Counter.NotANumberExample` | script.js:38-73 | the stat "N/A" animates towards `NaN` and shows "NaN" |
| `Observers.TargetsOfAppend` | script.js:43 | handling one more entry adds exactly its target to the handled targets |
| `Observers.Hits` | script.js:35-43 | the entries one callback handles, never more than its batch; `Observers.HitsSound` and `Observers.HitsComplete` characterise them exactly |
| `Observers.HitsSound` | script.js:35-45 | each handled entry is an intersecting entry of a watched target at its own batch index, and hits come in batch order |
| `Observers.HitsComplete` | script.js:35-45 | every intersecting entry of a watched target is handled, at its own batch index |
| `Observers.RunPasses` | script.js:34-50 | one list of hits per callback of a run, the watch set shrinking by each callback's targets; `Observers.FireOnce` states what a run handles |
| `Observers.FireOnce` | script.js:34-50 | over any sequence of callbacks, only watched targets are handled, and a target handled by one callback is never handled by a later one |
| `Observers.Observer.constructor` | script.js:48-50 | after `observe` on each target, the observer watches exactly those targets and has handled none |
| `Observers.Observer.Pass` | script.js:34-46 | one callback handles every intersecting entry of its batch, in order, and unobserves its target; the targets handled accumulate, and none had been handled by an earlier callback |
| `Reveals.CardsStaggerByBatchPosition` | script.js:84-93 | each card is shown `100 * index` ms after its intersecting entry at batch `index`, and the cards of later entries strictly later |
| `Reveals.CardCommits` | script.js:85-90 | one timer per card hit, for that hit's card, showing it; `Reveals.CardsStaggerByBatchPosition` states the delays |
| `Reveals.QuoteRevealOrder` | script.js:164-172 | under the quote timers (the 200/600 ms pair, repeated once per hit), the quotation is shown exactly from 200 ms and its attribution exactly from 600 ms, so the attribution never appears alone |
| `Reveals.QuoteHides` | script.js:156-159 | the quotation and then the attribution are each set to opacity 0 |
| `Reveals.QuoteCommits` | script.js:164-172 | two timers, showing the quotation and then the attribution, the quotation's delay the shorter |
| `Reveals.Split` | script.js:186 | `split('\n')` gives at least one piece, and no piece contains a line break |
| `Reveals.JoinSplit` | script.js:186 | joining the split lines with `\n` gives back the text |
| `Reveals.SplitPrefix` | script.js:186 | a prefix without line breaks merges into the first piece of the split of what follows it |
| `Reveals.SplitJoin` | script.js:186 | pieces without line breaks come back unchanged from a join followed by a split |
| `Reveals.CascadeLines` | script.js:184-201 | one hidden line element per piece of the split, in order, with line `i` shown after `1000 + 100 * i` ms; the elements' texts joined with `\n` give back the original content |
| `Reveals.LineDelay` | script.js:200 | a hero line's delay is at least 1000 ms and a whole number of 100 ms steps; `Reveals.LinesRevealInOrder` states the order |
| `Reveals.LinesRevealInOrder` | script.js:197-200 | line `j` is shown exactly from `1000 + 100 * j` ms, and only once every earlier line is shown |
| `Page.SetUpCards` | script.js:99-104 | every card is hidden with opacity 0 and 20 px down, and is observed |
| `Page.StatCallback` | script.js:34-46 | the stat callback starts, for each hit, the counter its current text describes, and unobserves it |
| `Page.CardCallback` | script.js:84-93 | the card callback sets the staggered timers of its hits and unobserves them |
| `Page.QuoteCallback` | script.js:150-176 | for each hit of the quote section: hide the quotation and the attribution, set their 200/600 ms timers, and unobserve the section; with no hit, nothing changes |
| `Navigation.NavMenu.ClickHamburger` | script.js:6-9 | both `active` flags flip, so they stay in step |
| `Navigation.NavMenu.ClickNavMenu` | script.js:11-16 | a link whose `href` starts with `#` clears both flags; any other click changes nothing; a link without `href` throws |
| `Navigation.StartsWithHash` | script.js:12 | `startsWith('#')`: the `href` test whose outcome `Navigation.NavMenu.ClickNavMenu` states |
| `Navigation.NavMenu.KeyDown` | script.js:204-209 | Escape clears both flags; any other key changes nothing |
| `Navigation.HeaderStyleAt` | script.js:19-25 | the header gets the shadowed style exactly when `scrollY > 100`, and the top style otherwise |
| `Navigation.Header.OnScroll` | script.js:18-26 | the scroll handler sets the header's style for the current offset |
| `Navigation.ScrollToSection` | script.js:135-146 | no scroll when no element has the id; otherwise the target sits header height + 20 px above the section's `offsetTop` |

## Left out

- Layout and geometry are not modelled. This covers IntersectionObserver thresholds and root margins, `offsetTop` and `offsetHeight`, and `scrollY`; the model takes all of them as inputs.
- `window.scrollTo` with smooth behaviour (lines 141-144) is left out. `ScrollToSection` gives the target offset only.
- Timers and animation frames are not executed. `setTimeout` is modelled as a `Commit` (a delay and a pose), and `requestAnimationFrame` as the timestamps given to `Counter.Animate`.
- Counter.Animate: returns the frames' texts as `Texts` of the elapsed times rather than writing `textContent` inside the loop. The text left in the stat is the last of them.
- Counter.InterpolateBetween: stated for `start <= end` only. That is the only case the page creates: it starts at 0 and counts to a non-negative `parseFloat` result.
- Counter.CountsUp: stated for `start <= end` and for frames at or after the start (`0 <= e1 <= e2`), for the same reason. A frame timestamp earlier than `startTime` gives a negative elapsed time and, when `start < end`, a value below `start`; the model computes it, but no lemma bounds it.
- IEEE double semantics are not modelled. `Progress`, `Ease`, `Interpolate`, `Math.floor` and `toFixed(1)` use exact arithmetic, so binary rounding is not modelled: 1.45 is stored as a double just below 1.45, so `toFixed(1)` gives "1.4" where the model gives "1.5". Neither is exponent notation from 1e21 up.
- Numerals.Grouped: `toLocaleString` is modelled as three-digit groups with a separator parameter. Locales with other group sizes or other digit sets are not covered. The read-back lemmas (`Counter.IntegerBodyValue`, `Counter.GroupedReadsBack`, `StatText.ExtractNumberOfGrouped`) require a separator without digits or dots; with a `.` separator, as in de-DE's "1.234", no lemma states what the display reads back as.
- StatText.ParseFloat: modelled only on strings of digits and dots, the only strings it receives after the filter. Signs, exponents, whitespace and `Infinity` cannot occur.
- Observers.Observer.Pass: requires that every entry of the batch is for an observed target, which is what the host delivers. `Hits`, used over runs of callbacks, drops any other entry instead.
- Page.QuoteCallback: takes the quotation and attribution elements as given. The `TypeError` thrown when the section has no `blockquote` or `cite` is not modelled.
- The `if (quoteSection)` and `if (heroCode)` guards (lines 149 and 185) are not modelled. When those elements are missing, nothing is set up; the model starts once they exist.
- The elements queried at lines 2-4 and 28 are assumed to be present.
- Transition strings and other CSS text are not modelled (lines 102, 161-162, 194). Neither is the `innerHTML` clearing at line 187. Poses keep opacity and translation only.
- Copy-on-click for code blocks (lines 106-133) is not modelled: clipboard access, selection ranges and the one-second feedback message.
- The dark-mode header background (lines 211-221) is not modelled: a media-query listener.
- The scroll handler and the dark-mode handler both write `header.style.background`. The model does not cover how the two interleave.
