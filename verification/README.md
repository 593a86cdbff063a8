# VolX: trade ledger and breadcrumb trail, modelled in Dafny

VolX is a browser dashboard for a simulated Bitcoin-volatility trading game. Two parts of it hold logic, and this project models both and proves properties about them.

**The volatility trading platform component** (`volatility_platform.dfy`, module `VolatilityPlatform`). The component keeps six pieces of state:

- the mock chart history (`historicalData`), which is generated once and never updated; it and its generator are not modelled;
- two simulated volatility levels, 7-day and 30-day;
- the selected chart timeframe;
- an ordered ledger of trades;
- a trade form;
- a flag that shows the trade modal.

The other five are modelled as the fields of class `Platform`. The handlers are methods on it:

- `HandleTrade` opens a trade from the form.
- `CloseTrade` removes trades by id.
- `Tick` is the simulated volatility update.
- `SelectTimeframe` and `OpenTradeModal` are the button actions.

The derived figures are functions over the ledger:

- P&L of one trade: lots × signed volatility difference × leverage, taken at the level of the trade's own timeframe;
- the three portfolio totals, each a left fold like `reduce`;
- the form's notional value and effective exposure, at $20 per lot.

`Valid()` is the class invariant. It says that both levels stay inside their bands (7d in [5, 40], 30d in [5, 35]) and that every open trade has a positive lot count. Every method preserves it.

**The breadcrumb** (`breadcrumb.dfy`, module `Breadcrumb`). The trail starts with a fixed Home link to `/`. The pathname is split on `/` and the empty pieces are dropped. Segment i then becomes a crumb whose text is the segment and whose href is `/` followed by segments 0..i joined with `/`. The separator (default `" / "`) follows every crumb except the last.

`wrappers.dfy` holds the `Option` type. It is used for the form's possibly-missing lot count and for the separator that may follow a crumb.

Modelling choices:

- JavaScript numbers are `real` (exact arithmetic). Ids and clock readings are `int`.
- The form's lot count is `Option<real>`. `None` stands for a lot count that is missing or `NaN`. A lot count of 0, the other falsy number, is `Some(0.0)` and fails the `<= 0` test. So the guard `!lots || lots <= 0` becomes "absent or not positive" (`Accepts`).
- `Date.now()` and `new Date().toLocaleString()` are the parameters `now` and `nowText`. All clock reads in one handler call are taken to return the same instant.
- The two `Math.random()` draws of the timer are parameters `u7d`, `u30d` in [0, 1). Each step is `(u - 0.5) × width`, with width 1.5 for 7d and 1.2 for 30d.

Closing a trade removes every trade that carries the id (`closeTrade` filters on it). Ids are clock readings and can collide, so the model keeps the filter. `WithoutUniqueId` and `CloseUndoesOpen` cover the case where the id is unique.

## Model

| member | source | states |
|---|---|---|
| VolatilityPlatform.Clamp | src/components/btc-volatility-platform.tsx:87-88 | `Math.max(lo, Math.min(hi, x))` lies in [lo, hi], is `x` inside the band, `lo` below it and `hi` above it |
| VolatilityPlatform.Step | src/components/btc-volatility-platform.tsx:84-85 | the random step `(u - 0.5) × width` for a draw u in [0, 1) lies within ±width/2 (±0.75 for 7d, ±0.6 for 30d); `TickMovement` and `Platform.Tick` build on it |
| VolatilityPlatform.VolFor | src/components/btc-volatility-platform.tsx:98 | the level of a timeframe: 7d for `7d`, 30d otherwise; `PnLUsesOwnTimeframe` shows P&L reads only that level and `Platform.CurrentVol` uses it for the selected timeframe |
| VolatilityPlatform.TickMovement | src/components/btc-volatility-platform.tsx:84-88 | a level in its band, moved by a random step `(u - 0.5) × width` and clamped, stays in the band and moves by at most width/2 |
| VolatilityPlatform.PnL | src/components/btc-volatility-platform.tsx:97-105 | lots × signed level difference × leverage, at the level of the trade's own timeframe; its properties are `PnLAntisymmetric`, `PnLZeroAtStrike`, `PnLSign`, `PnLUsesOwnTimeframe` and `PnLWorkedExamples` |
| VolatilityPlatform.PnLAntisymmetric | src/components/btc-volatility-platform.tsx:97-105 | the same trade taken in the opposite direction has exactly the negated P&L |
| VolatilityPlatform.PnLZeroAtStrike | src/components/btc-volatility-platform.tsx:97-105 | a trade is flat when the current level of its timeframe equals its strike |
| VolatilityPlatform.PnLSign | src/components/btc-volatility-platform.tsx:99-104 | with positive lots and leverage, a long trade gains exactly when the level is above the strike, a short one exactly when it is below |
| VolatilityPlatform.PnLUsesOwnTimeframe | src/components/btc-volatility-platform.tsx:98 | a trade's P&L depends only on the level of its own timeframe (7d or 30d) |
| VolatilityPlatform.PnLWorkedExamples | src/components/btc-volatility-platform.tsx:97-105 | long 1 lot ×1, strike 20, level 25 gives 5; short 2 lots ×2, strike 20, level 15 gives 20 |
| VolatilityPlatform.SumOf | src/components/btc-volatility-platform.tsx:140 | `reduce` from 0 adding `f` of each trade, last trade added last; `TotalsOfEmptyLedger`, `SumOfAppend` and `SumOfSplit` state its properties |
| VolatilityPlatform.TotalPnL | src/components/btc-volatility-platform.tsx:140 | the sum of the P&L of every trade; `TotalPnLMirror` and `OpenTradeTotals` state its properties |
| VolatilityPlatform.TotalLots | src/components/btc-volatility-platform.tsx:296 | the sum of the lot counts; `TotalLotsPositive` and `OpenTradeTotals` state its properties |
| VolatilityPlatform.TotalExposure | src/components/btc-volatility-platform.tsx:297 | the sum of lots × leverage × 20; `OpenTradeTotals` shows opening a trade adds the form's effective exposure |
| VolatilityPlatform.TotalsOfEmptyLedger | src/components/btc-volatility-platform.tsx:140-297 | total P&L, total lots and total exposure of an empty ledger are all 0 |
| VolatilityPlatform.SumOfAppend | src/components/btc-volatility-platform.tsx:140 | a `reduce` sum over two ledgers laid end to end is the sum of the two sums |
| VolatilityPlatform.TotalPnLMirror | src/components/btc-volatility-platform.tsx:140 | flipping the direction of every trade negates the total P&L |
| VolatilityPlatform.TotalLotsPositive | src/components/btc-volatility-platform.tsx:296 | with every lot count positive, total lots is non-negative and positive exactly when the ledger is non-empty |
| VolatilityPlatform.FormLots | src/components/btc-volatility-platform.tsx:187-188 | the form's lot count, or 0 when it is missing; `FormFigures` states it |
| VolatilityPlatform.Notional | src/components/btc-volatility-platform.tsx:187-190 | the form's lots × 20; `FormFigures` and `AcceptsIffPositiveNotional` state its properties |
| VolatilityPlatform.EffectiveExposure | src/components/btc-volatility-platform.tsx:192-195 | the form's lots × 20 × leverage; `FormFigures` relates it to the notional and `OpenTradeTotals` to total exposure |
| VolatilityPlatform.FormFigures | src/components/btc-volatility-platform.tsx:187-195 | effective exposure is notional × leverage; a missing lot count gives 0 for both; otherwise notional is lots × 20 |
| VolatilityPlatform.Accepts | src/components/btc-volatility-platform.tsx:108 | the `handleTrade` guard passes when the lot count is present and positive; `AcceptsIffPositiveNotional`, `ResetForm` and `Platform.HandleTrade` state its consequences |
| VolatilityPlatform.AcceptsIffPositiveNotional | src/components/btc-volatility-platform.tsx:108 | the `handleTrade` guard admits a form exactly when its notional value is positive |
| VolatilityPlatform.NewTrade | src/components/btc-volatility-platform.tsx:110-120 | a trade opened from an admitted form has a positive lot count |
| VolatilityPlatform.ResetForm | src/components/btc-volatility-platform.tsx:124-133 | the reset form (long, 0 lots, leverage 1, 7d) is rejected by the guard and has notional 0, so submitting it again changes nothing |
| VolatilityPlatform.NewTradeStartsFlat | src/components/btc-volatility-platform.tsx:110-120 | a trade struck at the current level of the form's timeframe has P&L 0 at that level |
| VolatilityPlatform.OpenTradeTotals | src/components/btc-volatility-platform.tsx:107-134 | opening a trade leaves total P&L unchanged, adds the form's lots to total lots and adds its effective exposure to total exposure |
| VolatilityPlatform.WithoutId | src/components/btc-volatility-platform.tsx:137 | the trades whose id differs, in order; the ledger never grows. `WithoutIdMembers`, `WithoutIdAppend`, `WithoutIdIdempotent`, `WithoutAbsentId`, `WithoutUniqueId` and `CloseUndoesOpen` state the rest |
| VolatilityPlatform.WithoutIdMembers | src/components/btc-volatility-platform.tsx:136-138 | after closing `id`, a trade remains exactly when it was there and its id differs; the ledger never grows |
| VolatilityPlatform.WithoutIdAppend | src/components/btc-volatility-platform.tsx:137 | the close filter distributes over concatenation, so the survivors keep their relative order |
| VolatilityPlatform.WithoutIdIdempotent | src/components/btc-volatility-platform.tsx:136-138 | closing the same id twice gives the same ledger as closing it once |
| VolatilityPlatform.WithoutAbsentId | src/components/btc-volatility-platform.tsx:137 | closing an id no trade carries leaves the ledger unchanged |
| VolatilityPlatform.WithoutUniqueId | src/components/btc-volatility-platform.tsx:136-138 | when exactly one trade carries the id, closing it removes that one entry and keeps all others in order |
| VolatilityPlatform.CloseUndoesOpen | src/components/btc-volatility-platform.tsx:122-137 | closing the trade just appended restores the previous ledger, provided no earlier trade shares its id |
| VolatilityPlatform.SumOfSplit | src/components/btc-volatility-platform.tsx:137-140 | any total over the ledger is the total over the trades that stay plus the total over the trades that a close removes |
| VolatilityPlatform.Platform.constructor | src/components/btc-volatility-platform.tsx:21-35 | initial state: 7d level 20, 30d level 18.5, timeframe 7d, empty ledger, modal hidden, form long with 0 lots, leverage 1, strike 20, timeframe 7d |
| VolatilityPlatform.Platform.CurrentVol | src/components/btc-volatility-platform.tsx:94 | `getCurrentVol` is one of the two levels, lies in [5, 40], and is at most 35 when 30d is selected |
| VolatilityPlatform.Platform.SelectTimeframe | src/components/btc-volatility-platform.tsx:216-225 | the 7D/30D buttons set the selected timeframe and nothing else |
| VolatilityPlatform.Platform.OpenTradeModal | src/components/btc-volatility-platform.tsx:322 | the New Trade button shows the modal and changes nothing else |
| VolatilityPlatform.Platform.Tick | src/components/btc-volatility-platform.tsx:83-89 | each level becomes the clamp of its old value plus its random step; the bands are kept; 7d moves at most 0.75 and 30d at most 0.6 |
| VolatilityPlatform.Platform.HandleTrade | src/components/btc-volatility-platform.tsx:107-134 | a form that is not admitted changes nothing. Otherwise exactly one trade is appended after the unchanged earlier ones: it is struck at the current level of the form's timeframe and its lots, leverage, direction and timeframe come from the form. The modal closes and the form is reset with strike at the level used. The levels do not change |
| VolatilityPlatform.Platform.CloseTrade | src/components/btc-volatility-platform.tsx:136-138 | the ledger becomes the trades whose id differs, in their order; the invariant is kept |
| Breadcrumb.Split | src/assets/common/breadcrumb.tsx:15 | `split('/')` yields at least one piece and no piece contains `/` |
| Breadcrumb.Join | src/assets/common/breadcrumb.tsx:25 | `join('/')`: the pieces with `/` between neighbours; `JoinSplit` and `SegmentsOfJoin` make it the inverse of splitting |
| Breadcrumb.JoinSplit | src/assets/common/breadcrumb.tsx:15 | joining the pieces of `split('/')` with `/` gives the pathname back, so splitting loses nothing |
| Breadcrumb.SplitAppend | src/assets/common/breadcrumb.tsx:15 | splitting `a + "/" + b` gives the pieces of `a` followed by the pieces of `b` |
| Breadcrumb.NonEmpty | src/assets/common/breadcrumb.tsx:15 | `filter((x) => x)` keeps no more pieces than it is given; `NonEmptyMembers` and `NonEmptyAppend` state which ones and in what order |
| Breadcrumb.NonEmptyMembers | src/assets/common/breadcrumb.tsx:15 | `filter((x) => x)` keeps a piece exactly when it occurs and is non-empty |
| Breadcrumb.NonEmptyAppend | src/assets/common/breadcrumb.tsx:15 | the filter distributes over concatenation, so kept pieces stay in order |
| Breadcrumb.Segments | src/assets/common/breadcrumb.tsx:15 | no segment is empty or contains `/` |
| Breadcrumb.SegmentsAreNonEmptyPieces | src/assets/common/breadcrumb.tsx:15 | the segments are exactly the non-empty `/`-separated pieces of the pathname, and there are no more segments than pieces |
| Breadcrumb.SegmentsAppend | src/assets/common/breadcrumb.tsx:15 | the segments of two paths joined by `/` are those of the first followed by those of the second |
| Breadcrumb.SegmentsOfRoot | src/assets/common/breadcrumb.tsx:15 | `/` and the empty pathname have no segments |
| Breadcrumb.SegmentsOfJoin | src/assets/common/breadcrumb.tsx:15 | `/` followed by non-empty, slash-free segments joined with `/` splits back into exactly those segments |
| Breadcrumb.Href | src/assets/common/breadcrumb.tsx:25 | the href of crumb i starts with `/`; `HrefNext`, `HrefPrefix`, `CrumbHrefsDistinct` and `LastHref` state the rest |
| Breadcrumb.Crumbs | src/assets/common/breadcrumb.tsx:24-31 | the crumbs after the Home link, one per segment; `CrumbsShape`, `RootHasNoCrumbs`, `LastHref` and `SeparatorsBetweenCrumbs` state their properties |
| Breadcrumb.CrumbsShape | src/assets/common/breadcrumb.tsx:24-31 | there is one crumb per segment; crumb i's text is segment i; its href is `/` plus segments 0..i joined with `/`, so it starts with `/`; the separator follows it exactly when it is not the last |
| Breadcrumb.Trail | src/assets/common/breadcrumb.tsx:21-33 | the trail is the Home link to `/` followed by one crumb per segment, showing the segments in order |
| Breadcrumb.DefaultTrail | src/assets/common/breadcrumb.tsx:12-30 | with the default separator, `" / "` follows every crumb but the last and nothing follows the last |
| Breadcrumb.RootHasNoCrumbs | src/assets/common/breadcrumb.tsx:15-23 | pathnames `/` and empty give no crumbs, leaving the Home link alone |
| Breadcrumb.HrefNext | src/assets/common/breadcrumb.tsx:25 | the href of crumb i+1 is the href of crumb i, then `/`, then segment i+1 |
| Breadcrumb.HrefPrefix | src/assets/common/breadcrumb.tsx:25 | the href of each crumb is a strict prefix of the href of every later crumb |
| Breadcrumb.CrumbHrefsDistinct | src/assets/common/breadcrumb.tsx:25-28 | no two crumbs share an href, so the hrefs used as list keys are unique |
| Breadcrumb.LastHref | src/assets/common/breadcrumb.tsx:25 | the last crumb links to `/` followed by all segments joined with `/`: the pathname with empty segments removed |
| Breadcrumb.LastHrefOfNormalPath | src/assets/common/breadcrumb.tsx:15-25 | on a pathname without empty segments or a trailing slash, there is one crumb per segment and the last crumb links back to the pathname itself |
| Breadcrumb.SeparatorCount | src/assets/common/breadcrumb.tsx:30 | the number of rendered separators is at most the number of crumbs; `SeparatorsBetweenCrumbs` gives the exact count |
| Breadcrumb.SeparatorsBetweenCrumbs | src/assets/common/breadcrumb.tsx:30 | n crumbs carry max(n − 1, 0) separators |
| Breadcrumb.SeparatorCountAllButLast | src/assets/common/breadcrumb.tsx:30 | a crumb list with a separator after all but the last crumb has length − 1 separators (0 when empty) |

## Left out

- Rendering is not modelled: JSX, Tailwind classes, the recharts chart, the candlestick tooltip and the portfolio list markup.
- `generateHistoricalData` is not modelled. It is random mock chart data built with `Math.random`, `Date` and `toFixed`/`parseFloat` rounding, and nothing relies on it.
- The `setInterval` timer and its cleanup are not modelled. Only the update applied on each tick (`Platform.Tick`) is.
- `toFixed`, `toLocaleString` and `console.log` are host-library formatting and logging. The model keeps the numbers unformatted. The timestamp text is a parameter.
- `Date.now()` is not modelled. Ids, entry times and timestamps are parameters. One handler call is assumed to read the clock once, while the code reads it several times.
- `Math.random()` is not modelled. Its draws are parameters.
- VolatilityPlatform.PnL: computed on exact reals, not IEEE doubles, so rounding, `Infinity` and `NaN` are not modelled.
- VolatilityPlatform.Accepts: models a missing or `NaN` lot count as `None`. A lot count that is a numeric string is not modelled.
- The form's input fields are not part of the component's source, so no method edits the form. The fields of `Platform` can be set directly.
- Router access is not modelled: `useRouter`, `usePathname` and the `Link` component. The pathname is an input string.
- src/assets/trading-data.tsx is not part of this model. It holds a network fetch, a floating-point `Math.sqrt` standard deviation and an unused value.
- The card, button, list, list-item and home components are not part of this model. They are presentation only.
