/**
 * The trade ledger of the BTC volatility trading platform component: trades,
 * the trade form, the two simulated volatility levels, the P&L arithmetic
 * derived from them, and the handlers that replace that state.
 *
 * JavaScript numbers are modelled as `real` (no rounding, no NaN); ids and
 * millisecond clock readings as `int`. The form's lot count may be missing
 * (an empty or unparsable input), which is `None`.
 */
module VolatilityPlatform {
  import opened Wrappers

  datatype Direction = Long | Short
  datatype Timeframe = Days7 | Days30

  /** One open position. */
  datatype Trade = Trade(
    id: int,
    direction: Direction,
    lots: real,
    leverage: real,
    strikeVol: real,
    timeframe: Timeframe,
    timestamp: string,
    entryTime: int)

  /** The trade form: shaped like a trade, except that the lot count can be missing. */
  datatype Form = Form(
    direction: Direction,
    lots: Option<real>,
    leverage: real,
    strikeVol: real,
    timeframe: Timeframe,
    entryTime: int,
    timestamp: string,
    id: int)

  /** Dollar notional of one lot. */
  const LotNotional: real := 20.0

  /** Band of the simulated 7-day volatility and its initial level. */
  const Vol7dLow: real := 5.0
  const Vol7dHigh: real := 40.0
  const Vol7dInitial: real := 20.0
  /** Band of the simulated 30-day volatility and its initial level. */
  const Vol30dLow: real := 5.0
  const Vol30dHigh: real := 35.0
  const Vol30dInitial: real := 18.5
  /** Width of the uniform random step per tick: +-0.75 and +-0.6. */
  const Step7dWidth: real := 1.5
  const Step30dWidth: real := 1.2

  // ---------------------------------------------------------------------------
  // Volatility levels

  /** The volatility level that belongs to a timeframe. */
  function VolFor(tf: Timeframe, vol7d: real, vol30d: real): real
  {
    if tf == Days7 then vol7d else vol30d
  }

  function Min(a: real, b: real): real { if a <= b then a else b }
  function Max(a: real, b: real): real { if a >= b then a else b }

  /** `Math.max(lo, Math.min(hi, x))`. */
  function Clamp(x: real, lo: real, hi: real): (r: real)
    requires lo <= hi
    ensures lo <= r <= hi
    ensures lo <= x <= hi ==> r == x
    ensures x < lo ==> r == lo
    ensures hi < x ==> r == hi
  {
    Max(lo, Min(hi, x))
  }

  /** The step `(Math.random() - 0.5) * width` for a draw `u` of `Math.random()`. */
  function Step(u: real, width: real): (r: real)
    ensures 0.0 <= u < 1.0 && 0.0 <= width ==> -width / 2.0 <= r <= width / 2.0
  {
    assert (u - 0.5) * width == u * width - width / 2.0;
    assert 0.0 <= u < 1.0 && 0.0 <= width ==> 0.0 <= u * width <= width;
    (u - 0.5) * width
  }

  /**
   * One tick moves a level that lies in its band by at most half the step
   * width, and leaves it in the band.
   */
  lemma TickMovement(prev: real, u: real, width: real, lo: real, hi: real)
    requires lo <= prev <= hi
    requires 0.0 <= u < 1.0 && 0.0 <= width
    ensures lo <= Clamp(prev + Step(u, width), lo, hi) <= hi
    ensures -width / 2.0 <= Clamp(prev + Step(u, width), lo, hi) - prev <= width / 2.0
  {
  }

  // ---------------------------------------------------------------------------
  // P&L of one trade

  /** P&L = lots * signed volatility difference * leverage, at the trade's own timeframe. */
  function PnL(t: Trade, vol7d: real, vol30d: real): real
  {
    var current := VolFor(t.timeframe, vol7d, vol30d);
    var diff := if t.direction == Long then current - t.strikeVol else t.strikeVol - current;
    t.lots * diff * t.leverage
  }

  function Opposite(d: Direction): Direction
  {
    if d == Long then Short else Long
  }

  /** The same position taken in the other direction. */
  function Mirror(t: Trade): Trade
  {
    t.(direction := Opposite(t.direction))
  }

  /** A long trade gains what the matching short trade loses. */
  lemma PnLAntisymmetric(t: Trade, vol7d: real, vol30d: real)
    ensures PnL(Mirror(t), vol7d, vol30d) == -PnL(t, vol7d, vol30d)
  {
    var current := VolFor(t.timeframe, vol7d, vol30d);
    assert t.lots * (t.strikeVol - current) * t.leverage
        == -(t.lots * (current - t.strikeVol) * t.leverage);
  }

  /** A trade whose strike equals the current volatility of its timeframe is flat. */
  lemma PnLZeroAtStrike(t: Trade, vol7d: real, vol30d: real)
    requires t.strikeVol == VolFor(t.timeframe, vol7d, vol30d)
    ensures PnL(t, vol7d, vol30d) == 0.0
  {
  }

  /**
   * With positive lots and leverage a long trade is in profit exactly when
   * the volatility rose above the strike, a short one exactly when it fell.
   */
  lemma PnLSign(t: Trade, vol7d: real, vol30d: real)
    requires t.lots > 0.0 && t.leverage > 0.0
    ensures var current := VolFor(t.timeframe, vol7d, vol30d);
      PnL(t, vol7d, vol30d) > 0.0 <==>
        (if t.direction == Long then current > t.strikeVol else current < t.strikeVol)
  {
    var current := VolFor(t.timeframe, vol7d, vol30d);
    var diff := if t.direction == Long then current - t.strikeVol else t.strikeVol - current;
    var w := t.lots * t.leverage;
    assert w > 0.0;
    assert PnL(t, vol7d, vol30d) == w * diff;
    if diff > 0.0 {
      assert w * diff > 0.0;
    } else {
      assert w * diff <= 0.0;
    }
  }

  /** Only the level of the trade's own timeframe enters its P&L. */
  lemma PnLUsesOwnTimeframe(t: Trade, vol7d: real, vol30d: real, other: real)
    ensures t.timeframe == Days7 ==> PnL(t, vol7d, other) == PnL(t, vol7d, vol30d)
    ensures t.timeframe == Days30 ==> PnL(t, other, vol30d) == PnL(t, vol7d, vol30d)
  {
  }

  /** Two worked examples: a long trade in profit and a short trade in profit. */
  lemma PnLWorkedExamples()
    ensures PnL(Trade(1, Long, 1.0, 1.0, 20.0, Days7, "", 0), 25.0, 18.5) == 5.0
    ensures PnL(Trade(2, Short, 2.0, 2.0, 20.0, Days30, "", 0), 20.0, 15.0) == 20.0
  {
  }

  // ---------------------------------------------------------------------------
  // Portfolio totals (the `reduce` folds)

  /** `trades.reduce((sum, t) => sum + f(t), 0)`: a left fold, so the last trade is added last. */
  function SumOf(trades: seq<Trade>, f: Trade -> real): real
  {
    if trades == [] then 0.0 else SumOf(trades[..|trades| - 1], f) + f(trades[|trades| - 1])
  }

  function TotalPnL(trades: seq<Trade>, vol7d: real, vol30d: real): real
  {
    SumOf(trades, (t: Trade) => PnL(t, vol7d, vol30d))
  }

  function TotalLots(trades: seq<Trade>): real
  {
    SumOf(trades, (t: Trade) => t.lots)
  }

  /** Lot count times leverage times the $20 lot notional, summed. */
  function TotalExposure(trades: seq<Trade>): real
  {
    SumOf(trades, (t: Trade) => t.lots * t.leverage * LotNotional)
  }

  /** Every total of an empty ledger is zero. */
  lemma TotalsOfEmptyLedger(vol7d: real, vol30d: real)
    ensures TotalPnL([], vol7d, vol30d) == 0.0
    ensures TotalLots([]) == 0.0
    ensures TotalExposure([]) == 0.0
  {
  }

  /** A fold over two ledgers laid end to end is the sum of the two folds. */
  lemma {:induction false} SumOfAppend(a: seq<Trade>, b: seq<Trade>, f: Trade -> real)
    ensures SumOf(a + b, f) == SumOf(a, f) + SumOf(b, f)
    decreases |b|
  {
    if b == [] {
      assert a + b == a;
    } else {
      var n := |b| - 1;
      assert (a + b)[..|a + b| - 1] == a + b[..n];
      assert (a + b)[|a + b| - 1] == b[n];
      SumOfAppend(a, b[..n], f);
    }
  }

  /** The total P&L of a ledger is minus that of its mirror image. */
  lemma {:induction false} TotalPnLMirror(trades: seq<Trade>, vol7d: real, vol30d: real)
    ensures TotalPnL(MirrorAll(trades), vol7d, vol30d) == -TotalPnL(trades, vol7d, vol30d)
    decreases |trades|
  {
    if trades != [] {
      var n := |trades| - 1;
      assert MirrorAll(trades)[..n] == MirrorAll(trades[..n]);
      TotalPnLMirror(trades[..n], vol7d, vol30d);
      PnLAntisymmetric(trades[n], vol7d, vol30d);
    }
  }

  function MirrorAll(trades: seq<Trade>): (r: seq<Trade>)
    ensures |r| == |trades|
  {
    seq(|trades|, i requires 0 <= i < |trades| => Mirror(trades[i]))
  }

  /** With every lot count positive, total lots is positive exactly when the ledger is not empty. */
  lemma {:induction false} TotalLotsPositive(trades: seq<Trade>)
    requires forall i :: 0 <= i < |trades| ==> trades[i].lots > 0.0
    ensures TotalLots(trades) >= 0.0
    ensures TotalLots(trades) > 0.0 <==> trades != []
    decreases |trades|
  {
    if trades != [] {
      TotalLotsPositive(trades[..|trades| - 1]);
    }
  }

  // ---------------------------------------------------------------------------
  // The trade form

  /** `tradeForm.lots || 0`: a missing lot count reads as zero. */
  function FormLots(form: Form): real
  {
    form.lots.GetOr(0.0)
  }

  /** Dollar value of the lots on the form. */
  function Notional(form: Form): real
  {
    FormLots(form) * LotNotional
  }

  /** Notional value times the form's leverage. */
  function EffectiveExposure(form: Form): real
  {
    FormLots(form) * LotNotional * form.leverage
  }

  /** The form's notional and exposure, with a missing lot count as zero lots. */
  lemma FormFigures(form: Form)
    ensures EffectiveExposure(form) == Notional(form) * form.leverage
    ensures form.lots.None? ==> Notional(form) == 0.0 && EffectiveExposure(form) == 0.0
    ensures form.lots.Some? ==> Notional(form) == form.lots.value * 20.0
  {
  }

  /** The guard of `handleTrade`: the lot count is present and positive. */
  predicate Accepts(form: Form)
  {
    form.lots.Some? && form.lots.value > 0.0
  }

  /** The guard admits a form exactly when its notional value is positive. */
  lemma AcceptsIffPositiveNotional(form: Form)
    ensures Accepts(form) <==> Notional(form) > 0.0
  {
  }

  /** The trade opened from an accepted form at volatility `strike`, at clock reading `now`. */
  function NewTrade(form: Form, strike: real, now: int, nowText: string): (t: Trade)
    requires Accepts(form)
    ensures t.lots > 0.0
  {
    Trade(now, form.direction, form.lots.value, form.leverage, strike, form.timeframe, nowText, now)
  }

  /** The form after a submission: long, zero lots, leverage 1, 7d, strike at the level just used. */
  function ResetForm(strike: real, now: int, nowText: string): (form: Form)
    ensures !Accepts(form)
    ensures Notional(form) == 0.0
  {
    Form(Long, Some(0.0), 1.0, strike, Days7, now, nowText, now)
  }

  /** A trade opened at the current level of its own timeframe starts flat. */
  lemma NewTradeStartsFlat(form: Form, vol7d: real, vol30d: real, now: int, nowText: string)
    requires Accepts(form)
    ensures PnL(NewTrade(form, VolFor(form.timeframe, vol7d, vol30d), now, nowText), vol7d, vol30d) == 0.0
  {
  }

  /**
   * Opening a trade leaves the total P&L where it was, adds the form's lots to
   * the total lots and the form's effective exposure to the total exposure.
   */
  lemma OpenTradeTotals(trades: seq<Trade>, form: Form, vol7d: real, vol30d: real, now: int, nowText: string)
    requires Accepts(form)
    ensures var t := NewTrade(form, VolFor(form.timeframe, vol7d, vol30d), now, nowText);
      TotalPnL(trades + [t], vol7d, vol30d) == TotalPnL(trades, vol7d, vol30d) &&
      TotalLots(trades + [t]) == TotalLots(trades) + FormLots(form) &&
      TotalExposure(trades + [t]) == TotalExposure(trades) + EffectiveExposure(form)
  {
    var t := NewTrade(form, VolFor(form.timeframe, vol7d, vol30d), now, nowText);
    assert (trades + [t])[..|trades|] == trades;
    NewTradeStartsFlat(form, vol7d, vol30d, now, nowText);
  }

  // ---------------------------------------------------------------------------
  // Closing trades

  /** `trades.filter(t => t.id !== id)`. */
  function WithoutId(trades: seq<Trade>, id: int): (r: seq<Trade>)
    ensures |r| <= |trades|
  {
    if trades == [] then []
    else (if trades[0].id != id then [trades[0]] else []) + WithoutId(trades[1..], id)
  }

  /** The complementary filter: the trades that closing `id` removes. */
  function WithId(trades: seq<Trade>, id: int): seq<Trade>
  {
    if trades == [] then []
    else (if trades[0].id == id then [trades[0]] else []) + WithId(trades[1..], id)
  }

  /** The survivors are exactly the trades whose id differs, none added. */
  lemma {:induction false} WithoutIdMembers(trades: seq<Trade>, id: int)
    ensures |WithoutId(trades, id)| <= |trades|
    ensures forall t :: t in WithoutId(trades, id) <==> t in trades && t.id != id
    decreases |trades|
  {
    if trades != [] {
      WithoutIdMembers(trades[1..], id);
      assert trades == [trades[0]] + trades[1..];
    }
  }

  /** Filtering distributes over concatenation, so the survivors keep their order. */
  lemma {:induction false} WithoutIdAppend(a: seq<Trade>, b: seq<Trade>, id: int)
    ensures WithoutId(a + b, id) == WithoutId(a, id) + WithoutId(b, id)
    decreases |a|
  {
    if a == [] {
      assert a + b == b;
    } else {
      assert (a + b)[1..] == a[1..] + b;
      WithoutIdAppend(a[1..], b, id);
    }
  }

  /** Closing the same id twice removes nothing the first call left. */
  lemma {:induction false} WithoutIdIdempotent(trades: seq<Trade>, id: int)
    ensures WithoutId(WithoutId(trades, id), id) == WithoutId(trades, id)
    decreases |trades|
  {
    if trades != [] {
      WithoutIdIdempotent(trades[1..], id);
      var rest := WithoutId(trades[1..], id);
      if trades[0].id != id {
        assert WithoutId(trades, id) == [trades[0]] + rest;
        WithoutIdAppend([trades[0]], rest, id);
        assert WithoutId([trades[0]], id) == [trades[0]] + WithoutId([trades[0]][1..], id);
      } else {
        assert [] + rest == rest;
        assert WithoutId(trades, id) == rest;
      }
    }
  }

  /** Closing an id no trade carries changes nothing. */
  lemma {:induction false} WithoutAbsentId(trades: seq<Trade>, id: int)
    requires forall i :: 0 <= i < |trades| ==> trades[i].id != id
    ensures WithoutId(trades, id) == trades
    decreases |trades|
  {
    if trades != [] {
      WithoutAbsentId(trades[1..], id);
      assert trades == [trades[0]] + trades[1..];
    }
  }

  /** When exactly one trade carries the id, closing it removes that one entry and nothing else. */
  lemma WithoutUniqueId(trades: seq<Trade>, id: int, k: nat)
    requires k < |trades| && trades[k].id == id
    requires forall i :: 0 <= i < |trades| && i != k ==> trades[i].id != id
    ensures WithoutId(trades, id) == trades[..k] + trades[k + 1..]
  {
    var before, after := trades[..k], trades[k + 1..];
    assert trades == before + [trades[k]] + after;
    WithoutMatchSplits(before, trades[k], after, id);
    assert forall i :: 0 <= i < |before| ==> before[i].id == trades[i].id;
    WithoutAbsentId(before, id);
    assert forall i :: 0 <= i < |after| ==> after[i].id == trades[k + 1 + i].id;
    WithoutAbsentId(after, id);
  }

  /** Closing removes a matching trade wherever it sits. */
  lemma WithoutMatchSplits(a: seq<Trade>, t: Trade, b: seq<Trade>, id: int)
    requires t.id == id
    ensures WithoutId(a + [t] + b, id) == WithoutId(a, id) + WithoutId(b, id)
  {
    var at := a + [t];
    WithoutIdAppend(at, b, id);
    WithoutIdAppend(a, [t], id);
    WithoutIdSingle(t, id);
  }

  lemma WithoutIdSingle(t: Trade, id: int)
    ensures WithoutId([t], id) == if t.id != id then [t] else []
  {
    var s := [t];
    assert s[1..] == [];
    assert WithoutId(s[1..], id) == [];
  }

  /**
   * Closing the trade just opened undoes the opening, provided no earlier
   * trade shares its id (ids are clock readings and can collide).
   */
  lemma CloseUndoesOpen(trades: seq<Trade>, t: Trade)
    requires forall i :: 0 <= i < |trades| ==> trades[i].id != t.id
    ensures WithoutId(trades + [t], t.id) == trades
  {
    WithoutIdAppend(trades, [t], t.id);
    WithoutAbsentId(trades, t.id);
  }

  /** Closing trades realises their P&L: what stays plus what was closed is the old total. */
  lemma {:induction false} SumOfSplit(trades: seq<Trade>, id: int, f: Trade -> real)
    ensures SumOf(trades, f) == SumOf(WithoutId(trades, id), f) + SumOf(WithId(trades, id), f)
    decreases |trades|
  {
    if trades != [] {
      var head := [trades[0]];
      var keep := if trades[0].id != id then head else [];
      var gone := if trades[0].id == id then head else [];
      assert trades == head + trades[1..];
      SumOfAppend(head, trades[1..], f);
      SumOfAppend(keep, WithoutId(trades[1..], id), f);
      SumOfAppend(gone, WithId(trades[1..], id), f);
      SumOfSplit(trades[1..], id, f);
    }
  }

  // ---------------------------------------------------------------------------
  // Component state

  /** The component's state slots and the handlers that replace them. */
  class Platform {
    var vol7d: real
    var vol30d: real
    var selectedTimeframe: Timeframe
    var trades: seq<Trade>
    var showTradeModal: bool
    var form: Form

    /** Both levels stay in their bands; every open trade has positive lots. */
    ghost predicate Valid()
      reads this
    {
      Vol7dLow <= vol7d <= Vol7dHigh && Vol30dLow <= vol30d <= Vol30dHigh &&
      forall i :: 0 <= i < |trades| ==> trades[i].lots > 0.0
    }

    /** The initial state, with the clock read as `now`. */
    constructor (now: int, nowText: string)
      ensures Valid()
      ensures vol7d == Vol7dInitial && vol30d == Vol30dInitial
      ensures selectedTimeframe == Days7 && trades == [] && !showTradeModal
      ensures form == Form(Long, Some(0.0), 1.0, 20.0, Days7, now, nowText, now)
    {
      vol7d, vol30d := Vol7dInitial, Vol30dInitial;
      selectedTimeframe := Days7;
      trades := [];
      showTradeModal := false;
      form := Form(Long, Some(0.0), 1.0, 20.0, Days7, now, nowText, now);
    }

    /** `getCurrentVol`: the level of the selected timeframe. */
    function CurrentVol(): (r: real)
      reads this
      requires Valid()
      ensures r == vol7d || r == vol30d
      ensures Vol7dLow <= r <= Vol7dHigh
      ensures selectedTimeframe == Days30 ==> r <= Vol30dHigh
    {
      VolFor(selectedTimeframe, vol7d, vol30d)
    }

    /** The 7D / 30D buttons. */
    method SelectTimeframe(tf: Timeframe)
      requires Valid()
      modifies this`selectedTimeframe
      ensures Valid()
      ensures selectedTimeframe == tf
    {
      selectedTimeframe := tf;
    }

    /** The New Trade button. */
    method OpenTradeModal()
      requires Valid()
      modifies this`showTradeModal
      ensures Valid()
      ensures showTradeModal
    {
      showTradeModal := true;
    }

    /**
     * The interval callback, given its two `Math.random()` draws: each level
     * moves by its random step and is clamped to its band.
     */
    method Tick(u7d: real, u30d: real)
      requires Valid()
      requires 0.0 <= u7d < 1.0 && 0.0 <= u30d < 1.0
      modifies this`vol7d, this`vol30d
      ensures Valid()
      ensures vol7d == Clamp(old(vol7d) + Step(u7d, Step7dWidth), Vol7dLow, Vol7dHigh)
      ensures vol30d == Clamp(old(vol30d) + Step(u30d, Step30dWidth), Vol30dLow, Vol30dHigh)
      ensures -0.75 <= vol7d - old(vol7d) <= 0.75
      ensures -0.6 <= vol30d - old(vol30d) <= 0.6
    {
      TickMovement(vol7d, u7d, Step7dWidth, Vol7dLow, Vol7dHigh);
      TickMovement(vol30d, u30d, Step30dWidth, Vol30dLow, Vol30dHigh);
      vol7d := Clamp(vol7d + Step(u7d, Step7dWidth), Vol7dLow, Vol7dHigh);
      vol30d := Clamp(vol30d + Step(u30d, Step30dWidth), Vol30dLow, Vol30dHigh);
    }

    /**
     * `handleTrade`: a form without a positive lot count changes nothing;
     * otherwise one trade struck at the current level of the form's timeframe
     * is appended, the modal closes and the form is reset.
     */
    method HandleTrade(now: int, nowText: string)
      requires Valid()
      modifies this`trades, this`showTradeModal, this`form
      ensures Valid()
      ensures !Accepts(old(form)) ==>
        trades == old(trades) && form == old(form) && showTradeModal == old(showTradeModal)
      ensures Accepts(old(form)) ==>
        var strike := VolFor(old(form).timeframe, vol7d, vol30d);
        trades == old(trades) + [NewTrade(old(form), strike, now, nowText)] &&
        !showTradeModal &&
        form == ResetForm(strike, now, nowText)
    {
      if !Accepts(form) {
        return;
      }
      var strike := VolFor(form.timeframe, vol7d, vol30d);
      trades := trades + [NewTrade(form, strike, now, nowText)];
      showTradeModal := false;
      form := ResetForm(strike, now, nowText);
    }

    /** `closeTrade`: keeps exactly the trades whose id differs, in order. */
    method CloseTrade(id: int)
      requires Valid()
      modifies this`trades
      ensures Valid()
      ensures trades == WithoutId(old(trades), id)
    {
      WithoutIdMembers(trades, id);
      trades := WithoutId(trades, id);
    }
  }
}
