/** The constants of the swaption grid and the calculation parameters
    (src/config.py). Only the values the statistics engine reads are kept. */
module Config {

  /** Option expiries shown in the table; the list order is the display order. */
  const OptionTenors: seq<string> := ["1M", "3M", "6M", "1Y", "2Y"]

  /** Underlying swap tenors (years) shown in the table. */
  const SwapTenors: seq<nat> := [2, 5, 10, 30]

  /** Rolling windows (observations) of the realized-vol columns. */
  const RealizedVolWindows: seq<nat> := [10, 20, 60, 90, 120, 180]

  const TradingDaysPerYear: nat := 252

  /** Trailing window of the implied-vol high/low. */
  const HighLowWindow: nat := 20

  /** Minimum history for an implied-vol row to be emitted. */
  const MinImpliedHistory: nat := 5
}
