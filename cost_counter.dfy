/**
  The counter's display state: the running total and the formatted value that was
  on screen before it. Each update first remembers the formatting of the total it
  replaces, then takes the new total. Amounts are whole cents.
 */
module Counter {
  import opened NumberFormat
  import opened DigitChange

  class CostCounter {
    /** The running total, in cents. */
    var totalCost: nat
    /** The formatted total shown before the latest update; digit changes are judged against it. */
    var previousNumber: Formatted

    /** Start-up: a zero total, and zero as the previous display. */
    constructor ()
      ensures totalCost == 0 && previousNumber == Format(0)
      ensures previousNumber == Formatted(["0"], "00")
    {
      FormatZero();
      var zero := FormatNumber(0);
      totalCost := 0;
      previousNumber := zero;
    }

    /** One update: the total being replaced becomes the previous display, then the new total is taken. */
    method Tick(newTotal: nat)
      modifies this
      ensures previousNumber == Format(old(totalCost))
      ensures totalCost == newTotal
    {
      var shown := FormatNumber(totalCost);
      previousNumber := shown;
      totalCost := newTotal;
    }

    /**
      One render: the formatted total and the change flag of every tile, judged against
      the previous display. The displayed digits read back as the total.
     */
    method Render() returns (current: Formatted, changes: Changes)
      ensures current == Format(totalCost)
      ensures changes == Diff(previousNumber, current)
      ensures WellGrouped(current.groups) && |current.decimal| == 2 && AllDigits(Concat(current.groups))
      ensures ValueOf(Concat(current.groups)) * 100 + ValueOf(current.decimal) == totalCost
    {
      current := FormatNumber(totalCost);
      changes := Diff(previousNumber, current);
    }
  }
}
