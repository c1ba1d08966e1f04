/**
  Per-digit change detection of the cost counter display.

  Every digit tile of the current formatted amount is compared with the character at
  the same group index and digit index of the previously displayed amount (for the
  decimal part, at the same index); a position the previous amount does not have reads
  as '0'. A tile is flagged when the two characters differ.
 */
module DigitChange {
  import opened NumberFormat

  /** NumberCard's test: the tile changed when its previous character differs from its own. */
  predicate HasChanged(previousValue: char, digit: char) {
    previousValue != digit
  }

  /** The previous character of an integer digit, '0' when the previous amount lacks it. */
  function PreviousGroupDigit(prev: Formatted, groupIndex: nat, digitIndex: nat): char {
    if groupIndex < |prev.groups| && digitIndex < |prev.groups[groupIndex]|
    then prev.groups[groupIndex][digitIndex]
    else '0'
  }

  /** The previous character of a decimal digit, '0' when the previous amount lacks it. */
  function PreviousDecimalDigit(prev: Formatted, index: nat): char {
    if index < |prev.decimal| then prev.decimal[index] else '0'
  }

  /** One flag per displayed digit: per group of the integer part, and for the decimal part. */
  datatype Changes = Changes(groups: seq<seq<bool>>, decimal: seq<bool>)

  /** The flags of every tile when `cur` is rendered after `prev`. */
  function Diff(prev: Formatted, cur: Formatted): (c: Changes)
    ensures |c.groups| == |cur.groups| && |c.decimal| == |cur.decimal|
    ensures forall g :: 0 <= g < |cur.groups| ==> |c.groups[g]| == |cur.groups[g]|
    ensures forall g, d :: 0 <= g < |cur.groups| && 0 <= d < |cur.groups[g]| ==>
      (c.groups[g][d] <==> cur.groups[g][d] != PreviousGroupDigit(prev, g, d))
    ensures forall i :: 0 <= i < |cur.decimal| ==>
      (c.decimal[i] <==> cur.decimal[i] != PreviousDecimalDigit(prev, i))
  {
    Changes(
      seq(|cur.groups|, g requires 0 <= g < |cur.groups| =>
        seq(|cur.groups[g]|, d requires 0 <= d < |cur.groups[g]| =>
          HasChanged(PreviousGroupDigit(prev, g, d), cur.groups[g][d]))),
      seq(|cur.decimal|, i requires 0 <= i < |cur.decimal| =>
        HasChanged(PreviousDecimalDigit(prev, i), cur.decimal[i])))
  }

  /** No tile is flagged. */
  predicate NoneFlagged(c: Changes) {
    (forall g, d :: 0 <= g < |c.groups| && 0 <= d < |c.groups[g]| ==> !c.groups[g][d]) &&
    (forall i :: 0 <= i < |c.decimal| ==> !c.decimal[i])
  }

  /** The two amounts have the same number of groups, of the same lengths, and decimal parts of one length. */
  predicate SameShape(a: Formatted, b: Formatted) {
    |a.groups| == |b.groups| && |a.decimal| == |b.decimal| &&
    forall g :: 0 <= g < |a.groups| ==> |a.groups[g]| == |b.groups[g]|
  }

  /** Re-rendering the same amount flags nothing. */
  lemma DiffSelf(f: Formatted)
    ensures NoneFlagged(Diff(f, f))
  {
  }

  /**
    Between amounts of the same shape, nothing is flagged exactly when nothing changed:
    every changed character is caught, and no unchanged one is flagged.
   */
  lemma DiffSameShape(prev: Formatted, cur: Formatted)
    requires SameShape(prev, cur)
    ensures NoneFlagged(Diff(prev, cur)) <==> prev == cur
  {
    var c := Diff(prev, cur);
    if NoneFlagged(c) {
      forall g | 0 <= g < |cur.groups|
        ensures prev.groups[g] == cur.groups[g]
      {
        forall d | 0 <= d < |cur.groups[g]|
          ensures prev.groups[g][d] == cur.groups[g][d]
        {
          assert !c.groups[g][d];
        }
      }
      forall i | 0 <= i < |cur.decimal|
        ensures prev.decimal[i] == cur.decimal[i]
      {
        assert !c.decimal[i];
      }
      assert prev.groups == cur.groups;
      assert prev.decimal == cur.decimal;
    }
  }

  /** A digit at a position the previous amount lacks is flagged exactly when it is not '0'. */
  lemma DiffMissingPosition(prev: Formatted, cur: Formatted, g: nat, d: nat)
    requires g < |cur.groups| && d < |cur.groups[g]|
    requires g >= |prev.groups| || d >= |prev.groups[g]|
    ensures Diff(prev, cur).groups[g][d] <==> cur.groups[g][d] != '0'
  {
  }

  /** The same for a decimal digit the previous amount lacks. */
  lemma DiffMissingDecimal(prev: Formatted, cur: Formatted, i: nat)
    requires i < |cur.decimal| && i >= |prev.decimal|
    ensures Diff(prev, cur).decimal[i] <==> cur.decimal[i] != '0'
  {
  }

  /**
    The previous value at start-up is the formatting of zero, so the first change is
    judged against '0' on every tile: a tile is flagged exactly when its digit is not '0'.
   */
  lemma DiffFromZero(cur: Formatted)
    ensures var c := Diff(Format(0), cur);
      (forall g, d :: 0 <= g < |cur.groups| && 0 <= d < |cur.groups[g]| ==>
        (c.groups[g][d] <==> cur.groups[g][d] != '0')) &&
      (forall i :: 0 <= i < |cur.decimal| ==> (c.decimal[i] <==> cur.decimal[i] != '0'))
  {
  }

  /** From 100.00 to 100.01 only the last decimal tile is flagged. */
  lemma DiffNextCent()
    ensures Diff(Format(10000), Format(10001)) == Changes([[false, false, false]], [false, true])
  {
    HundredFormats();
    var prev := Formatted(["100"], "00");
    var cur := Formatted(["100"], "01");
    var c := Diff(prev, cur);
    assert c.groups[0] == [false, false, false];
    assert c.groups == [[false, false, false]];
    assert c.decimal == [false, true];
  }

  /**
    Groups are matched by index from the most significant end, so when a carry opens a
    new group the comparison is shifted: from 999.99 to 1000.00 the new leading '1' and
    both decimals are flagged, while the three zeros of the second group, compared with
    positions 999.99 does not have, are not.
   */
  lemma DiffAcrossNewGroup()
    ensures Diff(Format(99999), Format(100000)) == Changes([[true], [false, false, false]], [true, true])
  {
    HundredFormats();
    ThousandFormat();
    var prev := Formatted(["999"], "99");
    var cur := Formatted(["1", "000"], "00");
    var c := Diff(prev, cur);
    assert c.groups[0] == [true];
    assert c.groups[1] == [false, false, false];
    assert c.groups == [[true], [false, false, false]];
    assert c.decimal == [true, true];
  }

  lemma HundredFormats()
    ensures Format(10000) == Formatted(["100"], "00")
    ensures Format(10001) == Formatted(["100"], "01")
    ensures Format(99999) == Formatted(["999"], "99")
  {
    assert DecimalText(10) == "10" && DecimalText(100) == "100";
    assert DecimalText(99) == "99" && DecimalText(999) == "999";
    assert Grouped("100") == Grouped("100"[..0]) + ["100"];
    assert Grouped("999") == Grouped("999"[..0]) + ["999"];
    assert TwoDigits(0) == "00" && TwoDigits(1) == "01" && TwoDigits(99) == "99";
  }

  lemma ThousandFormat()
    ensures Format(100000) == Formatted(["1", "000"], "00")
  {
    var w := "1000";
    assert DecimalText(10) == "10" && DecimalText(100) == "100";
    assert DecimalText(1000) == w;
    assert w[..1] == "1" && w[..1][..0] == [] && w[1..] == "000";
    assert Grouped(w[..1]) == ["1"] by {
      assert Grouped(w[..1]) == Grouped(w[..1][..0]) + [w[..1]];
    }
    assert TwoDigits(0) == "00";
  }
}
