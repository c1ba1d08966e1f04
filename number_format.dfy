/**
  The digit-grouping formatter of the cost counter (formatNumber).

  An amount is a non-negative whole number of cents. Its fixed-point text with two
  decimals is split into the text of the whole part and a two-character decimal part;
  the whole part is then cut into groups of three characters counted from the right,
  most significant group first.
 */
module NumberFormat {

  // ---------------------------------------------------------------------------
  // Decimal digits and their values
  // ---------------------------------------------------------------------------

  predicate IsDigit(c: char) {
    '0' <= c <= '9'
  }

  predicate AllDigits(s: seq<char>) {
    forall i :: 0 <= i < |s| ==> IsDigit(s[i])
  }

  function DigitValue(c: char): (d: nat)
    requires IsDigit(c)
    ensures d < 10
  {
    c as int - '0' as int
  }

  function DigitChar(d: nat): (c: char)
    requires d < 10
    ensures IsDigit(c) && DigitValue(c) == d
  {
    ('0' as int + d) as char
  }

  /** The number a string of decimal digits denotes, most significant digit first. */
  function ValueOf(s: seq<char>): nat
    requires AllDigits(s)
  {
    if s == [] then 0 else ValueOf(s[..|s| - 1]) * 10 + DigitValue(s[|s| - 1])
  }

  /**
    The decimal text of a whole number, as a number's integer part is written by
    fixed-point conversion: at least one digit and no leading zero.
   */
  function DecimalText(n: nat): (s: seq<char>)
    ensures 1 <= |s| && AllDigits(s)
    ensures s[0] == '0' ==> n == 0
    decreases n
  {
    if n < 10 then [DigitChar(n)] else DecimalText(n / 10) + [DigitChar(n % 10)]
  }

  lemma {:induction false} DecimalTextRoundTrip(n: nat)
    ensures ValueOf(DecimalText(n)) == n
    decreases n
  {
    var s := DecimalText(n);
    if n >= 10 {
      DecimalTextRoundTrip(n / 10);
      assert s[..|s| - 1] == DecimalText(n / 10);
    } else {
      assert s[..|s| - 1] == [];
    }
  }

  /** A digit string without a leading zero is worth at least its first digit's place. */
  lemma {:induction false} ValueOfLeading(s: seq<char>)
    requires AllDigits(s) && 2 <= |s| && s[0] != '0'
    ensures ValueOf(s) >= 10
    decreases |s|
  {
    var front := s[..|s| - 1];
    if |front| >= 2 {
      ValueOfLeading(front);
    } else {
      assert front[..0] == [];
      assert ValueOf(front) == DigitValue(s[0]) >= 1;
    }
  }

  /** Every digit string without a leading zero is the decimal text of its own value. */
  lemma {:induction false} DecimalTextCanonical(s: seq<char>)
    requires AllDigits(s) && 1 <= |s| && (s[0] == '0' ==> |s| == 1)
    ensures DecimalText(ValueOf(s)) == s
    decreases |s|
  {
    var n := ValueOf(s);
    var front := s[..|s| - 1];
    if |s| == 1 {
      assert front == [];
      assert DigitChar(DigitValue(s[0])) == s[0];
    } else {
      ValueOfLeading(s);
      assert front[0] == s[0];
      DecimalTextCanonical(front);
      assert n / 10 == ValueOf(front) && n % 10 == DigitValue(s[|s| - 1]);
      assert DigitChar(DigitValue(s[|s| - 1])) == s[|s| - 1];
      assert front + [s[|s| - 1]] == s;
    }
  }

  /** The two-character decimal part: the cents, zero-padded to two digits. */
  function TwoDigits(n: nat): (s: seq<char>)
    requires n < 100
    ensures |s| == 2 && AllDigits(s) && ValueOf(s) == n
  {
    var s := [DigitChar(n / 10), DigitChar(n % 10)];
    assert s[..1][..0] == [];
    assert s[..1] == [DigitChar(n / 10)];
    assert ValueOf(s[..1]) == n / 10;
    s
  }

  // ---------------------------------------------------------------------------
  // Grouping by three from the right
  // ---------------------------------------------------------------------------

  /** Start index of the last group of a prefix of length n. */
  function GroupStart(n: nat): (lo: nat)
    ensures lo <= n && n - lo <= 3
    ensures lo > 0 ==> n - lo == 3
  {
    if n < 3 then 0 else n - 3
  }

  /** The groups of w: the last (up to) three characters, preceded by the groups of the rest. */
  function Grouped(w: seq<char>): seq<seq<char>>
    decreases |w|
  {
    if |w| == 0 then [] else Grouped(w[..GroupStart(|w|)]) + [w[GroupStart(|w|)..]]
  }

  /** The concatenation of a list of groups, in order. */
  function Concat(gs: seq<seq<char>>): seq<char> {
    if gs == [] then [] else Concat(gs[..|gs| - 1]) + gs[|gs| - 1]
  }

  lemma {:induction false} ConcatGrouped(w: seq<char>)
    ensures Concat(Grouped(w)) == w
    decreases |w|
  {
    if |w| > 0 {
      var lo := GroupStart(|w|);
      var gs := Grouped(w);
      ConcatGrouped(w[..lo]);
      assert gs[..|gs| - 1] == Grouped(w[..lo]);
      assert w[..lo] + w[lo..] == w;
    }
  }

  /** Every group has one to three characters, all but the first exactly three. */
  predicate WellGrouped(gs: seq<seq<char>>) {
    forall k :: 0 <= k < |gs| ==> 1 <= |gs[k]| <= 3 && (k > 0 ==> |gs[k]| == 3)
  }

  lemma {:induction false} GroupedShape(w: seq<char>)
    ensures |Grouped(w)| == (|w| + 2) / 3
    ensures WellGrouped(Grouped(w))
    decreases |w|
  {
    if |w| > 0 {
      var lo := GroupStart(|w|);
      GroupedShape(w[..lo]);
      var gs := Grouped(w);
      var front := Grouped(w[..lo]);
      assert gs == front + [w[lo..]];
      forall k | 0 <= k < |gs|
        ensures 1 <= |gs[k]| <= 3 && (k > 0 ==> |gs[k]| == 3)
      {
        if k < |front| {
          assert gs[k] == front[k];
        } else if lo == 0 {
          assert |front| == 0;
        }
      }
    }
  }

  lemma {:induction false} GroupedDigits(w: seq<char>)
    requires AllDigits(w)
    ensures forall k :: 0 <= k < |Grouped(w)| ==> AllDigits(Grouped(w)[k])
    decreases |w|
  {
    if |w| > 0 {
      var lo := GroupStart(|w|);
      GroupedDigits(w[..lo]);
      var gs := Grouped(w);
      var front := Grouped(w[..lo]);
      forall k | 0 <= k < |gs|
        ensures AllDigits(gs[k])
      {
        if k < |front| {
          assert gs[k] == front[k];
        }
      }
    }
  }

  /** The groups of a prefix: its last slice, after the groups of the prefix before it. */
  lemma GroupedPrefix(w: seq<char>, i: nat)
    requires 0 < i <= |w|
    ensures Grouped(w[..i]) == Grouped(w[..GroupStart(i)]) + [w[GroupStart(i)..i]]
  {
    var lo := GroupStart(i);
    assert w[..i][..lo] == w[..lo];
    assert w[..i][lo..] == w[lo..i];
  }

  // ---------------------------------------------------------------------------
  // formatNumber
  // ---------------------------------------------------------------------------

  /** The formatted amount: integer groups, most significant first, and the decimal part. */
  datatype Formatted = Formatted(groups: seq<seq<char>>, decimal: seq<char>)

  /** The integer part of the fixed-point text of an amount. */
  function WholeText(cents: nat): seq<char> {
    DecimalText(cents / 100)
  }

  /** What formatNumber returns for an amount of `cents`. */
  function Format(cents: nat): Formatted {
    Formatted(Grouped(WholeText(cents)), TwoDigits(cents % 100))
  }

  /** The groups rebuild the whole part; the decimal part has exactly two digits. */
  lemma FormatShape(cents: nat)
    ensures var f := Format(cents);
      Concat(f.groups) == WholeText(cents) &&
      |f.groups| == (|WholeText(cents)| + 2) / 3 && 1 <= |f.groups| &&
      WellGrouped(f.groups) &&
      (forall k :: 0 <= k < |f.groups| ==> AllDigits(f.groups[k])) &&
      |f.decimal| == 2 && AllDigits(f.decimal)
  {
    ConcatGrouped(WholeText(cents));
    GroupedShape(WholeText(cents));
    GroupedDigits(WholeText(cents));
  }

  /** Reading the groups back as a number, times 100, plus the decimal part gives the cents. */
  lemma FormatRoundTrip(cents: nat)
    ensures AllDigits(Concat(Format(cents).groups))
    ensures ValueOf(Concat(Format(cents).groups)) * 100 + ValueOf(Format(cents).decimal) == cents
  {
    FormatShape(cents);
    DecimalTextRoundTrip(cents / 100);
  }

  /** Distinct amounts are never formatted alike. */
  lemma FormatInjective(a: nat, b: nat)
    requires Format(a) == Format(b)
    ensures a == b
  {
    FormatRoundTrip(a);
    FormatRoundTrip(b);
  }

  /** The initial previous value: zero is one group "0" and decimals "00". */
  lemma FormatZero()
    ensures Format(0) == Formatted(["0"], "00")
  {
  }

  /** 12345.67 is grouped as 12 | 345 with decimals 67. */
  lemma FormatThousands()
    ensures Format(1234567) == Formatted(["12", "345"], "67")
  {
    ThousandsText(1234567);
    ThousandsGroups();
    assert TwoDigits(67) == "67";
  }

  lemma ThousandsText(cents: nat)
    requires cents == 1234567
    ensures WholeText(cents) == "12345"
  {
    var s1 := ['1'];
    assert s1[..0] == [];
    var s2 := s1 + ['2'];
    ValueOfAppend(s1, '2');
    var s3 := s2 + ['3'];
    ValueOfAppend(s2, '3');
    var s4 := s3 + ['4'];
    ValueOfAppend(s3, '4');
    var s5 := s4 + ['5'];
    ValueOfAppend(s4, '5');
    assert ValueOf(s5) == cents / 100;
    DecimalTextCanonical(s5);
    assert s5 == "12345";
  }

  lemma ThousandsGroups()
    ensures Grouped("12345") == ["12", "345"]
  {
    var w := "12345";
    assert w[..2] == "12" && w[..2][..0] == [];
    assert Grouped(w[..2]) == ["12"] by {
      assert Grouped(w[..2]) == Grouped(w[..2][..0]) + [w[..2]];
    }
    assert w[2..] == "345";
  }

  /** 1234567.89 is grouped as 1 | 234 | 567 with decimals 89: a full middle group. */
  lemma FormatMillions()
    ensures Format(123456789) == Formatted(["1", "234", "567"], "89")
  {
    MillionsText(123456789);
    MillionsGroups();
    assert TwoDigits(89) == "89";
  }

  lemma MillionsText(cents: nat)
    requires cents == 123456789
    ensures WholeText(cents) == "1234567"
  {
    var s1 := ['1'];
    assert s1[..0] == [];
    var s2 := s1 + ['2'];
    ValueOfAppend(s1, '2');
    var s3 := s2 + ['3'];
    ValueOfAppend(s2, '3');
    var s4 := s3 + ['4'];
    ValueOfAppend(s3, '4');
    var s5 := s4 + ['5'];
    ValueOfAppend(s4, '5');
    var s6 := s5 + ['6'];
    ValueOfAppend(s5, '6');
    var s7 := s6 + ['7'];
    ValueOfAppend(s6, '7');
    assert ValueOf(s7) == cents / 100;
    DecimalTextCanonical(s7);
    assert s7 == "1234567";
  }

  lemma ValueOfAppend(s: seq<char>, c: char)
    requires AllDigits(s) && IsDigit(c)
    ensures AllDigits(s + [c]) && ValueOf(s + [c]) == ValueOf(s) * 10 + DigitValue(c)
  {
    assert (s + [c])[..|s|] == s;
  }

  lemma MillionsGroups()
    ensures Grouped("1234567") == ["1", "234", "567"]
  {
    var w := "1234567";
    assert w[..1] == "1" && w[..1][..0] == [];
    assert Grouped(w[..1]) == ["1"] by {
      assert Grouped(w[..1]) == Grouped(w[..1][..0]) + [w[..1]];
    }
    assert w[..4][..1] == w[..1] && w[..4][1..] == "234";
    assert Grouped(w[..4]) == ["1", "234"] by {
      assert Grouped(w[..4]) == Grouped(w[..4][..1]) + [w[..4][1..]];
    }
    assert w[..7] == w && w[..7][..4] == w[..4] && w[4..] == "567";
    assert Grouped(w) == ["1", "234", "567"] by {
      assert Grouped(w) == Grouped(w[..4]) + [w[4..]];
    }
  }

  /**
    formatNumber: builds the groups by walking an index down from the end of the
    whole part in steps of three and putting each slice in front of those found so far.
   */
  method FormatNumber(cents: nat) returns (f: Formatted)
    ensures f == Format(cents)
    ensures Concat(f.groups) == WholeText(cents)
    ensures WellGrouped(f.groups) && |f.groups| == (|WholeText(cents)| + 2) / 3
    ensures |f.decimal| == 2 && AllDigits(f.decimal)
    ensures AllDigits(Concat(f.groups))
    ensures ValueOf(Concat(f.groups)) * 100 + ValueOf(f.decimal) == cents
  {
    var whole := DecimalText(cents / 100);
    var decimal := TwoDigits(cents % 100);
    var groups: seq<seq<char>> := [];
    var i: int := |whole|;
    assert whole[..i] == whole;
    while i > 0
      invariant -2 <= i <= |whole|
      invariant Grouped(whole) == Grouped(whole[..if i < 0 then 0 else i]) + groups
      decreases i
    {
      var lo := if i - 3 < 0 then 0 else i - 3;
      GroupedPrefix(whole, i);
      groups := [whole[lo..i]] + groups;
      i := i - 3;
    }
    assert whole[..0] == [];
    f := Formatted(groups, decimal);
    assert f == Format(cents);
    FormatShape(cents);
    FormatRoundTrip(cents);
  }
}
