/**
 * The digit-folding hash that places a customer ID in the customer table:
 * the decimal form of the ID is cut into groups as wide as the largest
 * table index, the last group also taking any leftover digits, and the
 * groups' values are summed modulo the table size. An ID with fewer digits
 * than one group hashes to itself modulo the table size.
 */
module Hashing {
  import opened Strings

  /** Width of one digit group: the digit count of `tableSize - 1` (`log10(tableSize - 1) + 1`). */
  function GroupWidth(tableSize: int): (g: nat)
    requires tableSize >= 2
    ensures g >= 1
  {
    NumDigits(tableSize - 1)
  }

  /**
   * The folded sum of the digits of `s` from the group starting at `index`:
   * that group, plus either the fold of the groups after it or, when less
   * than a second full group remains, the value of whatever remains.
   */
  function FoldFrom(s: string, g: nat, index: nat): nat
    requires g >= 1 && AllDigits(s) && index + g <= |s|
    decreases |s| - index
  {
    DigitsValue(s[index..index + g])
    + if |s| - index < 2 * g then
        (if |s| > index + g then DigitsValue(s[index + g..]) else 0)
      else
        FoldFrom(s, g, index + g)
  }

  /** The fold from `index` on, or 0 once no full group is left there. */
  function FoldRest(s: string, g: nat, index: nat): nat
    requires g >= 1 && AllDigits(s)
  {
    if index + g <= |s| then FoldFrom(s, g, index) else 0
  }

  /** The bucket of a non-negative key in a table of `tableSize` buckets. */
  function BucketOf(key: int, tableSize: int): (h: int)
    requires key >= 0 && tableSize >= 2
    ensures 0 <= h < tableSize
  {
    var s := NatToString(key);
    var g := GroupWidth(tableSize);
    (if |s| < g then key else FoldFrom(s, g, 0)) % tableSize
  }

  // Arithmetic facts about digit groups, kept in small lemmas of their own.

  lemma DivMod(len: nat, g: nat)
    requires g >= 1
    ensures len == (len / g) * g + len % g && 0 <= len % g < g
  {
  }

  lemma ModSmall(x: int, m: int)
    requires 0 <= x < m
    ensures x % m == x
  {
  }

  lemma MulMonotone(a: nat, b: nat, g: nat)
    requires a <= b
    ensures a * g <= b * g
  {
  }

  lemma MulSucc(i: nat, g: nat)
    ensures i * g + g == (i + 1) * g
  {
  }

  lemma DivOfMultiple(i: nat, g: nat)
    requires g >= 1
    ensures ((i + 1) * g) / g == i + 1
  {
    var x := (i + 1) * g;
    DivMod(x, g);
    var q := x / g;
    if q > i + 1 {
      MulMonotone(i + 2, q, g);
      MulSucc(i + 1, g);
    } else if q < i + 1 {
      MulMonotone(q, i, g);
      MulSucc(i, g);
    }
  }

  /** Group `i` (0-based) ends inside a string of `len` digits exactly when `i < len / g`. */
  lemma GroupBounds(len: nat, g: nat, i: nat)
    requires g >= 1
    ensures (i + 1) * g <= len <==> i < len / g
    ensures (i * g + g) / g == i + 1
  {
    DivMod(len, g);
    var q := len / g;
    if i < q {
      MulMonotone(i + 1, q, g);
    } else {
      MulMonotone(q + 1, i + 1, g);
      MulSucc(q, g);
    }
    MulSucc(i, g);
    DivOfMultiple(i, g);
  }

  /**
   * `index` is where group `i` starts, `i * g`, spelled out by repeated
   * addition so that the loop below stays within linear arithmetic.
   */
  predicate GroupStart(index: int, i: nat, g: nat)
    decreases i
  {
    if i == 0 then index == 0 else GroupStart(index - g, i - 1, g)
  }

  lemma {:induction false} GroupStartIsProduct(index: int, i: nat, g: nat)
    ensures GroupStart(index, i, g) <==> index == i * g
    decreases i
  {
    if i > 0 {
      GroupStartIsProduct(index - g, i - 1, g);
      MulSucc(i - 1, g);
    }
  }

  /**
   * One iteration of the source's loop, at group `i`: the fold of the digits
   * from that group on is the group, plus the leftover digits when this is
   * the last iteration, plus the fold of the following groups otherwise.
   */
  lemma FoldStep(s: string, g: nat, i: nat, index: nat)
    requires g >= 1 && AllDigits(s) && i < |s| / g && GroupStart(index, i, g)
    ensures index + g <= |s|
    ensures (index + g) / g == i + 1
    ensures i + 1 < |s| / g <==> index + 2 * g <= |s|
    ensures GroupStart(index + g, i + 1, g)
  {
    GroupStartIsProduct(index, i, g);
    GroupBounds(|s|, g, i);
    GroupBounds(|s|, g, i + 1);
    MulSucc(i, g);
    MulSucc(i + 1, g);
  }

  /**
   * The body of the source's loop for the group at `index` (group number
   * `i`): that group's value, plus the leftover digits when the next group
   * would be the last one counted by `iterations` and digits remain.
   */
  method AddGroup(s: string, g: nat, iterations: nat, i: nat, index: nat) returns (sum: nat)
    requires g >= 1 && AllDigits(s) && iterations == |s| / g
    requires i < iterations && GroupStart(index, i, g)
    ensures index + g <= |s|
    ensures sum + FoldRest(s, g, index + g) == FoldFrom(s, g, index)
  {
    FoldStep(s, g, i, index);
    sum := DigitsValue(s[index..index + g]);
    if (index + g) / g >= iterations && index + g < |s| {
      sum := sum + DigitsValue(s[index + g..]);
    }
  }

  /**
   * `getHashCode(key, hashTableSize)`, written as the source's loop: one
   * group per iteration, and on the last iteration the leftover digits too.
   */
  method GetHashCode(key: int, tableSize: int) returns (h: int)
    requires key >= 0 && tableSize >= 2
    ensures h == BucketOf(key, tableSize)
    ensures 0 <= h < tableSize
  {
    var keyString := NatToString(key);
    var g := GroupWidth(tableSize);
    var hashCode := 0;
    var len := |keyString|;
    var iterations := len / g;
    var index := 0;
    var i := 0;
    GroupBounds(len, g, 0);
    while i < iterations
      invariant 0 <= i <= iterations
      invariant GroupStart(index, i, g)
      invariant 0 <= index <= len
      invariant i < iterations <==> index + g <= len
      invariant hashCode + FoldRest(keyString, g, index) == FoldRest(keyString, g, 0)
      decreases iterations - i
    {
      FoldStep(keyString, g, i, index);
      var sum := AddGroup(keyString, g, iterations, i, index);
      hashCode := hashCode + sum;
      i := i + 1;
      index := index + g;
    }
    if iterations == 0 {
      hashCode := hashCode + key;
    }
    assert hashCode == if len < g then key else FoldFrom(keyString, g, 0);
    h := hashCode % tableSize;
  }

  /** A string exactly one group long folds to its own value. */
  lemma FoldSingleGroup(s: string, g: nat)
    requires g >= 1 && AllDigits(s) && |s| == g
    ensures FoldFrom(s, g, 0) == DigitsValue(s)
  {
    assert s[0..g] == s;
  }

  /** A key no larger than the largest bucket index hashes to itself. */
  lemma ShortKeyHash(key: int, tableSize: int)
    requires key >= 0 && tableSize >= 2 && key < tableSize
    ensures BucketOf(key, tableSize) == key
  {
    var s := NatToString(key);
    var g := GroupWidth(tableSize);
    NatToStringMonotone(key, tableSize - 1);
    assert |s| <= g;
    if |s| == g {
      FoldSingleGroup(s, g);
      DigitsValueOfNatToString(key);
    }
    var folded := if |s| < g then key else FoldFrom(s, g, 0);
    assert folded == key;
    ModSmall(folded, tableSize);
  }

  /** A larger number never has fewer decimal digits. */
  lemma {:induction false} NatToStringMonotone(a: nat, b: nat)
    requires a <= b
    ensures |NatToString(a)| <= |NatToString(b)|
    decreases b
  {
    if a >= 10 {
      NatToStringMonotone(a / 10, b / 10);
    }
  }

  lemma PrintedExamples()
    ensures NatToString(4999) == "4999" && NatToString(12345) == "12345"
  {
  }

  lemma ReadExamples()
    ensures DigitsValue("1234") == 1234 && DigitsValue("5") == 5
  {
    assert DigitsValue("1") == 1;
    assert DigitsValue("12") == 12 by { assert "12"[..1] == "1"; }
    assert DigitsValue("123") == 123 by { assert "123"[..2] == "12"; }
    assert DigitsValue("1234") == 1234 by { assert "1234"[..3] == "123"; }
    assert DigitsValue("5") == 5 by { assert "5"[..0] == ""; }
  }

  /** In the store's table of 5000 buckets, ID 12345 folds to 1234 + 5. */
  lemma FoldExample()
    ensures BucketOf(12345, 5000) == 1239
  {
    PrintedExamples();
    ReadExamples();
    var s := "12345";
    assert s[0..4] == "1234" && s[4..] == "5";
    assert FoldFrom(s, 4, 0) == 1239;
  }
}
