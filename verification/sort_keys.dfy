/** The `sortText` key of a completion item: the score as text, padded to six
    characters with `0`, then `_`, then the item's index padded to four. */
module SortKeys {

  /** The decimal digit for `d`. */
  function Digit(d: nat): (c: char)
    requires d < 10
    ensures '0' <= c <= '9' && c as int - '0' as int == d
  {
    (d + '0' as int) as char
  }

  /** `n.toString()` for a natural number: no leading zeros. */
  function NatToDecimal(n: nat): (r: string)
    ensures 1 <= |r|
    ensures forall i :: 0 <= i < |r| ==> '0' <= r[i] <= '9'
    ensures |r| > 1 ==> r[0] != '0'
  {
    if n < 10 then [Digit(n)] else NatToDecimal(n / 10) + [Digit(n % 10)]
  }

  /** `s.padStart(width, c)`. */
  function PadStart(s: string, width: nat, c: char): (r: string)
    ensures |r| == if |s| < width then width else |s|
    ensures r[|r| - |s|..] == s
    ensures forall i :: 0 <= i < |r| - |s| ==> r[i] == c
  {
    if |s| < width then seq(width - |s|, _ => c) + s else s
  }

  /** `${String(score).padStart(6, '0')}_${index.toString().padStart(4, '0')}`. */
  function SortText(scoreText: string, index: nat): (r: string)
    ensures index < 10000 ==> r == PadStart(scoreText, 6, '0') + "_" + Digits(4, index)
  {
    var r := PadStart(scoreText, 6, '0') + "_" + PadStart(NatToDecimal(index), 4, '0');
    if index < 10000 then
      assert Pow10(4) == 10000;
      PaddedIsDigits(index, 4);
      r
    else r
  }

  /** The string order VS Code sorts completion items by: character by
      character, a proper prefix first. */
  predicate LexLess(a: string, b: string)
  {
    if a == [] then b != []
    else if b == [] then false
    else a[0] < b[0] || (a[0] == b[0] && LexLess(a[1..], b[1..]))
  }

  function Pow10(w: nat): (r: nat)
    ensures r >= 1
  {
    if w == 0 then 1 else 10 * Pow10(w - 1)
  }

  /** `n` in exactly `w` decimal digits, most significant first. */
  function Digits(w: nat, n: nat): (r: string)
    requires n < Pow10(w)
    ensures |r| == w
  {
    if w == 0 then [] else Digits(w - 1, n / 10) + [Digit(n % 10)]
  }

  lemma {:induction false} DigitsOfZero(w: nat)
    ensures Digits(w, 0) == seq(w, _ => '0')
  {
    if w > 0 {
      DigitsOfZero(w - 1);
    }
  }

  /** Padding the decimal form of `n` with zeros to `w` characters writes `n`
      in `w` digits, as long as it fits. */
  lemma {:induction false} PaddedIsDigits(n: nat, w: nat)
    requires 1 <= w && n < Pow10(w)
    ensures PadStart(NatToDecimal(n), w, '0') == Digits(w, n)
  {
    DigitsStep(n, w);
    if n < 10 {
      PaddedDigit(n, w - 1);
    } else {
      PaddedIsDigits(n / 10, w - 1);
      PadSnoc(NatToDecimal(n / 10), Digit(n % 10), w - 1, '0');
    }
  }

  /** A single digit padded to `w + 1` places is `w` zeros and the digit. */
  lemma PaddedDigit(n: nat, w: nat)
    requires n < 10
    ensures PadStart(NatToDecimal(n), w + 1, '0') == Digits(w, 0) + [Digit(n)]
  {
    DigitsOfZero(w);
    PadSnoc([], Digit(n), w, '0');
    assert [] + [Digit(n)] == NatToDecimal(n);
    assert PadStart([], w, '0') == Digits(w, 0);
  }

  /** One step of `Digits`: the last digit and the rest, which fits one
      digit fewer. */
  lemma DigitsStep(n: nat, w: nat)
    requires 1 <= w && n < Pow10(w)
    ensures n / 10 < Pow10(w - 1)
    ensures Digits(w, n) == Digits(w - 1, n / 10) + [Digit(n % 10)]
    ensures n < 10 ==> n / 10 == 0 && n % 10 == n
    ensures n >= 10 ==> w >= 2 && NatToDecimal(n) == NatToDecimal(n / 10) + [Digit(n % 10)]
  {
  }

  /** Padding commutes with appending one character, one place wider. */
  lemma PadSnoc(s: string, c: char, w: nat, z: char)
    ensures PadStart(s + [c], w + 1, z) == PadStart(s, w, z) + [c]
  {
    if |s| < w {
      assert seq(w + 1 - |s + [c]|, _ => z) == seq(w - |s|, _ => z);
    }
  }

  lemma {:induction false} LexLessIrreflexive(a: string)
    ensures !LexLess(a, a)
  {
    if a != [] {
      LexLessIrreflexive(a[1..]);
    }
  }

  /** Comparing equal-length strings with one more character each: the
      shared part decides, and the last character breaks a tie. */
  lemma {:induction false} LexLessSnoc(a: string, b: string, x: char, y: char)
    requires |a| == |b|
    ensures LexLess(a + [x], b + [y]) <==> LexLess(a, b) || (a == b && x < y)
  {
    if a == [] {
    } else {
      assert (a + [x])[1..] == a[1..] + [x];
      assert (b + [y])[1..] == b[1..] + [y];
      LexLessSnoc(a[1..], b[1..], x, y);
      if a[0] == b[0] && a[1..] == b[1..] {
        assert a == b;
      }
    }
  }

  /** A shared prefix does not change the order. */
  lemma {:induction false} LexLessPrefix(p: string, a: string, b: string)
    ensures LexLess(p + a, p + b) <==> LexLess(a, b)
  {
    if p != [] {
      assert (p + a)[1..] == p[1..] + a;
      assert (p + b)[1..] == p[1..] + b;
      LexLessPrefix(p[1..], a, b);
    } else {
      assert p + a == a && p + b == b;
    }
  }

  /** Fixed-width digit strings sort in numeric order. */
  lemma {:induction false} DigitsOrder(w: nat, a: nat, b: nat)
    requires a < Pow10(w) && b < Pow10(w)
    ensures LexLess(Digits(w, a), Digits(w, b)) <==> a < b
    ensures Digits(w, a) == Digits(w, b) <==> a == b
  {
    if w > 0 {
      DigitsOrder(w - 1, a / 10, b / 10);
      LexLessSnoc(Digits(w - 1, a / 10), Digits(w - 1, b / 10), Digit(a % 10), Digit(b % 10));
      if Digits(w, a) == Digits(w, b) {
        assert Digits(w, a)[w - 1] == Digit(a % 10);
        assert Digits(w, a)[..w - 1] == Digits(w - 1, a / 10);
        assert Digits(w, b)[..w - 1] == Digits(w - 1, b / 10);
      }
    }
  }

  /** With the same score, items sort by index, for indices below 10000:
      with every score 0 the list keeps the order it was built in. */
  lemma SortTextOrdersIndices(scoreText: string, i: nat, j: nat)
    requires i < 10000 && j < 10000
    ensures LexLess(SortText(scoreText, i), SortText(scoreText, j)) <==> i < j
  {
    assert Pow10(4) == 10000;
    PaddedIsDigits(i, 4);
    PaddedIsDigits(j, 4);
    DigitsOrder(4, i, j);
    var p := PadStart(scoreText, 6, '0') + "_";
    LexLessPrefix(p, Digits(4, i), Digits(4, j));
  }

  /** From index 10000 the padding no longer helps: item 10000 sorts before
      item 9999. */
  lemma SortTextOrderBreaksAt10000()
    ensures LexLess(SortText("0", 10000), SortText("0", 9999))
  {
    var p := PadStart("0", 6, '0') + "_";
    assert NatToDecimal(9999) == "9999";
    assert NatToDecimal(10000) == "10000";
    LexLessPrefix(p, "10000", "9999");
  }

  /** The zero-score key, `"000000_"` and four digits. */
  lemma SortTextOfZero(i: nat)
    requires i < 10000
    ensures SortText("0", i) == "000000_" + Digits(4, i)
  {
    assert Pow10(4) == 10000;
    PaddedIsDigits(i, 4);
    assert PadStart("0", 6, '0') == "000000";
  }

  /** Decimal scores are not kept in numeric order by the key: `0.35`
      pads to `000.35` and `0.3` to `0000.3`, and `.` sorts before `0`, so
      the worse-scored item 1 sorts ahead of item 0. */
  lemma ScoreTextMisorders()
    ensures LexLess(SortText("0.35", 1), SortText("0.3", 0))
  {
    ScoreKeys();
    var a := ".35_0001";
    var b := "0.3_0000";
    assert "000.35_0001" == "000" + a;
    assert "0000.3_0000" == "000" + b;
    assert LexLess(a, b);
    LexLessPrefix("000", a, b);
  }

  lemma ScoreKeys()
    ensures SortText("0.35", 1) == "000.35_0001"
    ensures SortText("0.3", 0) == "0000.3_0000"
  {
    PaddedScores();
    IndexKeys();
  }

  lemma IndexKeys()
    ensures PadStart(NatToDecimal(1), 4, '0') == "0001"
    ensures PadStart(NatToDecimal(0), 4, '0') == "0000"
  {
    assert NatToDecimal(1) == "1" && NatToDecimal(0) == "0";
    assert seq(3, _ => '0') == "000";
  }

  lemma PaddedScores()
    ensures PadStart("0.35", 6, '0') == "000.35"
    ensures PadStart("0.3", 6, '0') == "0000.3"
  {
    assert seq(2, _ => '0') == "00";
    assert seq(3, _ => '0') == "000";
  }
}
