/**
 Four-state values in binary, decimal, octal and hexadecimal, and bit selects.

 A value is a string over 0, 1, x and z, most significant bit first.
 */
module Radix {
  import opened CText

  predicate FourState(c: char) {
    c == '0' || c == '1' || c == 'x' || c == 'z'
  }

  /** All bits are known. */
  predicate TwoState(bits: string) {
    forall i :: 0 <= i < |bits| ==> bits[i] == '0' || bits[i] == '1'
  }

  function Bit(c: char): nat {
    if c == '1' then 1 else 0
  }

  /** The number a string of bits denotes. */
  function BinValue(bits: string): nat {
    if bits == "" then 0 else 2 * BinValue(bits[..|bits|-1]) + Bit(bits[|bits|-1])
  }

  // ------------------------------------------------------------------- decimal

  function DigitOf(c: char): nat
    requires IsDigit(c)
  {
    c as int - '0' as int
  }

  /** Doubles a decimal number and adds a carry, digit by digit from the right; also the carry out. */
  function Doubled(digits: string, carry: nat): (r: (string, nat))
    requires AllDigits(digits) && carry < 2
    ensures AllDigits(r.0) && |r.0| == |digits| && r.1 < 2
  {
    if digits == "" then ("", carry) else
    var n := |digits| - 1;
    var v := DigitOf(digits[n]) * 2 + carry;
    var (front, out) := Doubled(digits[..n], v / 10);
    (front + [DigitChar(v % 10)], out)
  }

  function WithCarry(r: (string, nat)): string
    requires r.1 < 2
  {
    if r.1 != 0 then [DigitChar(r.1)] + r.0 else r.0
  }

  /** The decimal digits of a two-state value. */
  function DecText(bits: string): (d: string)
    ensures AllDigits(d)
  {
    if bits == "" then "0"
    else WithCarry(Doubled(DecText(bits[..|bits|-1]), Bit(bits[|bits|-1])))
  }

  method DecimalDigits(bits: string) returns (result: string)
    ensures result == DecText(bits)
  {
    hide Doubled;
    result := "0";
    for k := 0 to |bits|
      invariant AllDigits(result) && result == DecText(bits[..k])
    {
      assert bits[..k+1][..k] == bits[..k];
      var carry := Bit(bits[k]);
      result, carry := DoubleInPlace(result, carry);
      if carry != 0 {
        result := [DigitChar(carry)] + result;
      }
    }
    assert bits[..|bits|] == bits;
  }

  /** The inner loop: rewrites the digits from the last to the first. */
  method DoubleInPlace(digits: string, carryIn: nat) returns (result: string, carry: nat)
    requires AllDigits(digits) && carryIn < 2
    ensures (result, carry) == Doubled(digits, carryIn)
  {
    hide Doubled;
    result, carry := digits, carryIn;
    var i := |digits|;
    assert digits[..i] == digits && Doubled(digits, carryIn).0 + "" == Doubled(digits, carryIn).0;
    while i > 0
      invariant 0 <= i <= |digits| == |result| && carry < 2
      invariant result[..i] == digits[..i]
      invariant Doubled(digits, carryIn).0 == Doubled(digits[..i], carry).0 + result[i..]
      invariant Doubled(digits, carryIn).1 == Doubled(digits[..i], carry).1
    {
      assert digits[..i][..i-1] == digits[..i-1];
      DoubledStep(digits[..i], carry);
      i := i - 1;
      var v := DigitOf(result[i]) * 2 + carry;
      ghost var tail := result[i+1..];
      result := result[i := DigitChar(v % 10)];
      carry := v / 10;
      assert result[i..] == [DigitChar(v % 10)] + tail;
    }
    assert digits[..0] == "";
    NothingDoubled(carry);
    assert "" + result[0..] == result;
  }

  lemma NothingDoubled(carry: nat)
    requires carry < 2
    ensures Doubled("", carry) == ("", carry)
  {
  }

  function Pow10(n: nat): nat {
    if n == 0 then 1 else 10 * Pow10(n - 1)
  }

  lemma CarryArithmetic(out: nat, power: nat, front: nat, rest: nat, digit: nat, carry: nat)
    requires out * power + front == 2 * rest + (digit * 2 + carry) / 10
    ensures out * (10 * power) + (front * 10 + (digit * 2 + carry) % 10) == 2 * (rest * 10 + digit) + carry
  {
    assert out * (10 * power) == 10 * (out * power);
  }

  lemma DoubledStep(digits: string, carry: nat)
    requires AllDigits(digits) && digits != "" && carry < 2
    ensures
      var n := |digits| - 1;
      var v := DigitOf(digits[n]) * 2 + carry;
      Doubled(digits, carry) == (Doubled(digits[..n], v / 10).0 + [DigitChar(v % 10)], Doubled(digits[..n], v / 10).1)
  {
  }

  lemma LastDigitValue(front: string, d: nat)
    requires AllDigits(front) && d < 10
    ensures DigitsValue(front + [DigitChar(d)]) == DigitsValue(front) * 10 + d
  {
    assert (front + [DigitChar(d)])[..|front|] == front;
  }

  lemma PowersOfTen(n: nat)
    ensures Pow10(0) == 1 && Pow10(n + 1) == 10 * Pow10(n)
  {
  }

  lemma NothingDenotesZero()
    ensures DigitsValue("") == 0
  {
  }

  lemma {:induction false} DoubledValue(digits: string, carry: nat)
    requires AllDigits(digits) && carry < 2
    ensures var (r, out) := Doubled(digits, carry);
      out * Pow10(|digits|) + DigitsValue(r) == 2 * DigitsValue(digits) + carry
  {
    hide Doubled, DigitsValue, Pow10;
    if digits == "" {
      NothingDoubled(carry);
      NothingDenotesZero();
      PowersOfTen(0);
    } else {
      var n := |digits| - 1;
      var x := DigitOf(digits[n]);
      var v := x * 2 + carry;
      var (front, out) := Doubled(digits[..n], v / 10);
      DoubledStep(digits, carry);
      DoubledValue(digits[..n], v / 10);
      LastDigitValue(front, v % 10);
      LastDigitValue(digits[..n], x);
      assert digits == digits[..n] + [DigitChar(x)];
      PowersOfTen(n);
      CarryArithmetic(out, Pow10(n), DigitsValue(front), DigitsValue(digits[..n]), x, carry);
    }
  }

  lemma {:induction false} LeadingDigitValue(d: nat, digits: string)
    requires d < 10 && AllDigits(digits)
    ensures DigitsValue([DigitChar(d)] + digits) == d * Pow10(|digits|) + DigitsValue(digits)
    decreases |digits|
  {
    var all := [DigitChar(d)] + digits;
    if digits == "" {
      assert all[..0] == "";
    } else {
      var n := |digits| - 1;
      LeadingDigitValue(d, digits[..n]);
      assert all[..n+1] == [DigitChar(d)] + digits[..n];
      assert d * Pow10(n + 1) == 10 * (d * Pow10(n));
    }
  }

  /** Decimal text of a nonzero number does not begin with a zero. */
  predicate NoLeadingZero(d: string) {
    d == "0" || (d != "" && d[0] != '0')
  }

  lemma {:induction false} DoubledHead(digits: string, carry: nat)
    requires AllDigits(digits) && digits != "" && carry < 2
    ensures var (r, out) := Doubled(digits, carry);
      2 * DigitOf(digits[0]) <= DigitOf(r[0]) + 10 * out <= 2 * DigitOf(digits[0]) + 1
    decreases |digits|
  {
    var n := |digits| - 1;
    var v := DigitOf(digits[n]) * 2 + carry;
    var (front, out) := Doubled(digits[..n], v / 10);
    if n > 0 {
      DoubledHead(digits[..n], v / 10);
      assert (front + [DigitChar(v % 10)])[0] == front[0];
    } else {
      assert digits[..0] == "";
    }
  }

  lemma DecTextStep(bits: string)
    requires bits != ""
    ensures DecText(bits) == WithCarry(Doubled(DecText(bits[..|bits|-1]), Bit(bits[|bits|-1])))
  {
    hide Doubled;
  }

  lemma WithCarryValue(r: string, out: nat)
    requires AllDigits(r) && out < 2
    ensures DigitsValue(WithCarry((r, out))) == out * Pow10(|r|) + DigitsValue(r)
  {
    hide DigitsValue, Pow10;
    if out != 0 {
      LeadingDigitValue(out, r);
    } else {
      assert 0 * Pow10(|r|) == 0;
    }
  }

  /** Decimal conversion keeps the number. */
  lemma {:induction false} DecTextValue(bits: string)
    ensures DigitsValue(DecText(bits)) == BinValue(bits)
  {
    hide Doubled, DecText, WithCarry, DigitsValue, Pow10;
    if bits == "" {
      ZeroValue();
    } else {
      var n := |bits| - 1;
      var d, c := DecText(bits[..n]), Bit(bits[n]);
      DecTextStep(bits);
      DecTextValue(bits[..n]);
      DoubledValue(d, c);
      WithCarryValue(Doubled(d, c).0, Doubled(d, c).1);
    }
  }

  lemma ZeroValue()
    ensures DecText("") == "0" && DigitsValue("0") == 0
  {
    assert "0"[..0] == "";
  }

  /** The only decimal text that begins with a zero is "0". */
  lemma {:induction false} DecTextHead(bits: string)
    ensures NoLeadingZero(DecText(bits))
  {
    hide Doubled, DecText;
    if bits == "" {
      ZeroValue();
    } else {
      var n := |bits| - 1;
      var d, c := DecText(bits[..n]), Bit(bits[n]);
      var (r, out) := Doubled(d, c);
      DecTextStep(bits);
      DecTextHead(bits[..n]);
      DoubledHead(d, c);
      if d == "0" {
        assert r == [r[0]];
      }
    }
  }

  // ------------------------------------------------------------ octal, hexadecimal

  /** One octal or hexadecimal digit; capital X and Z when no bit is known. */
  function GroupDigit(chunk: string): char {
    var x := 'x' in chunk;
    var z := 'z' in chunk;
    var known := '0' in chunk || '1' in chunk;
    if x then (if known || z then 'x' else 'X')
    else if z then (if known then 'z' else 'Z')
    else "0123456789abcdef"[BinValue(chunk) % 16]
  }

  /** Digits of the given group size, the leftmost group possibly shorter. */
  function GroupText(bits: string, group: nat): string
    requires group > 0
    decreases |bits|
  {
    if bits == "" then "" else
    var begin := if |bits| > group then |bits| - group else 0;
    GroupText(bits[..begin], group) + [GroupDigit(bits[begin..])]
  }

  datatype Radix = Bin | Dec | Oct | Hex

  function Converted(bits: string, radix: Radix): string {
    match radix
    case Bin => bits
    case Dec =>
      if 'x' in bits then (if forall i :: 0 <= i < |bits| ==> bits[i] == 'x' then "X" else "x")
      else if 'z' in bits then (if forall i :: 0 <= i < |bits| ==> bits[i] == 'z' then "Z" else "z")
      else DecText(bits)
    case Oct => GroupText(bits, 3)
    case Hex => GroupText(bits, 4)
  }

  method Convert(bits: string, radix: Radix) returns (result: string)
    ensures result == Converted(bits, radix)
  {
    match radix
    case Bin => result := bits;
    case Dec =>
      if 'x' in bits {
        result := if forall i :: 0 <= i < |bits| ==> bits[i] == 'x' then "X" else "x";
      } else if 'z' in bits {
        result := if forall i :: 0 <= i < |bits| ==> bits[i] == 'z' then "Z" else "z";
      } else {
        result := DecimalDigits(bits);
      }
    case Oct => result := Grouped(bits, 3);
    case Hex => result := Grouped(bits, 4);
  }

  function Reversed(s: string): string {
    if s == "" then "" else Reversed(s[1..]) + [s[0]]
  }

  lemma {:induction false} ReversedAppend(s: string, c: char)
    ensures Reversed(s + [c]) == [c] + Reversed(s)
  {
    if s == "" {
      assert s + [c] == [c];
      assert [c][1..] == "";
    } else {
      assert (s + [c])[1..] == s[1..] + [c];
      ReversedAppend(s[1..], c);
    }
  }

  /** The group loop: pushes digits from the right and reverses at the end. */
  method Grouped(bits: string, group: nat) returns (result: string)
    requires group == 3 || group == 4
    ensures result == GroupText(bits, group)
  {
    hide GroupDigit;
    var pushed := "";
    var end := |bits|;
    assert bits[..end] == bits;
    while end > 0
      invariant 0 <= end <= |bits|
      invariant GroupText(bits[..end], group) + Reversed(pushed) == GroupText(bits, group)
    {
      var begin := if end > group then end - group else 0;
      var digit := DigitOfGroup(bits, begin, end);
      ReversedAppend(pushed, digit);
      assert bits[..end][..begin] == bits[..begin] && bits[..end][begin..] == bits[begin..end];
      pushed := pushed + [digit];
      end := begin;
    }
    result := Reversed(pushed);
  }

  method DigitOfGroup(bits: string, begin: nat, end: nat) returns (digit: char)
    requires begin < end <= |bits| && end - begin <= 4
    ensures digit == GroupDigit(bits[begin..end])
  {
    hide BinValue;
    var value, x, z, known := 0, false, false, false;
    assert bits[begin..begin] == "";
    NoBits();
    for i := begin to end
      invariant value == BinValue(bits[begin..i])
      invariant x <==> 'x' in bits[begin..i]
      invariant z <==> 'z' in bits[begin..i]
      invariant known <==> '0' in bits[begin..i] || '1' in bits[begin..i]
    {
      assert bits[begin..i+1] == bits[begin..i] + [bits[i]];
      OneMoreBit(bits[begin..i], bits[i]);
      value := value * 2 + (if bits[i] == '1' then 1 else 0);
      x := x || bits[i] == 'x';
      z := z || bits[i] == 'z';
      known := known || bits[i] == '0' || bits[i] == '1';
    }
    ChunkValue(bits[begin..end]);
    digit := if x then (if known || z then 'x' else 'X')
      else if z then (if known then 'z' else 'Z')
      else "0123456789abcdef"[value];
  }

  lemma NoBits()
    ensures BinValue("") == 0
  {
  }

  lemma OneMoreBit(bits: string, c: char)
    ensures BinValue(bits + [c]) == 2 * BinValue(bits) + Bit(c)
  {
    assert (bits + [c])[..|bits|] == bits;
  }

  lemma {:induction false} ChunkValue(chunk: string)
    requires |chunk| <= 4
    ensures BinValue(chunk) < 16
  {
    BinBound(chunk);
    assert Pow2(4) == 16 && Pow2(3) == 8 && Pow2(2) == 4;
    assert Pow2(|chunk|) <= 16;
  }

  function Pow2(n: nat): nat {
    if n == 0 then 1 else 2 * Pow2(n - 1)
  }

  lemma {:induction false} BinBound(bits: string)
    ensures BinValue(bits) < Pow2(|bits|)
  {
    if bits != "" {
      BinBound(bits[..|bits|-1]);
    }
  }

  function HexDigitValue(c: char): nat {
    if '0' <= c <= '9' then c as int - '0' as int
    else if 'a' <= c <= 'f' then c as int - 'a' as int + 10
    else 0
  }

  /** The number that octal or hexadecimal digits denote. */
  function GroupValue(digits: string, base: nat): nat {
    if digits == "" then 0 else GroupValue(digits[..|digits|-1], base) * base + HexDigitValue(digits[|digits|-1])
  }

  lemma GroupDigitValue(chunk: string)
    requires TwoState(chunk) && |chunk| <= 4
    ensures HexDigitValue(GroupDigit(chunk)) == BinValue(chunk)
  {
    hide BinValue;
    ChunkValue(chunk);
    var v := BinValue(chunk);
    assert v == 0 || v == 1 || v == 2 || v == 3 || v == 4 || v == 5 || v == 6 || v == 7 || v == 8 || v == 9
      || v == 10 || v == 11 || v == 12 || v == 13 || v == 14 || v == 15;
  }

  lemma {:induction false} BinConcat(a: string, b: string)
    ensures BinValue(a + b) == BinValue(a) * Pow2(|b|) + BinValue(b)
    decreases |b|
  {
    hide BinValue, Pow2;
    if b == "" {
      assert a + b == a;
      NoBits();
      PowersOfTwo(0);
    } else {
      var front, c := b[..|b|-1], b[|b|-1];
      assert a + b == a + front + [c] && b == front + [c];
      BinConcat(a, front);
      OneMoreBit(a + front, c);
      OneMoreBit(front, c);
      PowersOfTwo(|front|);
      DoubledSum(BinValue(a), Pow2(|front|), BinValue(front), Bit(c));
    }
  }

  lemma PowersOfTwo(n: nat)
    ensures Pow2(0) == 1 && Pow2(n + 1) == 2 * Pow2(n)
  {
  }

  lemma DoubledSum(x: nat, p: nat, y: nat, bit: nat)
    ensures 2 * (x * p + y) + bit == x * (2 * p) + (2 * y + bit)
  {
    assert x * (2 * p) == 2 * (x * p);
  }

  /** Octal and hexadecimal conversion keep the number. */
  lemma {:induction false} GroupTextValue(bits: string, group: nat)
    requires TwoState(bits) && (group == 3 || group == 4)
    ensures GroupValue(GroupText(bits, group), Pow2(group)) == BinValue(bits)
    decreases |bits|
  {
    hide GroupDigit, HexDigitValue, Pow2;
    if bits != "" {
      var begin := if |bits| > group then |bits| - group else 0;
      var front, chunk := bits[..begin], bits[begin..];
      GroupTextValue(front, group);
      GroupDigitValue(chunk);
      BinConcat(front, chunk);
      assert front + chunk == bits;
      var t := GroupText(front, group);
      assert (t + [GroupDigit(chunk)])[..|t|] == t;
      if begin == 0 {
        assert front == "";
        assert BinValue(front) * Pow2(|chunk|) == 0 == GroupValue(t, Pow2(group)) * Pow2(group);
      }
    }
  }

  /** There are as many digits as groups, the last one perhaps incomplete. */
  lemma {:induction false} GroupTextLength(bits: string, group: nat)
    requires group == 3 || group == 4
    ensures |GroupText(bits, group)| == (|bits| + group - 1) / group
    decreases |bits|
  {
    hide GroupDigit;
    if bits != "" {
      GroupTextLength(bits[..if |bits| > group then |bits| - group else 0], group);
    }
  }

  lemma {:induction false} BinInjective(a: string, b: string)
    requires TwoState(a) && TwoState(b) && |a| == |b| && BinValue(a) == BinValue(b)
    ensures a == b
  {
    if a != "" {
      var n := |a| - 1;
      BinInjective(a[..n], b[..n]);
      assert a == a[..n] + [a[n]] && b == b[..n] + [b[n]];
    }
  }

  /** The number a converted text denotes, read in its radix. */
  function TextValue(text: string, radix: Radix): nat {
    match radix
    case Bin => BinValue(text)
    case Dec => if AllDigits(text) then DigitsValue(text) else 0
    case Oct => GroupValue(text, 8)
    case Hex => GroupValue(text, 16)
  }

  /** Conversion of a two-state value keeps the number, whatever the width and the radix. */
  lemma ConversionKeepsNumber(bits: string, radix: Radix)
    requires TwoState(bits)
    ensures TextValue(Converted(bits, radix), radix) == BinValue(bits)
  {
    hide DigitsValue, DecText, GroupText;
    assert Pow2(4) == 16 && Pow2(3) == 8 && Pow2(2) == 4;
    match radix
    case Bin =>
    case Dec => assert 'x' !in bits && 'z' !in bits; DecTextValue(bits);
    case Oct => GroupTextValue(bits, 3);
    case Hex => GroupTextValue(bits, 4);
  }

  /** At a fixed width two-state values convert differently when they differ. */
  lemma ConversionInjective(a: string, b: string, radix: Radix)
    requires TwoState(a) && TwoState(b) && |a| == |b|
    ensures Converted(a, radix) == Converted(b, radix) <==> a == b
  {
    hide Converted, TextValue;
    if Converted(a, radix) == Converted(b, radix) {
      ConversionKeepsNumber(a, radix);
      ConversionKeepsNumber(b, radix);
      BinInjective(a, b);
    }
  }

  // ------------------------------------------------------------------ bit selects

  /** The select [left:right] of a signal declared [baseLeft:baseRight]. */
  datatype Select = Select(baseLeft: int, baseRight: int, left: int, right: int)
  {
    function Step(): int {
      if left <= right then 1 else -1
    }

    /** Where the bit with the given index lies in the value's text. */
    function Offset(index: int): int {
      if baseLeft > baseRight then baseLeft - index else index - baseLeft
    }

    function Width(): nat {
      if left <= right then right - left + 1 else left - right + 1
    }

    predicate Fits(width: nat) {
      0 <= Offset(left) < width && 0 <= Offset(right) < width
    }
  }

  /** None is the exception "Bit select outside signal range". */
  function Projected(sel: Select, bits: string): (r: Option<string>)
    ensures r.Some? <==> sel.Fits(|bits|)
    ensures r.Some? ==> |r.value| == sel.Width()
  {
    if !sel.Fits(|bits|) then None
    else Some(seq(sel.Width(), k requires 0 <= k < sel.Width() => bits[sel.Offset(sel.left + k * sel.Step())]))
  }

  method ProjectSlice(sel: Select, bits: string) returns (r: Option<string>)
    ensures r == Projected(sel, bits)
  {
    var step := sel.Step();
    var selected := "";
    var index := sel.left;
    while true
      invariant |selected| < sel.Width() && index == sel.left + |selected| * step
      invariant forall k :: 0 <= k < |selected| ==>
        0 <= sel.Offset(sel.left + k * step) < |bits| && selected[k] == bits[sel.Offset(sel.left + k * step)]
      decreases sel.Width() - |selected|
    {
      var offset := sel.Offset(index);
      if offset < 0 || offset >= |bits| {
        assert !sel.Fits(|bits|);
        return None;
      }
      selected := selected + [bits[offset]];
      if index == sel.right {
        break;
      }
      index := index + step;
    }
    FirstAndLast(sel, |selected|);
    assert Projected(sel, bits).Some?;
    assert selected == Projected(sel, bits).value;
    return Some(selected);
  }

  lemma FirstAndLast(sel: Select, n: nat)
    requires n == sel.Width()
    ensures sel.left + 0 * sel.Step() == sel.left && sel.left + (n - 1) * sel.Step() == sel.right
  {
  }

  /** Selecting the declared range gives the whole value. */
  lemma SelectAllIsIdentity(left: int, right: int, bits: string)
    requires |bits| == (if left > right then left - right else right - left) + 1
    ensures Projected(Select(left, right, left, right), bits) == Some(bits)
  {
    var sel := Select(left, right, left, right);
    assert Projected(sel, bits).value == bits;
  }

  /** A select fails exactly when one of its ends lies outside the declared range. */
  lemma SelectFailsIffOutside(sel: Select, bits: string)
    requires |bits| == (if sel.baseLeft > sel.baseRight then sel.baseLeft - sel.baseRight else sel.baseRight - sel.baseLeft) + 1
    ensures
      var lo := if sel.baseLeft > sel.baseRight then sel.baseRight else sel.baseLeft;
      var hi := if sel.baseLeft > sel.baseRight then sel.baseLeft else sel.baseRight;
      Projected(sel, bits).None? <==> !(lo <= sel.left <= hi) || !(lo <= sel.right <= hi)
  {
  }

  /** The k-th digit from the right comes from the k-th group of bits from the right. */
  lemma {:induction false} GroupTextDigit(bits: string, group: nat, k: nat)
    requires group > 0 && group * k < |bits|
    ensures k < |GroupText(bits, group)|
    ensures
      var end := |bits| - group * k;
      var begin := if end > group then end - group else 0;
      GroupText(bits, group)[|GroupText(bits, group)| - 1 - k] == GroupDigit(bits[begin..end])
    decreases k
  {
    hide GroupDigit;
    if k > 0 {
      assert group * k == group * (k - 1) + group;
      assert group * (k - 1) >= 0;
      var n := |bits| - group;
      GroupTextDigit(bits[..n], group, k - 1);
      var end := |bits| - group * k;
      var begin := if end > group then end - group else 0;
      assert bits[..n][begin..end] == bits[begin..end];
    } else {
      assert group * 0 == 0;
      assert bits[..|bits|] == bits;
    }
  }

  /**
   Selecting bits commutes with hexadecimal digits, unknown bits included: on a descending
   bus the digit k from the right is the conversion of the select of its four bits (of
   those there are, for the leftmost digit).
   */
  lemma HexDigitIsSelect(left: int, right: int, bits: string, k: nat)
    requires left > right && |bits| == left - right + 1 && 4 * k < |bits|
    ensures
      var low := right + 4 * k;
      var high := if low + 3 < left then low + 3 else left;
      var hex := Converted(bits, Hex);
      var part := Projected(Select(left, right, high, low), bits);
      && k < |hex| && part.Some?
      && Converted(part.value, Hex) == [hex[|hex| - 1 - k]]
  {
    hide GroupDigit, Projected, GroupText;
    GroupTextDigit(bits, 4, k);
    FourBitsSelected(left, right, bits, k);
    var end := |bits| - 4 * k;
    GroupTextShort(bits[if end > 4 then end - 4 else 0..end]);
  }

  lemma FourBitsSelected(left: int, right: int, bits: string, k: nat)
    requires left > right && |bits| == left - right + 1 && 4 * k < |bits|
    ensures
      var low := right + 4 * k;
      var end := |bits| - 4 * k;
      Projected(Select(left, right, if low + 3 < left then low + 3 else left, low), bits)
        == Some(bits[if end > 4 then end - 4 else 0..end])
  {
    var low := right + 4 * k;
    var sel := Select(left, right, if low + 3 < left then low + 3 else left, low);
    var end := |bits| - 4 * k;
    var begin := if end > 4 then end - 4 else 0;
    var part := Projected(sel, bits).value;
    forall j | 0 <= j < |part| ensures part[j] == bits[begin + j] {
      SelectOffset(sel, j);
    }
    assert part == bits[begin..end];
  }

  lemma SelectOffset(sel: Select, j: nat)
    requires sel.baseLeft > sel.baseRight && sel.left >= sel.right && j < sel.Width()
    ensures sel.Offset(sel.left + j * sel.Step()) == sel.baseLeft - sel.left + j
  {
  }

  lemma GroupTextShort(chunk: string)
    requires 0 < |chunk| <= 4
    ensures GroupText(chunk, 4) == [GroupDigit(chunk)]
  {
    hide GroupDigit;
    assert chunk[..0] == "" && chunk[0..] == chunk;
  }
}
