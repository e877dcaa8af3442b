/**
 What each digit of a converted value says of the bits it stands for.
 */
module RadixDigits {
  import opened CText
  import opened Radix
  import opened RadixLoss

  predicate Only(bits: string, c: char) {
    forall i :: 0 <= i < |bits| ==> bits[i] == c
  }

  predicate Has(bits: string, c: char) {
    exists i :: 0 <= i < |bits| && bits[i] == c
  }

  predicate IsHexDigit(c: char) {
    '0' <= c <= '9' || 'a' <= c <= 'f'
  }

  /** Capital letters stand for bits that are all unknown in the same way, small ones for the rest. */
  predicate Marks(mark: char, bits: string) {
    && (mark == 'X' <==> Only(bits, 'x'))
    && (mark == 'x' <==> Has(bits, 'x') && !Only(bits, 'x'))
    && (mark == 'Z' <==> Only(bits, 'z'))
    && (mark == 'z' <==> !Has(bits, 'x') && Has(bits, 'z') && !Only(bits, 'z'))
  }

  /** An octal or hexadecimal digit and its group of bits. */
  predicate DigitOver(digit: char, bits: string) {
    Marks(digit, bits) && (TwoState(bits) ==> IsHexDigit(digit) && HexDigitValue(digit) == BinValue(bits))
  }

  lemma KnownDigit(chunk: string)
    requires TwoState(chunk) && |chunk| <= 4
    ensures IsHexDigit(GroupDigit(chunk))
  {
    hide BinValue;
    ChunkValue(chunk);
    var digits := "0123456789abcdef";
    assert forall v :: 0 <= v < 16 ==> IsHexDigit(digits[v]);
  }

  lemma GroupDigitOver(chunk: string)
    requires FourStateText(chunk) && 0 < |chunk| <= 4
    ensures DigitOver(GroupDigit(chunk), chunk)
  {
    hide BinValue, HexDigitValue;
    assert FourState(chunk[0]);
    if !Has(chunk, 'x') && !Has(chunk, 'z') {
      forall i | 0 <= i < |chunk| ensures chunk[i] == '0' || chunk[i] == '1' {
        assert FourState(chunk[i]);
      }
      GroupDigitValue(chunk);
      KnownDigit(chunk);
    } else {
      MixedDigitMarks(chunk);
    }
  }

  lemma MixedDigitMarks(chunk: string)
    requires FourStateText(chunk) && (Has(chunk, 'x') || Has(chunk, 'z'))
    ensures Marks(GroupDigit(chunk), chunk) && !TwoState(chunk)
  {
    hide BinValue;
    var q :| 0 <= q < |chunk| && (chunk[q] == 'x' || chunk[q] == 'z');
    if p :| 0 <= p < |chunk| && chunk[p] != chunk[q] {
      assert FourState(chunk[p]) && chunk[p] in chunk;
    }
    assert 'x' in chunk <==> Has(chunk, 'x');
    assert 'z' in chunk <==> Has(chunk, 'z');
    assert forall i :: 0 <= i < |chunk| ==> FourState(chunk[i]);
  }

  /** The bits the k-th digit from the right stands for. */
  function GroupBits(bits: string, group: nat, k: nat): string {
    var end := |bits| - k * group;
    if end <= 0 then "" else bits[if end > group then end - group else 0..end]
  }

  lemma GroupBitsOfFront(bits: string, group: nat, k: nat)
    requires (group == 3 || group == 4) && k > 0
    ensures var begin := if |bits| > group then |bits| - group else 0;
      GroupBits(bits[..begin], group, k - 1) == GroupBits(bits, group, k)
    ensures GroupBits(bits, group, 0) == bits[if |bits| > group then |bits| - group else 0..]
  {
  }

  lemma GroupTextParts(bits: string, group: nat)
    requires bits != "" && (group == 3 || group == 4)
    ensures var begin := if |bits| > group then |bits| - group else 0;
      GroupText(bits, group) == GroupText(bits[..begin], group) + [GroupDigit(bits[begin..])]
  {
    hide GroupDigit;
  }

  /** The k-th octal or hexadecimal digit from the right, read off its three or four bits. */
  lemma {:induction false} EveryDigitOver(bits: string, group: nat, k: nat)
    requires FourStateText(bits) && (group == 3 || group == 4) && k < |GroupText(bits, group)|
    ensures var text := GroupText(bits, group);
      GroupBits(bits, group, k) != "" && DigitOver(text[|text| - 1 - k], GroupBits(bits, group, k))
    decreases |bits|
  {
    hide GroupDigit, DigitOver, GroupText, GroupBits;
    if bits == "" {
      GroupTextLength(bits, group);
    } else {
      var begin := if |bits| > group then |bits| - group else 0;
      var front, chunk := bits[..begin], bits[begin..];
      GroupTextParts(bits, group);
      GroupBitsOfFront(bits, group, if k == 0 then 1 else k);
      if k == 0 {
        GroupDigitOver(chunk);
      } else {
        EveryDigitOver(front, group, k - 1);
      }
    }
  }

  /** The digits of a conversion, and how many there are. */
  lemma ConvertedDigits(bits: string, radix: Radix, k: nat)
    requires FourStateText(bits) && (radix.Oct? || radix.Hex?)
    ensures var text, group := Converted(bits, radix), if radix.Oct? then 3 else 4;
      && |text| == (|bits| + group - 1) / group
      && (k < |text| ==> GroupBits(bits, group, k) != "" && DigitOver(text[|text| - 1 - k], GroupBits(bits, group, k)))
  {
    hide GroupText, DigitOver;
    var group := if radix.Oct? then 3 else 4;
    GroupTextLength(bits, group);
    if k < |GroupText(bits, group)| {
      EveryDigitOver(bits, group, k);
    }
  }

  /** Decimal text is a number for a known value, and one letter for any other. */
  lemma ConvertedDecimal(bits: string)
    requires FourStateText(bits) && bits != ""
    ensures var text := Converted(bits, Dec);
      && (TwoState(bits) ==> AllDigits(text) && NoLeadingZero(text) && DigitsValue(text) == BinValue(bits))
      && (!TwoState(bits) ==> |text| == 1 && Marks(text[0], bits))
  {
    hide DecText, DigitsValue, BinValue;
    DecTextValue(bits);
    DecTextHead(bits);
    assert FourState(bits[0]);
    assert 'x' in bits <==> Has(bits, 'x');
    assert 'z' in bits <==> Has(bits, 'z');
    assert forall i :: 0 <= i < |bits| ==> FourState(bits[i]);
  }
}
