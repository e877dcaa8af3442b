/**
 What conversion loses when bits are unknown. A lower-case x or z in the converted text
 stands for a mixed group of bits and does not tell which of them are known.
 */
module RadixLoss {
  import opened CText
  import opened Radix

  predicate FourStateText(bits: string) {
    forall i :: 0 <= i < |bits| ==> FourState(bits[i])
  }

  predicate Blurred(text: string) {
    'x' in text || 'z' in text
  }

  /** Changes a bit that is not x in a group that stays mixed: a known bit flips, z becomes known. */
  function Flipped(c: char): char {
    if c == '0' then '1' else '0'
  }

  predicate Same(bits: string, other: string, radix: Radix) {
    && |other| == |bits| && other != bits && FourStateText(other)
    && Converted(other, radix) == Converted(bits, radix)
  }

  // ------------------------------------------------- a blurred text has two readings

  /** Where a mixed group can be changed unnoticed. */
  lemma MixedGroup(chunk: string) returns (p: nat)
    requires FourStateText(chunk) && (GroupDigit(chunk) == 'x' || GroupDigit(chunk) == 'z')
    ensures p < |chunk| && chunk[p] != Flipped(chunk[p])
    ensures GroupDigit(chunk[p := Flipped(chunk[p])]) == GroupDigit(chunk)
  {
    hide BinValue;
    var q :| 0 <= q < |chunk| && (chunk[q] == 'x' || ('x' !in chunk && chunk[q] == 'z'));
    if 'x' in chunk {
      p :| 0 <= p < |chunk| && chunk[p] != 'x';
    } else {
      p :| 0 <= p < |chunk| && (chunk[p] == '0' || chunk[p] == '1');
    }
    var other := chunk[p := Flipped(chunk[p])];
    assert other[q] == chunk[q] && other[p] == Flipped(chunk[p]);
    assert forall i :: 0 <= i < |other| ==> other[i] in chunk || i == p;
  }

  lemma GroupsJoin(front: string, chunk: string, group: nat)
    requires 0 < |chunk| <= group && (|chunk| == group || front == "")
    ensures GroupText(front + chunk, group) == GroupText(front, group) + [GroupDigit(chunk)]
  {
    hide GroupDigit;
    assert (front + chunk)[..|front|] == front && (front + chunk)[|front|..] == chunk;
  }

  lemma {:induction false} BlurredGroups(bits: string, group: nat) returns (other: string)
    requires FourStateText(bits) && (group == 3 || group == 4) && Blurred(GroupText(bits, group))
    ensures |other| == |bits| && other != bits && FourStateText(other)
    ensures GroupText(other, group) == GroupText(bits, group)
    decreases |bits|
  {
    hide GroupDigit, GroupText;
    SomeBits(bits, group);
    var begin := if |bits| > group then |bits| - group else 0;
    var front, chunk := bits[..begin], bits[begin..];
    assert front + chunk == bits;
    GroupsJoin(front, chunk, group);
    if GroupDigit(chunk) == 'x' || GroupDigit(chunk) == 'z' {
      var p := MixedGroup(chunk);
      var changed := chunk[p := Flipped(chunk[p])];
      GroupsJoin(front, changed, group);
      other := front + changed;
      assert other[begin + p] != bits[begin + p];
    } else {
      var changed := BlurredGroups(front, group);
      GroupsJoin(changed, chunk, group);
      other := changed + chunk;
      assert other[..begin] == changed;
    }
  }

  lemma SomeBits(bits: string, group: nat)
    requires group > 0 && Blurred(GroupText(bits, group))
    ensures bits != ""
  {
  }

  lemma BlurredDecimal(bits: string) returns (other: string)
    requires FourStateText(bits) && Blurred(Converted(bits, Dec))
    ensures Same(bits, other, Dec)
  {
    hide DecText;
    var q :| 0 <= q < |bits| && (bits[q] == 'x' || ('x' !in bits && bits[q] == 'z'));
    var p: nat;
    if 'x' in bits {
      p :| 0 <= p < |bits| && bits[p] != 'x';
    } else {
      p :| 0 <= p < |bits| && (bits[p] == '0' || bits[p] == '1');
    }
    other := bits[p := Flipped(bits[p])];
    assert other[q] == bits[q] && other[p] == Flipped(bits[p]);
    assert forall i :: 0 <= i < |other| ==> other[i] in bits || i == p;
  }

  // ---------------------------------------------- a text that is not blurred has one

  lemma SameDigitSameGroup(a: string, b: string)
    requires FourStateText(a) && FourStateText(b) && 0 < |a| == |b| <= 4
    requires GroupDigit(a) == GroupDigit(b) && GroupDigit(a) != 'x' && GroupDigit(a) != 'z'
    ensures a == b
  {
    hide BinValue, HexDigitValue;
    assert a[0] in a && b[0] in b;
    if GroupDigit(a) == 'X' || GroupDigit(a) == 'Z' {
      ChunkValue(a);
      ChunkValue(b);
      assert forall i :: 0 <= i < |a| ==> a[i] in a && b[i] in b;
      assert a == b;
    } else {
      assert TwoState(a) && TwoState(b);
      GroupDigitValue(a);
      GroupDigitValue(b);
      BinInjective(a, b);
    }
  }

  lemma {:induction false} ClearGroups(a: string, b: string, group: nat)
    requires FourStateText(a) && FourStateText(b) && |a| == |b| && (group == 3 || group == 4)
    requires GroupText(a, group) == GroupText(b, group) && !Blurred(GroupText(a, group))
    ensures a == b
    decreases |a|
  {
    hide GroupDigit;
    if a != "" {
      var begin := if |a| > group then |a| - group else 0;
      var s, t := GroupText(a[..begin], group), GroupText(b[..begin], group);
      var c, d := GroupDigit(a[begin..]), GroupDigit(b[begin..]);
      assert s + [c] == t + [d];
      assert s == (s + [c])[..|s|] && t == (t + [d])[..|t|] && |s + [c]| == |t + [d]|;
      assert (s + [c])[|s|] == c && (t + [d])[|t|] == d;
      ClearGroups(a[..begin], b[..begin], group);
      SameDigitSameGroup(a[begin..], b[begin..]);
      assert a == a[..begin] + a[begin..] && b == b[..begin] + b[begin..];
    }
  }

  lemma ClearDecimal(a: string, b: string)
    requires FourStateText(a) && FourStateText(b) && |a| == |b|
    requires Converted(a, Dec) == Converted(b, Dec) && !Blurred(Converted(a, Dec))
    ensures a == b
  {
    hide DecText;
    NotADigit(a);
    NotADigit(b);
    if 'x' !in a && 'z' !in a {
      assert TwoState(a) && TwoState(b);
      ConversionInjective(a, b, Dec);
    } else {
      assert a == b;
    }
  }

  lemma NotADigit(bits: string)
    ensures DecText(bits) != "X" && DecText(bits) != "Z" && DecText(bits) != "x" && DecText(bits) != "z"
  {
    var d := DecText(bits);
    assert d != "" ==> IsDigit(d[0]);
  }

  /**
   Conversion loses information exactly when the converted text holds a lower-case x or z:
   then, and only then, another value of the same width has the same text.
   */
  lemma LossyIffBlurred(bits: string, radix: Radix)
    requires FourStateText(bits) && !radix.Bin?
    ensures (exists other :: Same(bits, other, radix)) <==> Blurred(Converted(bits, radix))
  {
    hide GroupText, DecText;
    if Blurred(Converted(bits, radix)) {
      var other;
      match radix {
        case Dec => other := BlurredDecimal(bits);
        case Oct => other := BlurredGroups(bits, 3);
        case Hex => other := BlurredGroups(bits, 4);
      }
      assert Same(bits, other, radix);
    } else {
      forall other | FourStateText(other) && |other| == |bits| && Converted(other, radix) == Converted(bits, radix)
        ensures other == bits
      {
        ClearIsInjective(bits, other, radix);
      }
    }
  }

  /** A text without a lower-case x or z comes from one value only. */
  lemma ClearIsInjective(a: string, b: string, radix: Radix)
    requires FourStateText(a) && FourStateText(b) && |a| == |b|
    requires Converted(a, radix) == Converted(b, radix)
    requires radix.Bin? || !Blurred(Converted(a, radix))
    ensures a == b
  {
    hide GroupText, DecText;
    match radix
    case Bin =>
    case Dec => ClearDecimal(a, b);
    case Oct => ClearGroups(a, b, 3);
    case Hex => ClearGroups(a, b, 4);
  }
}
