/**
 How session metadata crosses a shell boundary: as hexadecimal text that survives command
 splitting as a single token.
 */
module Transport {
  import opened CText

  /** A C++ char is a byte. */
  predicate IsBytes(s: string) {
    forall i :: 0 <= i < |s| ==> s[i] as int < 256
  }

  // ----------------------------------------------------------------------- hex

  function HexChar(d: nat): char
    requires d < 16
  {
    "0123456789abcdef"[d]
  }

  function HexDigit(c: char): (d: Option<nat>)
    ensures d.Some? ==> d.value < 16
  {
    if '0' <= c <= '9' then Some(c as int - '0' as int)
    else if 'a' <= c <= 'f' then Some(c as int - 'a' as int + 10)
    else if 'A' <= c <= 'F' then Some(c as int - 'A' as int + 10)
    else None
  }

  function HexPairs(text: string): (h: string)
    requires IsBytes(text)
    ensures |h| == 2 * |text|
  {
    seq(2 * |text|, i requires 0 <= i < 2 * |text| =>
      var b := text[i / 2] as int; HexChar(if i % 2 == 0 then b / 16 else b % 16))
  }

  function Encoded(text: string): string
    requires IsBytes(text)
  {
    "hex:" + HexPairs(text)
  }

  predicate AllHexDigits(h: string) {
    forall i :: 0 <= i < |h| ==> HexDigit(h[i]).Some?
  }

  /** None is the exception "Invalid hex worker session". */
  function Decoded(encoded: string): (r: Option<string>)
    ensures r.Some? && "hex:" <= encoded ==> IsBytes(r.value)
  {
    if !("hex:" <= encoded) then Some(encoded) else
    var h := encoded[4..];
    if |h| % 2 != 0 || !AllHexDigits(h) then None
    else Some(seq(|h| / 2, i requires 0 <= i < |h| / 2 =>
           (HexDigit(h[2*i]).value * 16 + HexDigit(h[2*i+1]).value) as char))
  }

  method HexEncode(text: string) returns (result: string)
    requires IsBytes(text)
    ensures result == Encoded(text)
  {
    result := "hex:";
    for i := 0 to |text|
      invariant result == "hex:" + HexPairs(text[..i])
    {
      var b := text[i] as int;
      result := result + [HexChar(b / 16)];
      result := result + [HexChar(b % 16)];
      assert HexPairs(text[..i+1]) == HexPairs(text[..i]) + [HexChar(b / 16), HexChar(b % 16)];
    }
    assert text[..|text|] == text;
  }

  method HexDecode(encoded: string) returns (result: Option<string>)
    ensures result == Decoded(encoded)
  {
    hide HexDigit;
    if !("hex:" <= encoded) {
      return Some(encoded);
    }
    var hex := encoded[4..];
    if |hex| % 2 != 0 {
      return None;
    }
    var text := "";
    var i := 0;
    while i < |hex|
      invariant 0 <= i <= |hex| && i % 2 == 0
      invariant AllHexDigits(hex[..i])
      invariant |text| == i / 2
      invariant forall k :: 0 <= k < i / 2 ==>
        text[k] == (HexDigit(hex[2*k]).value * 16 + HexDigit(hex[2*k+1]).value) as char
    {
      var hi := HexDigit(hex[i]);
      var lo := HexDigit(hex[i+1]);
      if hi.None? || lo.None? {
        return None;
      }
      text := text + [(hi.value * 16 + lo.value) as char];
      i := i + 2;
    }
    assert hex[..i] == hex;
    assert text == Decoded(encoded).value;
    return Some(text);
  }

  lemma HexCharIsDigit(d: nat)
    requires d < 16
    ensures HexDigit(HexChar(d)) == Some(d)
  {
  }

  /** Digits are written in lower case and read in either case. */
  lemma HexDigitsInEitherCase(d: nat)
    requires d < 16
    ensures HexChar(d) == "0123456789abcdef"[d]
    ensures HexDigit("0123456789abcdef"[d]) == Some(d) == HexDigit("0123456789ABCDEF"[d])
  {
  }

  /** Other characters are no digits. */
  lemma OnlyHexDigits(c: char)
    ensures HexDigit(c).Some? <==> c in "0123456789abcdefABCDEF"
  {
    var digits := "0123456789abcdefABCDEF";
    if '0' <= c <= '9' {
      assert digits[c as int - '0' as int] == c;
    } else if 'a' <= c <= 'f' {
      assert digits[c as int - 'a' as int + 10] == c;
    } else if 'A' <= c <= 'F' {
      assert digits[c as int - 'A' as int + 16] == c;
    }
  }

  lemma HexPairAt(text: string, i: nat)
    requires IsBytes(text) && i < |text|
    ensures HexDigit(HexPairs(text)[2*i]) == Some(text[i] as int / 16)
    ensures HexDigit(HexPairs(text)[2*i+1]) == Some(text[i] as int % 16)
  {
    hide HexChar, HexDigit;
    assert (2 * i) / 2 == i && (2 * i) % 2 == 0 && (2 * i + 1) / 2 == i && (2 * i + 1) % 2 == 1;
    HexCharIsDigit(text[i] as int / 16);
    HexCharIsDigit(text[i] as int % 16);
  }

  lemma HexPairsAreDigits(text: string)
    requires IsBytes(text)
    ensures AllHexDigits(HexPairs(text))
  {
    hide HexDigit, HexPairs;
    var h := HexPairs(text);
    forall k | 0 <= k < |h| ensures HexDigit(h[k]).Some? {
      HexPairAt(text, k / 2);
      assert k == 2 * (k / 2) || k == 2 * (k / 2) + 1;
    }
  }

  /** Decoding undoes encoding on every byte string. */
  lemma DecodeUndoesEncode(text: string)
    requires IsBytes(text)
    ensures Decoded(Encoded(text)) == Some(text)
  {
    hide HexDigit, HexPairs, AllHexDigits;
    var h := HexPairs(text);
    assert Encoded(text)[4..] == h;
    HexPairsAreDigits(text);
    var d := Decoded(Encoded(text)).value;
    forall i | 0 <= i < |text| ensures d[i] == text[i] {
      HexPairAt(text, i);
    }
    assert d == text;
  }

  // ---------------------------------------------------------- command splitting

  /** The state of the splitting loop: the open quote character, or none. */
  datatype Splitter = Splitter(words: seq<string>, word: string, quote: Option<char>)

  function Flushed(s: Splitter): seq<string> {
    if s.word != "" then s.words + [s.word] else s.words
  }

  function SplitChar(s: Splitter, c: char): Splitter {
    if s.quote.Some? then
      if c == s.quote.value then s.(quote := None) else s.(word := s.word + [c])
    else if c == '\'' || c == '"' then s.(quote := Some(c))
    else if IsSpace(c) then s.(words := Flushed(s), word := "")
    else s.(word := s.word + [c])
  }

  function SplitAll(s: Splitter, text: string): Splitter {
    if text == "" then s else SplitChar(SplitAll(s, text[..|text|-1]), text[|text|-1])
  }

  const START := Splitter([], "", None)

  method SplitCommand(text: string) returns (result: seq<string>)
    ensures result == Flushed(SplitAll(START, text))
  {
    result := [];
    var word := "";
    var quote: Option<char> := None;
    for i := 0 to |text|
      invariant Splitter(result, word, quote) == SplitAll(START, text[..i])
    {
      assert text[..i+1][..i] == text[..i];
      var value := text[i];
      if quote.Some? {
        if value == quote.value {
          quote := None;
        } else {
          word := word + [value];
        }
      } else if value == '\'' || value == '"' {
        quote := Some(value);
      } else if IsSpace(value) {
        if word != "" {
          result := result + [word];
          word := "";
        }
      } else {
        word := word + [value];
      }
    }
    assert text[..|text|] == text;
    if word != "" {
      result := result + [word];
    }
  }

  predicate PlainWord(w: string) {
    w != "" && forall i :: 0 <= i < |w| ==> !IsSpace(w[i]) && w[i] != '\'' && w[i] != '"'
  }

  function Joined(words: seq<string>): string {
    if words == [] then "" else Joined(words[..|words|-1]) + " " + words[|words|-1]
  }

  lemma {:induction false} SplitPlainWord(s: Splitter, w: string)
    requires s.quote.None? && forall i :: 0 <= i < |w| ==> !IsSpace(w[i]) && w[i] != '\'' && w[i] != '"'
    ensures SplitAll(s, w) == s.(word := s.word + w)
    decreases |w|
  {
    if w == "" {
      assert s.word + "" == s.word;
    } else {
      SplitPlainWord(s, w[..|w|-1]);
      assert s.word + w == s.word + w[..|w|-1] + [w[|w|-1]];
    }
  }

  lemma {:induction false} SplitConcat(s: Splitter, a: string, b: string)
    ensures SplitAll(s, a + b) == SplitAll(SplitAll(s, a), b)
    decreases |b|
  {
    if b == "" {
      assert a + b == a;
    } else {
      assert (a + b)[..|a+b|-1] == a + b[..|b|-1];
      SplitConcat(s, a, b[..|b|-1]);
    }
  }

  lemma SplitNothing(s: Splitter)
    ensures SplitAll(s, "") == s
  {
  }

  lemma SplitSpace(s: Splitter)
    ensures SplitAll(s, " ") == SplitChar(s, ' ')
  {
    assert " "[..0] == "";
  }

  /** Splitting a command line put together from plain words gives the words back. */
  lemma {:induction false} SplitUndoesJoin(words: seq<string>)
    requires forall i :: 0 <= i < |words| ==> PlainWord(words[i])
    ensures Flushed(SplitAll(START, Joined(words))) == words
    ensures SplitAll(START, Joined(words)).quote.None?
    decreases |words|
  {
    hide SplitAll;
    if words == [] {
      SplitNothing(START);
    } else {
      var n := |words| - 1;
      var front := SplitAll(START, Joined(words[..n]));
      SplitUndoesJoin(words[..n]);
      SplitConcat(START, Joined(words[..n]) + " ", words[n]);
      SplitConcat(START, Joined(words[..n]), " ");
      SplitSpace(front);
      SplitPlainWord(SplitChar(front, ' '), words[n]);
      assert "" + words[n] == words[n];
      assert words == words[..n] + [words[n]];
    }
  }

  // --------------------------------------------------------------- quoted words

  /** A word as it is written on a command line: bare, or between two quote marks. */
  datatype ShellWord = Bare(text: string) | Quoted(text: string, mark: char)

  predicate Proper(w: ShellWord) {
    match w
    case Bare(text) => PlainWord(text)
    case Quoted(text, mark) => (mark == '\'' || mark == '"') && mark !in text
  }

  function Written(w: ShellWord): string {
    match w
    case Bare(text) => text
    case Quoted(text, mark) => [mark] + text + [mark]
  }

  function WrittenLine(words: seq<ShellWord>): string {
    if words == [] then "" else WrittenLine(words[..|words|-1]) + " " + Written(words[|words|-1])
  }

  /** The texts of the words; an empty one is lost. */
  function Texts(words: seq<ShellWord>): seq<string> {
    if words == [] then [] else
    var last := words[|words|-1].text;
    Texts(words[..|words|-1]) + (if last == "" then [] else [last])
  }

  lemma SplitOne(s: Splitter, c: char)
    ensures SplitAll(s, [c]) == SplitChar(s, c)
  {
    assert [c][..0] == "";
  }

  /** Between quote marks every other character is taken as it is, blanks and the other mark included. */
  lemma {:induction false} SplitInside(s: Splitter, text: string)
    requires s.quote.Some? && s.quote.value !in text
    ensures SplitAll(s, text) == s.(word := s.word + text)
    decreases |text|
  {
    if text == "" {
      assert s.word + "" == s.word;
    } else {
      var front, c := text[..|text|-1], text[|text|-1];
      assert text == front + [c] && c in text;
      SplitInside(s, front);
      assert s.word + text == s.word + front + [c];
    }
  }

  lemma SplitQuoted(s: Splitter, text: string, mark: char)
    requires s.quote.None? && (mark == '\'' || mark == '"') && mark !in text
    ensures SplitAll(s, [mark] + text + [mark]) == s.(word := s.word + text)
  {
    hide SplitAll;
    SplitConcat(s, [mark] + text, [mark]);
    SplitConcat(s, [mark], text);
    SplitOne(s, mark);
    var open := s.(quote := Some(mark));
    SplitInside(open, text);
    SplitOne(SplitAll(open, text), mark);
  }

  /**
   A command line of bare and quoted words is split into their texts, without the quote marks
   and whatever blanks stand between them; only empty quoted words are lost.
   */
  lemma {:induction false} SplitUndoesQuoting(words: seq<ShellWord>)
    requires forall i :: 0 <= i < |words| ==> Proper(words[i])
    ensures Flushed(SplitAll(START, WrittenLine(words))) == Texts(words)
    ensures SplitAll(START, WrittenLine(words)).quote.None?
    decreases |words|
  {
    hide SplitAll;
    if words == [] {
      SplitNothing(START);
    } else {
      var n := |words| - 1;
      var front := SplitAll(START, WrittenLine(words[..n]));
      SplitUndoesQuoting(words[..n]);
      SplitConcat(START, WrittenLine(words[..n]) + " ", Written(words[n]));
      SplitConcat(START, WrittenLine(words[..n]), " ");
      SplitSpace(front);
      var behind := SplitChar(front, ' ');
      if words[n].Bare? {
        SplitPlainWord(behind, words[n].text);
      } else {
        SplitQuoted(behind, words[n].text, words[n].mark);
      }
      assert "" + words[n].text == words[n].text && Texts(words[..n]) + [] == Texts(words[..n]);
    }
  }

  /** The encoded payload is one plain word, so it stays one token of any such command line. */
  lemma EncodedIsPlainWord(text: string)
    requires IsBytes(text)
    ensures PlainWord(Encoded(text))
  {
    var h := HexPairs(text);
    forall k | 0 <= k < |h| ensures !IsSpace(h[k]) && h[k] != '\'' && h[k] != '"' {
      HexPairAt(text, k / 2);
      assert k == 2 * (k / 2) || k == 2 * (k / 2) + 1;
    }
  }
}
