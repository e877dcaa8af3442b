/**
 Reading never depends on text it has not reached: whatever the parser accepts, it accepts
 with the same maps when more text follows.
 */
module JsonStability {
  import opened CText
  import opened JsonText

  lemma {:induction false} SkipSpacesStable(t: string, u: string)
    requires SkipSpaces(t) != ""
    ensures SkipSpaces(t + u) == SkipSpaces(t) + u
  {
    if IsSpace(t[0]) {
      assert (t + u)[1..] == t[1..] + u;
      SkipSpacesStable(t[1..], u);
    }
  }

  lemma {:induction false} ReadBodyStable(t: string, u: string)
    requires ReadBody(t).1 != ""
    ensures ReadBody(t + u) == (ReadBody(t).0, ReadBody(t).1 + u)
  {
    if t[0] == '"' {
      assert (t + u)[1..] == t[1..] + u;
    } else if t[0] == '\\' && |t| > 1 {
      assert (t + u)[2..] == t[2..] + u;
      ReadBodyStable(t[2..], u);
    } else {
      assert (t + u)[1..] == t[1..] + u;
      ReadBodyStable(t[1..], u);
    }
  }

  lemma ReadStringStable(t: string, u: string)
    requires ReadString(t).1 != ""
    ensures ReadString(t + u) == (ReadString(t).0, ReadString(t).1 + u)
  {
    SkipSpacesStable(t, u);
    var q := SkipSpaces(t);
    if q[0] == '"' {
      assert (q + u)[1..] == q[1..] + u;
      ReadBodyStable(q[1..], u);
    }
  }

  lemma {:induction false} ReadMoreItemsStable(t: string, u: string)
    requires ReadMoreItems(t).1 != ""
    ensures ReadMoreItems(t + u) == (ReadMoreItems(t).0, ReadMoreItems(t).1 + u)
    decreases |t|
  {
    hide ReadString, ReadBody, SkipSpaces;
    var afterItem := ReadString(t).1;
    var v := SkipSpaces(afterItem);
    assert v != "";
    assert afterItem != "";
    ReadStringStable(t, u);
    SkipSpacesStable(afterItem, u);
    assert (v + u)[1..] == v[1..] + u;
    if v[0] == ',' {
      ReadMoreItemsStable(v[1..], u);
    }
  }

  lemma ReadArrayStable(t: string, u: string)
    requires t != "" && t[0] == '[' && ReadArray(t).1 != ""
    ensures ReadArray(t + u) == (ReadArray(t).0, ReadArray(t).1 + u)
  {
    var v := SkipSpaces(t[1..]);
    assert v != "";
    assert (t + u)[1..] == t[1..] + u;
    SkipSpacesStable(t[1..], u);
    assert (v + u)[1..] == v[1..] + u;
    if v[0] != ']' {
      ReadMoreItemsStable(v, u);
    }
  }

  lemma {:induction false} SkipNestedStable(t: string, depth: int, u: string)
    requires SkipNested(t, depth) != ""
    ensures SkipNested(t + u, depth) == SkipNested(t, depth) + u
    decreases |t|
  {
    assert (t + u)[1..] == t[1..] + u;
    if t[0] == '{' {
      SkipNestedStable(t[1..], depth + 1, u);
    } else if t[0] == '}' {
      if depth - 1 != 0 {
        SkipNestedStable(t[1..], depth - 1, u);
      }
    } else if t[0] == '"' {
      ReadBodyStable(t[1..], u);
      SkipNestedStable(ReadBody(t[1..]).1, depth, u);
    } else {
      SkipNestedStable(t[1..], depth, u);
    }
  }

  lemma {:induction false} SkipNumberStable(t: string, u: string)
    requires SkipNumber(t) != ""
    ensures SkipNumber(t + u) == SkipNumber(t) + u
  {
    if IsNumberChar(t[0]) {
      assert (t + u)[1..] == t[1..] + u;
      SkipNumberStable(t[1..], u);
    }
  }

  lemma ConsumedStable(t: string, rest: string, u: string)
    requires |rest| <= |t|
    ensures Consumed(t + u, rest + u) == Consumed(t, rest)
  {
  }

  /**
   A value is read the same way with more text behind it when a comma or a brace ends it.
   The condition rules out a text that breaks off inside "true" or "false".
   */
  lemma ReadValueStable(key: string, t: string, m: Maps, u: string)
    requires SkipSpaces(t) == t
    requires var end := SkipSpaces(ReadValue(key, t, m).1); end != "" && (end[0] == ',' || end[0] == '}')
    ensures ReadValue(key, t + u, m) == (ReadValue(key, t, m).0, ReadValue(key, t, m).1 + u)
  {
    var rest := ReadValue(key, t, m).1;
    assert rest != "";
    assert t != "" && (t + u)[0] == t[0];
    if t[0] == '"' {
      ReadStringStable(t, u);
    } else if t[0] == '[' {
      ReadArrayStable(t, u);
    } else if t[0] == '{' {
      SkipNestedStable(t, 0, u);
      ConsumedStable(t, rest, u);
    } else if "true" <= t {
      assert (t + u)[4..] == t[4..] + u;
    } else if "false" <= t {
      assert !("true" <= t + u);
      assert (t + u)[5..] == t[5..] + u;
    } else {
      SkipNumberStable(t, u);
      ConsumedStable(t, rest, u);
      assert t[0] != 't' && t[0] != 'f';
    }
  }

  lemma ReadMemberStable(t: string, m: Maps, u: string)
    requires var p := ReadMember(t, m); p.ok && p.rest != "" && (p.rest[0] == ',' || p.rest[0] == '}')
    ensures ReadMember(t + u, m) == ReadMember(t, m).(rest := ReadMember(t, m).rest + u)
  {
    hide ReadString, ReadBody, SkipSpaces, ReadValue;
    var (key, afterKey) := ReadString(t);
    var colon := SkipSpaces(afterKey);
    var value := SkipSpaces(colon[1..]);
    var rest := ReadValue(key, value, m).1;
    assert |rest| <= |value| <= |colon| <= |afterKey|;
    ReadStringStable(t, u);
    SkipSpacesStable(afterKey, u);
    assert (colon + u)[1..] == colon[1..] + u;
    SkipSpacesStable(colon[1..], u);
    SpacesSkippedOnce(colon[1..]);
    ReadValueStable(key, value, m, u);
    SkipSpacesStable(rest, u);
  }

  lemma {:induction false} SpacesSkippedOnce(t: string)
    ensures SkipSpaces(SkipSpaces(t)) == SkipSpaces(t)
  {
    var u := SkipSpaces(t);
    assert u == "" || !IsSpace(u[0]);
  }

  lemma {:induction false} ReadFieldsStable(t: string, m: Maps, u: string)
    requires ReadFields(t, m).ok
    ensures ReadFields(t + u, m) == ReadFields(t, m).(rest := ReadFields(t, m).rest + u)
    decreases |t|
  {
    hide ReadMember;
    var member := ReadMember(t, m);
    ReadMemberStable(t, m, u);
    var v := member.rest;
    assert (v + u)[1..] == v[1..] + u;
    if v[0] == ',' {
      ReadFieldsStable(v[1..], member.maps, u);
    }
  }

  lemma NothingToRead(m: Maps)
    ensures !ReadFields("", m).ok
  {
    assert ReadString("") == ("", "");
  }

  /** Acceptance is stable: the maps stay and the extra text is left over. */
  lemma AcceptanceIsStable(t: string, u: string)
    requires Accepts(t)
    ensures ReadObject(t + u) == ReadObject(t).(rest := ReadObject(t).rest + u)
  {
    hide ReadFields, SkipSpaces;
    var brace := SkipSpaces(t);
    SkipSpacesStable(t, u);
    assert (brace + u)[1..] == brace[1..] + u;
    var v := SkipSpaces(brace[1..]);
    assert v != "" by {
      if v == "" { NothingToRead(NOTHING); }
    }
    SkipSpacesStable(brace[1..], u);
    assert (v + u)[1..] == v[1..] + u;
    if v[0] != '}' {
      ReadFieldsStable(v, NOTHING, u);
    }
  }

  /** A text the parser uses up entirely has no strict prefix the parser accepts. */
  lemma NoStrictPrefixAccepted(t: string, prefix: string)
    requires Accepts(t) && ReadObject(t).rest == ""
    requires prefix <= t && prefix != t
    ensures !Accepts(prefix)
  {
    if Accepts(prefix) {
      var u := t[|prefix|..];
      assert prefix + u == t;
      AcceptanceIsStable(prefix, u);
    }
  }
}
