/** What canonical JSON is for: the text determines the value, and only one text of a value passes the verifier. */
module JsonRoundTrip {
  import opened Outcomes
  import opened Text
  import opened CanonJson
  import opened JsonReader

  /** What may follow a number without being read as part of it. */
  predicate NumberEnds(rest: string) {
    rest == "" || !(IsDigit(rest[0]) || rest[0] == '.' || rest[0] == 'e' || rest[0] == 'E')
  }

  lemma HexReadsBack(d: nat)
    requires d < 16
    ensures IsHex(HexDigit(d)) && HexValue(HexDigit(d)) == d
  {
  }

  lemma ControlEscapeReadsBack(n: nat, tail: string)
    requires n < 32
    ensures ParseEscape("u00" + [HexDigit(n / 16), HexDigit(n % 16)] + tail) == Ok((n as char, tail))
  {
    var high, low := HexDigit(n / 16), HexDigit(n % 16);
    var u := "u00" + [high, low] + tail;
    HexReadsBack(n / 16);
    HexReadsBack(n % 16);
    var h := u[1..];
    assert h[0] == '0' && h[1] == '0' && h[2] == high && h[3] == low;
    assert Hex4(h) == Some(n);
    assert u[5..] == tail;
  }

  lemma ParseStringEscaped(e: string, c: char, tail: string)
    requires ParseEscape(e + tail) == Ok((c, tail)) && ParseString(tail).Ok?
    ensures ParseString("\\" + e + tail) == Ok(([c] + ParseString(tail).value.0, ParseString(tail).value.1))
  {
    var s := "\\" + e + tail;
    assert s[0] == '\\' && s[1..] == e + tail;
  }

  lemma ParseEscapeShort(e: char, tail: string)
    requires e != 'u'
    ensures ParseEscape([e] + tail) ==
      if e == '"' || e == '\\' || e == '/' then Ok((e, tail))
      else if e == 'b' then Ok((8 as char, tail))
      else if e == 'f' then Ok((12 as char, tail))
      else if e == 'n' then Ok(('\n', tail))
      else if e == 'r' then Ok(('\r', tail))
      else if e == 't' then Ok(('\t', tail))
      else Err(Malformed)
  {
    assert ([e] + tail)[1..] == tail;
  }

  lemma EscapedCharReadsBack(c: char, tail: string)
    requires ParseString(tail).Ok?
    ensures ParseString(EscapeChar(c) + tail) == Ok(([c] + ParseString(tail).value.0, ParseString(tail).value.1))
  {
    hide ParseEscape;
    var e := EscapeChar(c);
    if c != '"' && c != '\\' && c >= ' ' {
      assert (e + tail)[0] == c && (e + tail)[1..] == tail;
    } else if |e| == 2 {
      ParseEscapeShort(e[1], tail);
      ParseStringEscaped([e[1]], c, tail);
      assert e == "\\" + [e[1]];
    } else {
      var n := c as int;
      var u := "u00" + [HexDigit(n / 16), HexDigit(n % 16)];
      ControlEscapeReadsBack(n, tail);
      ParseStringEscaped(u, c, tail);
      assert e == "\\" + u;
    }
  }

  lemma EscapeStep(s: string, rest: string)
    requires s != ""
    ensures Escape(s) + "\"" + rest == EscapeChar(s[0]) + (Escape(s[1..]) + "\"" + rest)
  {
    hide EscapeChar;
    assert Escape(s) == EscapeChar(s[0]) + Escape(s[1..]);
  }

  lemma ClosingQuote(rest: string)
    ensures ParseString(Escape("") + "\"" + rest) == Ok(("", rest))
  {
    assert (Escape("") + "\"" + rest)[1..] == rest;
  }

  lemma {:induction false} StringReadsBack(s: string, rest: string)
    ensures ParseString(Escape(s) + "\"" + rest) == Ok((s, rest))
  {
    hide ParseString, Escape, EscapeChar;
    if s == "" {
      ClosingQuote(rest);
    } else {
      StringReadsBack(s[1..], rest);
      EscapedCharReadsBack(s[0], Escape(s[1..]) + "\"" + rest);
      EscapeStep(s, rest);
      assert [s[0]] + s[1..] == s;
    }
  }

  lemma NumberParts(s: string, sign: nat, d: string, rest: string)
    requires sign == (if s != "" && s[0] == '-' then 1 else 0) && sign <= |s| && s[sign..] == d + rest
    requires AllDigits(d) && d != "" && (d[0] == '0' ==> |d| == 1) && NumberEnds(rest)
    requires !(sign == 1 && NatOf(d) == 0) && MIN_I64 <= Signed(sign == 1, NatOf(d)) <= MAX_U64
    ensures ParseNumber(s) == Ok((Int(Signed(sign == 1, NatOf(d))), rest))
  {
    hide NatOf, DigitRun, FractionAndExponent;
    DigitRunStops(d, rest);
    assert FractionAndExponent(rest) == Ok(0);
    assert rest[0..] == rest;
  }

  lemma NumberReadsBack(n: JsonInt, rest: string)
    requires NumberEnds(rest)
    ensures ParseNumber(Decimal(n) + rest) == Ok((Int(n), rest))
  {
    hide ParseNumber, Digits, NatOf;
    var s := Decimal(n) + rest;
    var d := Digits(if n < 0 then -n else n);
    DigitsReadBack(if n < 0 then -n else n);
    var sign := if n < 0 then 1 else 0;
    assert s[sign..] == d + rest;
    NumberParts(s, sign, d, rest);
  }

  /** A printed value starts with a character that begins a value, so no separator is misread. */
  predicate StartsValue(s: string) {
    s != "" && (s[0] == 'n' || s[0] == 't' || s[0] == 'f' || s[0] == '"' || s[0] == '[' || s[0] == '{'
                || s[0] == '-' || IsDigit(s[0]))
  }

  lemma CanonicalStartsValue(v: Value)
    requires FloatFree(v)
    ensures StartsValue(Canonical(v))
  {
    if v.Int? {
      DigitsReadBack(if v.n < 0 then -v.n else v.n);
    }
  }

  // One step of the reader on each kind of text the printer emits.

  lemma ReadWord(word: string, rest: string)
    requires word == "null" || word == "true" || word == "false"
    ensures ParseValue(word + rest) == Ok((if word == "null" then Null else Bool(word == "true"), rest))
  {
    var s := word + rest;
    assert s[0] == word[0] && s[..|word|] == word && s[|word|..] == rest;
  }

  lemma ReadQuoted(str: string, tail: string, rest: string)
    requires ParseString(tail) == Ok((str, rest))
    ensures ParseValue("\"" + tail) == Ok((Str(str), rest))
  {
    assert ("\"" + tail)[1..] == tail;
  }

  lemma ReadNumber(s: string)
    requires s != "" && (s[0] == '-' || IsDigit(s[0]))
    ensures ParseValue(s) == ParseNumber(s)
  {
    hide ParseNumber;
  }

  lemma ReadArray(tail: string, items: seq<Value>, rest: string)
    requires StartsValue(tail) && ParseItems(tail) == Ok((items, rest))
    ensures ParseValue("[" + tail) == Ok((Arr(items), rest))
  {
    hide ParseItems;
    assert ("[" + tail)[1..] == tail && SkipSpace(tail) == tail;
  }

  lemma ReadObject(tail: string, members: map<string, Value>, rest: string)
    requires tail != "" && tail[0] == '"' && ParseMembers(tail, map[]) == Ok((members, rest))
    ensures ParseValue("{" + tail) == Ok((Obj(members), rest))
  {
    assert ("{" + tail)[1..] == tail && SkipSpace(tail) == tail;
  }

  lemma ReadEmpty(rest: string)
    ensures ParseValue("[]" + rest) == Ok((Arr([]), rest))
    ensures ParseValue("{}" + rest) == Ok((Obj(map[]), rest))
  {
    assert ("[]" + rest)[1..] == "]" + rest && ("{}" + rest)[1..] == "}" + rest;
    assert ("]" + rest)[1..] == rest && ("}" + rest)[1..] == rest;
  }

  lemma ReadLastItem(s: string, item: Value, rest: string)
    requires ParseValue(s) == Ok((item, "]" + rest))
    ensures ParseItems(s) == Ok(([item], rest))
  {
    assert SkipSpace("]" + rest) == "]" + rest && ("]" + rest)[1..] == rest;
  }

  lemma ReadItem(s: string, item: Value, tail: string, items: seq<Value>, rest: string)
    requires ParseValue(s) == Ok((item, "," + tail)) && ParseItems(tail) == Ok((items, rest))
    ensures ParseItems(s) == Ok(([item] + items, rest))
  {
    assert SkipSpace("," + tail) == "," + tail && ("," + tail)[1..] == tail;
  }

  lemma ReadMember(tail: string, key: string, value: string, v: Value, rest: string)
    requires ParseString(tail) == Ok((key, ":" + value)) && ParseValue(value) == Ok((v, rest))
    ensures ParseMember("\"" + tail) == Ok(((key, v), rest))
  {
    assert ("\"" + tail)[1..] == tail;
    assert SkipSpace(":" + value) == ":" + value && (":" + value)[1..] == value;
  }

  lemma ReadLastMember(s: string, sofar: map<string, Value>, key: string, v: Value, rest: string)
    requires ParseMember(s) == Ok(((key, v), "}" + rest))
    ensures ParseMembers(s, sofar) == Ok((sofar[key := v], rest))
  {
    assert SkipSpace("}" + rest) == "}" + rest && ("}" + rest)[1..] == rest;
  }

  lemma ReadNextMember(s: string, sofar: map<string, Value>, key: string, v: Value, tail: string)
    requires ParseMember(s) == Ok(((key, v), "," + tail))
    ensures ParseMembers(s, sofar) == ParseMembers(tail, sofar[key := v])
  {
    assert SkipSpace("," + tail) == "," + tail && ("," + tail)[1..] == tail;
  }

  lemma {:induction false} ValueReadsBack(v: Value, rest: string)
    requires FloatFree(v) && NumberEnds(rest)
    ensures ParseValue(Canonical(v) + rest) == Ok((v, rest))
    decreases v, 2
  {
    hide ParseValue, ParseNumber, ParseString, CanonicalItems, CanonicalMembers, Escape;
    match v {
      case Null => ReadWord("null", rest);
      case Bool(b) => ReadWord(if b then "true" else "false", rest);
      case Int(n) =>
        DigitsReadBack(if n < 0 then -n else n);
        assert (Decimal(n) + rest)[0] == Decimal(n)[0];
        ReadNumber(Decimal(n) + rest);
        NumberReadsBack(n, rest);
      case Str(str) =>
        StringReadsBack(str, rest);
        ReadQuoted(str, Escape(str) + "\"" + rest, rest);
        assert Quote(str) + rest == "\"" + (Escape(str) + "\"" + rest);
      case Arr(items) => ArrayReadsBack(items, rest);
      case Obj(members) => ObjectReadsBack(v, rest);
    }
  }

  lemma {:induction false} ArrayReadsBack(items: seq<Value>, rest: string)
    requires forall i :: 0 <= i < |items| ==> FloatFree(items[i])
    ensures ParseValue("[" + CanonicalItems(items) + "]" + rest) == Ok((Arr(items), rest))
    decreases items, 2
  {
    hide ParseValue, ParseItems;
    var tail := CanonicalItems(items) + "]" + rest;
    if items == [] {
      ReadEmpty(rest);
      assert "[" + CanonicalItems(items) + "]" == "[]";
    } else {
      ItemsReadBack(items, rest);
      ReadArray(tail, items, rest);
      assert "[" + CanonicalItems(items) + "]" + rest == "[" + tail;
    }
  }

  lemma {:induction false} ObjectReadsBack(v: Value, rest: string)
    requires v.Obj? && FloatFree(v)
    ensures ParseValue(Canonical(v) + rest) == Ok((v, rest))
    decreases v, 1
  {
    hide ParseValue, ParseMembers, CanonicalMembers, FloatFree, Canonical;
    var keys := SortedKeys(v.members.Keys);
    var tail := CanonicalMembers(v, keys) + "}" + rest;
    ObjectText(v, rest);
    if keys == [] {
      ReadEmpty(rest);
    } else {
      KeysAreDistinct(keys);
      MembersReadBack(v, keys, map[], rest);
      ReadObject(tail, v.members, rest);
    }
  }

  lemma MembersByKeys(members: map<string, Value>, keys: seq<string>)
    requires Elements(keys) == members.Keys
    ensures forall k :: k in keys <==> k in members
    ensures map[] + (map k | k in keys :: members[k]) == members
  {
    assert forall k :: k in keys <==> k in Elements(keys);
  }

  lemma ObjectText(v: Value, rest: string)
    requires v.Obj?
    ensures forall k :: k in SortedKeys(v.members.Keys) <==> k in v.members
    ensures map[] + (map k | k in SortedKeys(v.members.Keys) :: v.members[k]) == v.members
    ensures Canonical(v) + rest == "{" + (CanonicalMembers(v, SortedKeys(v.members.Keys)) + "}" + rest)
    ensures SortedKeys(v.members.Keys) == [] ==> v == Obj(map[]) && Canonical(v) + rest == "{}" + rest
  {
    hide CanonicalMember, SortedKeys, CanonicalMembers, CanonicalItems, Quote, Increasing;
    var keys := SortedKeys(v.members.Keys);
    MembersByKeys(v.members, keys);
    if keys == [] {
      assert v.members == map[];
      NoMembers(v);
    }
  }

  lemma NoMembers(v: Value)
    requires v.Obj?
    ensures CanonicalMembers(v, []) == ""
  {
  }

  lemma KeysAreDistinct(keys: seq<string>)
    requires Increasing(keys)
    ensures forall i, j :: 0 <= i < j < |keys| ==> keys[i] != keys[j]
  {
    forall i, j | 0 <= i < j < |keys|
      ensures keys[i] != keys[j]
    {
      LessIrreflexive(keys[i]);
    }
  }

  lemma {:induction false} ItemsReadBack(items: seq<Value>, rest: string)
    requires items != [] && forall i :: 0 <= i < |items| ==> FloatFree(items[i])
    ensures ParseItems(CanonicalItems(items) + "]" + rest) == Ok((items, rest))
    ensures StartsValue(CanonicalItems(items) + "]" + rest)
    decreases items, 1
  {
    hide ParseValue, ParseItems, Canonical;
    var first := Canonical(items[0]);
    var s := CanonicalItems(items) + "]" + rest;
    CanonicalStartsValue(items[0]);
    assert s[0] == first[0];
    if |items| == 1 {
      ValueReadsBack(items[0], "]" + rest);
      assert s == first + ("]" + rest);
      ReadLastItem(s, items[0], rest);
      assert items == [items[0]];
    } else {
      var tail := CanonicalItems(items[1..]) + "]" + rest;
      ValueReadsBack(items[0], "," + tail);
      assert s == first + ("," + tail);
      ItemsReadBack(items[1..], rest);
      ReadItem(s, items[0], tail, items[1..], rest);
      assert items == [items[0]] + items[1..];
    }
  }

  lemma {:induction false} MemberReadsBack(v: Value, key: string, rest: string)
    requires v.Obj? && key in v.members && FloatFree(v.members[key]) && NumberEnds(rest)
    ensures ParseMember(CanonicalMember(v, key) + rest) == Ok(((key, v.members[key]), rest))
    ensures CanonicalMember(v, key) != "" && CanonicalMember(v, key)[0] == '"'
    decreases v, 0, 0
  {
    hide ParseValue, ParseMember, ParseString, Canonical, Escape;
    var value := Canonical(v.members[key]) + rest;
    var tail := Escape(key) + "\"" + (":" + value);
    StringReadsBack(key, ":" + value);
    ValueReadsBack(v.members[key], rest);
    ReadMember(tail, key, value, v.members[key], rest);
    assert CanonicalMember(v, key) + rest == "\"" + tail;
  }

  lemma MembersStart(v: Value, keys: seq<string>)
    requires v.Obj? && keys != [] && forall k :: k in keys ==> k in v.members
    ensures CanonicalMembers(v, keys) != "" && CanonicalMembers(v, keys)[0] == '"'
  {
    hide Canonical, Escape;
    assert CanonicalMember(v, keys[0])[0] == '"';
  }

  lemma {:induction false} MembersReadBack(v: Value, keys: seq<string>, sofar: map<string, Value>, rest: string)
    requires v.Obj? && FloatFree(v) && keys != [] && forall k :: k in keys ==> k in v.members
    requires forall i, j :: 0 <= i < j < |keys| ==> keys[i] != keys[j]
    ensures ParseMembers(CanonicalMembers(v, keys) + "}" + rest, sofar)
         == Ok((sofar + (map k | k in keys :: v.members[k]), rest))
    ensures (CanonicalMembers(v, keys) + "}" + rest)[0] == '"'
    decreases v, 0, |keys| + 1
  {
    hide ParseMember, ParseMembers, CanonicalMember;
    var s := CanonicalMembers(v, keys) + "}" + rest;
    var member := CanonicalMember(v, keys[0]);
    MembersStart(v, keys);
    if |keys| == 1 {
      MemberReadsBack(v, keys[0], "}" + rest);
      assert s == member + ("}" + rest);
      ReadLastMember(s, sofar, keys[0], v.members[keys[0]], rest);
      FirstMember(v, keys, sofar);
    } else {
      var tail := CanonicalMembers(v, keys[1..]) + "}" + rest;
      MemberReadsBack(v, keys[0], "," + tail);
      assert s == member + ("," + tail);
      ReadNextMember(s, sofar, keys[0], v.members[keys[0]], tail);
      MembersReadBack(v, keys[1..], sofar[keys[0] := v.members[keys[0]]], rest);
      FirstMember(v, keys, sofar);
    }
  }

  lemma FirstMember(v: Value, keys: seq<string>, sofar: map<string, Value>)
    requires v.Obj? && keys != [] && forall k :: k in keys ==> k in v.members
    ensures sofar + (map k | k in keys :: v.members[k])
         == sofar[keys[0] := v.members[keys[0]]] + (map k | k in keys[1..] :: v.members[k])
    ensures |keys| == 1 ==> sofar + (map k | k in keys :: v.members[k]) == sofar[keys[0] := v.members[keys[0]]]
  {
  }

  // ---- The one spelling ----

  /** An escape takes one character for one of the eight it has a letter for, and at least five for anything else. */
  lemma EscapeLengths(t: string)
    ensures ParseEscape(t).Ok? ==>
      var (c, rest) := ParseEscape(t).value;
      (|t| == |rest| + 1 && (c == '"' || c == '\\' || c == '/' || c == 8 as char || c == 12 as char || c == '\n' || c == '\r' || c == '\t'))
      || |t| >= |rest| + 5
  {
    hide Hex4;
  }

  lemma EmptyStringIsAQuote(s: string)
    requires ParseString(s) == Ok(("", ""))
    ensures s == "\""
  {
    hide ParseEscape;
    assert s[0] == '"' && s[1..] == "";
    assert s == [s[0]] + s[1..];
  }

  /** How a text that reads as one character begins: with the character itself, or with an escape for it. */
  lemma OneCharacterRead(c: char, s: string)
    requires ParseString(s) == Ok(([c], ""))
    ensures s != "" && s[0] >= ' '
    ensures if s[0] == '\\' then ParseEscape(s[1..]).Ok? && ParseEscape(s[1..]).value == (c, "\"")
            else s[0] == c && c != '"' && |s| == 2
  {
    hide ParseEscape;
    if s[0] == '\\' {
      var (d, rest) := ParseEscape(s[1..]).value;
      var tail := ParseString(rest).value;
      assert [d] + tail.0 == [c];
      assert ([d] + tail.0)[0] == d && |[d] + tail.0| == 1 + |tail.0|;
      EmptyStringIsAQuote(rest);
    } else {
      var tail := ParseString(s[1..]).value;
      assert [s[0]] + tail.0 == [c];
      assert ([s[0]] + tail.0)[0] == s[0] && |[s[0]] + tail.0| == 1 + |tail.0|;
      EmptyStringIsAQuote(s[1..]);
    }
  }

  /** One character for itself, two for those with a letter of their own, six for the other control characters. */
  lemma EscapeShapes(c: char)
    ensures c >= ' ' && c != '"' && c != '\\' ==> EscapeChar(c) == [c]
    ensures c == '"' || c == '\\' || c == 8 as char || c == 12 as char || c == '\n' || c == '\r' || c == '\t' ==> |EscapeChar(c)| == 2
    ensures |EscapeChar(c)| <= 6 && (|EscapeChar(c)| == 6 ==> EscapeChar(c)[..4] == "\\u00" && c < ' ')
    ensures |EscapeChar(c)| == 6 ==> forall i :: 4 <= i < 6 ==> IsDigit(EscapeChar(c)[i]) || 'a' <= EscapeChar(c)[i] <= 'f'
  {
  }

  /** No text that the reader takes for a character is shorter than the printer's, and its hex digits are lower case. */
  lemma EscapeIsShortest(c: char, e: string)
    requires ParseString(e + "\"") == Ok(([c], ""))
    ensures |EscapeChar(c)| <= |e|
    ensures |EscapeChar(c)| == 6 ==> EscapeChar(c)[..4] == "\\u00"
    ensures |EscapeChar(c)| == 6 ==> forall i :: 4 <= i < 6 ==> IsDigit(EscapeChar(c)[i]) || 'a' <= EscapeChar(c)[i] <= 'f'
  {
    hide ParseEscape, ParseString, EscapeChar;
    var s := e + "\"";
    OneCharacterRead(c, s);
    EscapeLengths(s[1..]);
    EscapeShapes(c);
    assert |s| == |e| + 1 && |s[1..]| == |e|;
  }

  lemma OrderOfTwo(k: string, l: string)
    requires Less(k, l)
    ensures Increasing([]) && Increasing([k]) && Increasing([k, l])
  {
  }

  /** Arrays and objects have no white space, and the smaller key comes first. */
  lemma CanonicalShapes(a: Value, b: Value, k: string, l: string)
    requires Less(k, l)
    ensures Canonical(Arr([])) == "[]" && Canonical(Arr([a])) == "[" + Canonical(a) + "]"
    ensures Canonical(Arr([a, b])) == "[" + (Canonical(a) + "," + Canonical(b)) + "]"
    ensures Canonical(Obj(map[])) == "{}" && Canonical(Obj(map[k := a])) == "{" + (Quote(k) + ":" + Canonical(a)) + "}"
    ensures Canonical(Obj(map[l := b, k := a])) ==
      "{" + ((Quote(k) + ":" + Canonical(a)) + "," + (Quote(l) + ":" + Canonical(b))) + "}"
  {
    hide SortedKeys, Quote, Less, Increasing;
    LessIrreflexive(k);
    assert Increasing([k]) && Increasing([k, l]) && Increasing([]) by {
      OrderOfTwo(k, l);
    }
    assert [a, b][1..] == [b];
    assert CanonicalItems([a, b]) == Canonical(a) + "," + CanonicalItems([b]);
    assert CanonicalItems([b]) == Canonical(b) && CanonicalItems([a]) == Canonical(a);
    var none, one, two := Obj(map[]), Obj(map[k := a]), Obj(map[l := b, k := a]);
    assert Elements<string>([]) == {};
    assert Elements([k]) == {k};
    assert Elements([k, l]) == {k, l} by {
      assert forall x :: x in [k, l] <==> x == k || x == l;
    }
    assert none.members.Keys == {} && one.members.Keys == {k} && two.members.Keys == {k, l};
    IncreasingUnique(SortedKeys(none.members.Keys), []);
    IncreasingUnique(SortedKeys(one.members.Keys), [k]);
    IncreasingUnique(SortedKeys(two.members.Keys), [k, l]);
    assert CanonicalMembers(none, []) == "";
    assert "{" + "" + "}" == "{}";
    assert CanonicalMembers(one, [k]) == CanonicalMember(one, k);
    assert Canonical(one) == "{" + CanonicalMembers(one, [k]) + "}";
    assert [k, l][1..] == [l];
    assert CanonicalMembers(two, [l]) == CanonicalMember(two, l);
    assert Canonical(two) == "{" + CanonicalMembers(two, [k, l]) + "}";
  }

  // ---- Main results ----

  /** Printing then reading gives the value back, for every value that can be printed. */
  lemma CanonicalReadsBack(v: Value)
    requires FloatFree(v)
    ensures Parse(Canonical(v)) == Ok(v)
  {
    ValueReadsBack(v, "");
    assert Canonical(v) + "" == Canonical(v);
  }

  /** Objects being maps, equal canonical texts come from equal values. */
  lemma CanonicalInjective(a: Value, b: Value)
    requires FloatFree(a) && FloatFree(b) && Canonical(a) == Canonical(b)
    ensures a == b
  {
    CanonicalReadsBack(a);
    CanonicalReadsBack(b);
  }

  /** The verifier's re-print test: parse, print, compare. */
  ghost predicate IsCanonicalText(text: string) {
    var parsed := Parse(text);
    parsed.Ok? && FloatFree(parsed.value) && Canonical(parsed.value) == text
  }

  /** That test accepts exactly what the printer can emit. */
  lemma CanonicalTextsAreThePrinted(text: string)
    ensures IsCanonicalText(text) <==> exists v :: FloatFree(v) && Canonical(v) == text
  {
    if IsCanonicalText(text) {
      var v := Parse(text).value;
      assert FloatFree(v) && Canonical(v) == text;
    }
    forall v | FloatFree(v) && Canonical(v) == text
      ensures IsCanonicalText(text)
    {
      CanonicalReadsBack(v);
    }
  }

  predicate NoControl(s: string) {
    forall i :: 0 <= i < |s| ==> s[i] >= ' '
  }

  lemma NoControlConcat(a: string, b: string)
    ensures NoControl(a + b) <==> NoControl(a) && NoControl(b)
  {
    var s := a + b;
    assert forall i :: 0 <= i < |a| ==> s[i] == a[i];
    assert forall i :: 0 <= i < |b| ==> s[|a| + i] == b[i];
  }

  lemma {:induction false} EscapeNoControl(s: string)
    ensures NoControl(Quote(s)) && NoControl(Escape(s))
  {
    if s != "" {
      EscapeNoControl(s[1..]);
      NoControlConcat(EscapeChar(s[0]), Escape(s[1..]));
    }
  }

  /** A canonical text has no raw control character, so in particular no newline. */
  lemma {:induction false} CanonicalNoControl(v: Value)
    requires FloatFree(v)
    ensures NoControl(Canonical(v))
    decreases v, 2
  {
    match v {
      case Int(n) => DigitsReadBack(if n < 0 then -n else n);
      case Str(s) => EscapeNoControl(s);
      case Arr(items) =>
        ItemsNoControl(items);
        NoControlConcat("[", CanonicalItems(items));
        NoControlConcat("[" + CanonicalItems(items), "]");
      case Obj(members) =>
        var keys := SortedKeys(members.Keys);
        assert forall k :: k in keys <==> k in Elements(keys);
        MembersNoControl(v, keys);
        NoControlConcat("{", CanonicalMembers(v, keys));
        NoControlConcat("{" + CanonicalMembers(v, keys), "}");
      case _ =>
    }
  }

  lemma {:induction false} ItemsNoControl(items: seq<Value>)
    requires forall i :: 0 <= i < |items| ==> FloatFree(items[i])
    ensures NoControl(CanonicalItems(items))
    decreases items, 1
  {
    if items != [] {
      CanonicalNoControl(items[0]);
      ItemsNoControl(items[1..]);
      NoControlConcat(Canonical(items[0]), ",");
      NoControlConcat(Canonical(items[0]) + ",", CanonicalItems(items[1..]));
    }
  }

  lemma {:induction false} MembersNoControl(v: Value, keys: seq<string>)
    requires v.Obj? && FloatFree(v) && forall k :: k in keys ==> k in v.members
    ensures NoControl(CanonicalMembers(v, keys))
    decreases v, 1, |keys|
  {
    if keys != [] {
      var member := CanonicalMember(v, keys[0]);
      EscapeNoControl(keys[0]);
      CanonicalNoControl(v.members[keys[0]]);
      NoControlConcat(Quote(keys[0]), ":");
      NoControlConcat(Quote(keys[0]) + ":", Canonical(v.members[keys[0]]));
      MembersNoControl(v, keys[1..]);
      NoControlConcat(member, ",");
      NoControlConcat(member + ",", CanonicalMembers(v, keys[1..]));
    }
  }
}
