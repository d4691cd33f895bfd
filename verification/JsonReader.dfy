/**
 * The JSON reader the event verifier runs on every stored payload (events.rs, through serde_json::from_str):
 * the grammar of sections 2-7 of RFC 8259, the last of several equal keys winning, integers outside
 * [-2^63, 2^64) and "-0" read as floats. The depth limit of the library reader is not modelled.
 */
module JsonReader {
  import opened Outcomes
  import opened Text
  import opened CanonJson

  datatype SyntaxError = Malformed

  type Parsed<+T> = Result<(T, string), SyntaxError>

  predicate IsSpace(c: char) {
    c == ' ' || c == '\t' || c == '\n' || c == '\r'
  }

  function SkipSpace(s: string): (rest: string)
    ensures |rest| <= |s|
    ensures rest != "" ==> !IsSpace(rest[0])
    ensures s != "" && !IsSpace(s[0]) ==> rest == s
  {
    if s != "" && IsSpace(s[0]) then SkipSpace(s[1..]) else s
  }

  function Literal(s: string, word: string, v: Value): (r: Parsed<Value>)
    ensures r.Ok? && word != "" ==> |r.value.1| < |s|
  {
    if word <= s then Ok((v, s[|word|..])) else Err(Malformed)
  }

  // ---- Strings ----

  predicate IsHex(c: char) {
    IsDigit(c) || 'a' <= c <= 'f' || 'A' <= c <= 'F'
  }

  function HexValue(c: char): (d: nat)
    requires IsHex(c)
    ensures d < 16
  {
    if IsDigit(c) then DigitValue(c)
    else if c >= 'a' then 10 + (c as int - 'a' as int)
    else 10 + (c as int - 'A' as int)
  }

  /** The four hex digits after "\u". */
  function Hex4(s: string): (r: Option<nat>)
    ensures r.Some? ==> |s| >= 4 && r.value < 0x10000
  {
    if |s| >= 4 && IsHex(s[0]) && IsHex(s[1]) && IsHex(s[2]) && IsHex(s[3])
    then Some(((HexValue(s[0]) * 16 + HexValue(s[1])) * 16 + HexValue(s[2])) * 16 + HexValue(s[3]))
    else None
  }

  /** The character written after a backslash; surrogates must come in pairs. */
  function ParseEscape(s: string): (r: Parsed<char>)
    ensures r.Ok? ==> |r.value.1| < |s|
  {
    if s == "" then Err(Malformed)
    else if s[0] == '"' || s[0] == '\\' || s[0] == '/' then Ok((s[0], s[1..]))
    else if s[0] == 'b' then Ok((8 as char, s[1..]))
    else if s[0] == 'f' then Ok((12 as char, s[1..]))
    else if s[0] == 'n' then Ok(('\n', s[1..]))
    else if s[0] == 'r' then Ok(('\r', s[1..]))
    else if s[0] == 't' then Ok(('\t', s[1..]))
    else if s[0] == 'u' then
      var high := Hex4(s[1..]);
      if high.None? then Err(Malformed)
      else if high.value < 0xD800 || high.value > 0xDFFF then Ok((high.value as char, s[5..]))
      else if high.value < 0xDC00 && "\\u" <= s[5..] && Hex4(s[7..]).Some? then
        var low := Hex4(s[7..]).value;
        if 0xDC00 <= low <= 0xDFFF
        then Ok(((0x10000 + (high.value - 0xD800) * 0x400 + (low - 0xDC00)) as char, s[11..]))
        else Err(Malformed)
      else Err(Malformed)
    else Err(Malformed)
  }

  /** The body of a string literal, from after the opening quote to after the closing one. */
  function ParseString(s: string): (r: Parsed<string>)
    ensures r.Ok? ==> |r.value.1| < |s|
  {
    if s == "" || s[0] < ' ' then Err(Malformed)
    else if s[0] == '"' then Ok(("", s[1..]))
    else if s[0] == '\\' then
      var (c, rest) :- ParseEscape(s[1..]);
      var (tail, after) :- ParseString(rest);
      Ok(([c] + tail, after))
    else
      var (tail, after) :- ParseString(s[1..]);
      Ok(([s[0]] + tail, after))
  }

  // ---- Numbers ----

  /** An optional fraction and exponent: how many characters they take. */
  function FractionAndExponent(s: string): (r: Result<nat, SyntaxError>)
    ensures r.Ok? ==> r.value <= |s|
    ensures s == "" || (s[0] != '.' && s[0] != 'e' && s[0] != 'E') ==> r == Ok(0)
  {
    var fraction := if s != "" && s[0] == '.' then 1 + DigitRun(s[1..]) else 0;
    if fraction == 1 then Err(Malformed)
    else
      var rest := s[fraction..];
      if rest == "" || (rest[0] != 'e' && rest[0] != 'E') then Ok(fraction)
      else
        var sign := if |rest| > 1 && (rest[1] == '+' || rest[1] == '-') then 1 else 0;
        var run := DigitRun(rest[1 + sign..]);
        if run == 0 then Err(Malformed) else Ok(fraction + 1 + sign + run)
  }

  function Signed(negative: bool, n: nat): int {
    if negative then -(n as int) else n as int
  }

  function ParseNumber(s: string): (r: Parsed<Value>)
    ensures r.Ok? ==> |r.value.1| < |s|
  {
    var sign := if s != "" && s[0] == '-' then 1 else 0;
    var run := DigitRun(s[sign..]);
    var digits := s[sign..][..run];
    if run == 0 || (digits[0] == '0' && run > 1) then Err(Malformed)
    else
      var after := s[sign..][run..];
      var more :- FractionAndExponent(after);
      var rest := after[more..];
      if more > 0 then Ok((Float(s[..sign + run + more]), rest))
      else
        var n := Signed(sign == 1, NatOf(digits));
        if (sign == 1 && n == 0) || n < MIN_I64 || n > MAX_U64
        then Ok((Float(s[..sign + run]), rest))
        else Ok((Int(n), rest))
  }

  // ---- Values ----

  function ParseValue(text: string): (r: Parsed<Value>)
    ensures r.Ok? ==> |r.value.1| < |text|
    decreases |text|, 0
  {
    var s := SkipSpace(text);
    if s == "" then Err(Malformed)
    else if s[0] == 'n' then Literal(s, "null", Null)
    else if s[0] == 't' then Literal(s, "true", Bool(true))
    else if s[0] == 'f' then Literal(s, "false", Bool(false))
    else if s[0] == '"' then
      var (str, rest) :- ParseString(s[1..]);
      Ok((Str(str), rest))
    else if s[0] == '[' then
      var rest := SkipSpace(s[1..]);
      if rest != "" && rest[0] == ']' then Ok((Arr([]), rest[1..]))
      else
        var (items, after) :- ParseItems(rest);
        Ok((Arr(items), after))
    else if s[0] == '{' then
      var rest := SkipSpace(s[1..]);
      if rest != "" && rest[0] == '}' then Ok((Obj(map[]), rest[1..]))
      else
        var (members, after) :- ParseMembers(rest, map[]);
        Ok((Obj(members), after))
    else ParseNumber(s)
  }

  /** One or more items, then the closing bracket. */
  function ParseItems(text: string): (r: Parsed<seq<Value>>)
    ensures r.Ok? ==> |r.value.1| < |text|
    decreases |text|, 1
  {
    var (item, rest) :- ParseValue(text);
    var s := SkipSpace(rest);
    if s == "" then Err(Malformed)
    else if s[0] == ']' then Ok(([item], s[1..]))
    else if s[0] == ',' then
      var (items, after) :- ParseItems(s[1..]);
      Ok(([item] + items, after))
    else Err(Malformed)
  }

  function ParseMember(text: string): (r: Parsed<(string, Value)>)
    ensures r.Ok? ==> |r.value.1| < |text|
    decreases |text|, 0
  {
    var s := SkipSpace(text);
    if s == "" || s[0] != '"' then Err(Malformed)
    else
      var (key, rest) :- ParseString(s[1..]);
      var colon := SkipSpace(rest);
      if colon == "" || colon[0] != ':' then Err(Malformed)
      else
        var (value, after) :- ParseValue(colon[1..]);
        Ok(((key, value), after))
  }

  /** One or more members, then the closing brace; a repeated key overwrites. */
  function ParseMembers(text: string, sofar: map<string, Value>): (r: Parsed<map<string, Value>>)
    ensures r.Ok? ==> |r.value.1| < |text|
    decreases |text|, 1
  {
    var (member, rest) :- ParseMember(text);
    var members := sofar[member.0 := member.1];
    var s := SkipSpace(rest);
    if s == "" then Err(Malformed)
    else if s[0] == '}' then Ok((members, s[1..]))
    else if s[0] == ',' then ParseMembers(s[1..], members)
    else Err(Malformed)
  }

  /** A whole document: one value, then nothing but space. */
  function Parse(text: string): Result<Value, SyntaxError> {
    var (v, rest) :- ParseValue(text);
    if SkipSpace(rest) == "" then Ok(v) else Err(Malformed)
  }
}
