/** Canonical JSON (canon_json.rs) and the reader it must round-trip through (sections 2-7 of RFC 8259, as serde_json reads it). */
module CanonJson {
  import opened Outcomes
  import opened Text

  const MIN_I64: int := -0x8000_0000_0000_0000
  const MAX_U64: int := 0xFFFF_FFFF_FFFF_FFFF

  /** The integers serde_json keeps as integers; everything else numeric is a float. */
  type JsonInt = n: int | MIN_I64 <= n <= MAX_U64

  type I64 = n: int | MIN_I64 <= n < 0x8000_0000_0000_0000

  datatype Value =
    | Null
    | Bool(b: bool)
    | Int(n: JsonInt)
    | Float(lexeme: string)
    | Str(s: string)
    | Arr(items: seq<Value>)
    | Obj(members: map<string, Value>)

  datatype PrintError = FloatForbidden

  predicate FloatFree(v: Value) {
    match v
    case Float(_) => false
    case Arr(items) => forall i :: 0 <= i < |items| ==> FloatFree(items[i])
    case Obj(members) => forall k :: k in members ==> FloatFree(members[k])
    case _ => true
  }

  // ---- Printing ----

  function HexDigit(d: nat): char
    requires d < 16
  {
    if d < 10 then '0' + d as char else 'a' + (d - 10) as char
  }

  /** One character inside a JSON string literal, as serde_json escapes it. */
  function EscapeChar(c: char): string {
    if c == '"' then "\\\""
    else if c == '\\' then "\\\\"
    else if c == 8 as char then "\\b"
    else if c == '\t' then "\\t"
    else if c == '\n' then "\\n"
    else if c == 12 as char then "\\f"
    else if c == '\r' then "\\r"
    else if c < ' ' then "\\u00" + [HexDigit(c as int / 16), HexDigit(c as int % 16)]
    else [c]
  }

  function Escape(s: string): string {
    if s == "" then "" else EscapeChar(s[0]) + Escape(s[1..])
  }

  function Quote(s: string): string {
    "\"" + Escape(s) + "\""
  }

  /**
   * The canonical text of a value: no whitespace, object keys in byte order. Only float-free values
   * are ever printed; a float stands for its own lexeme so that the function is total.
   */
  ghost function Canonical(v: Value): string
    decreases v, 2
  {
    match v
    case Null => "null"
    case Bool(b) => if b then "true" else "false"
    case Int(n) => Decimal(n)
    case Float(lexeme) => lexeme
    case Str(s) => Quote(s)
    case Arr(items) => "[" + CanonicalItems(items) + "]"
    case Obj(members) => "{" + CanonicalMembers(v, SortedKeys(members.Keys)) + "}"
  }

  ghost function CanonicalItems(items: seq<Value>): string
    decreases items, 1
  {
    if items == [] then ""
    else if |items| == 1 then Canonical(items[0])
    else Canonical(items[0]) + "," + CanonicalItems(items[1..])
  }

  ghost function CanonicalMember(v: Value, key: string): string
    requires v.Obj? && key in v.members
    decreases v, 0
  {
    Quote(key) + ":" + Canonical(v.members[key])
  }

  ghost function CanonicalMembers(v: Value, keys: seq<string>): string
    requires v.Obj? && forall k :: k in keys ==> k in v.members
    decreases v, 1, |keys|
  {
    if keys == [] then ""
    else if |keys| == 1 then CanonicalMember(v, keys[0])
    else CanonicalMember(v, keys[0]) + "," + CanonicalMembers(v, keys[1..])
  }

  /** The string that write_canonical appends to. */
  class TextBuffer {
    var text: string

    constructor ()
      ensures text == ""
    {
      text := "";
    }

    method Push(s: string)
      modifies this
      ensures text == old(text) + s
    {
      text := text + s;
    }
  }

  lemma {:induction false} ItemsAppend(items: seq<Value>, last: Value)
    ensures CanonicalItems(items + [last])
         == CanonicalItems(items) + (if items == [] then "" else ",") + Canonical(last)
  {
    hide Canonical;
    var all := items + [last];
    if items == [] {
      assert all == [last];
    } else {
      var head, rest := Canonical(items[0]), items[1..];
      assert all[0] == items[0] && all[1..] == rest + [last];
      assert CanonicalItems(all) == head + "," + CanonicalItems(rest + [last]);
      ItemsAppend(rest, last);
      if rest == [] {
        assert items == [items[0]];
        assert CanonicalItems(rest) + "" + Canonical(last) == Canonical(last);
      } else {
        assert head + "," + (CanonicalItems(rest) + "," + Canonical(last))
            == (head + "," + CanonicalItems(rest)) + "," + Canonical(last);
      }
    }
  }

  lemma {:induction false} MembersAppend(v: Value, keys: seq<string>, last: string)
    requires v.Obj? && last in v.members && forall k :: k in keys ==> k in v.members
    ensures CanonicalMembers(v, keys + [last])
         == CanonicalMembers(v, keys) + (if keys == [] then "" else ",") + CanonicalMember(v, last)
  {
    hide CanonicalMember;
    var all := keys + [last];
    if keys == [] {
      assert all == [last];
    } else {
      var head, rest := CanonicalMember(v, keys[0]), keys[1..];
      assert all[0] == keys[0] && all[1..] == rest + [last];
      assert CanonicalMembers(v, all) == head + "," + CanonicalMembers(v, rest + [last]);
      MembersAppend(v, rest, last);
      if rest == [] {
        assert keys == [keys[0]];
        assert CanonicalMembers(v, rest) + "" + CanonicalMember(v, last) == CanonicalMember(v, last);
      } else {
        assert head + "," + (CanonicalMembers(v, rest) + "," + CanonicalMember(v, last))
            == (head + "," + CanonicalMembers(v, rest)) + "," + CanonicalMember(v, last);
      }
    }
  }

  lemma Regroup(a: string, b: string, c: string, d: string)
    ensures a + b + c == a + (b + c)
    ensures a + b + c + d == a + (b + c + d)
  {
  }

  method WriteItems(items: seq<Value>, out: TextBuffer) returns (r: Result<(), PrintError>)
    modifies out
    ensures r.Ok? <==> forall i :: 0 <= i < |items| ==> FloatFree(items[i])
    ensures r.Ok? ==> out.text == old(out.text) + CanonicalItems(items)
    decreases items, 1
  {
    hide Canonical;
    for idx := 0 to |items|
      invariant forall i :: 0 <= i < idx ==> FloatFree(items[i])
      invariant out.text == old(out.text) + CanonicalItems(items[..idx])
    {
      if idx > 0 {
        out.Push(",");
      }
      var written := WriteCanonical(items[idx], out);
      if written.Err? {
        return written;
      }
      Regroup(old(out.text), CanonicalItems(items[..idx]), ",", Canonical(items[idx]));
      ItemsAppend(items[..idx], items[idx]);
      assert items[..idx + 1] == items[..idx] + [items[idx]];
    }
    assert items[..|items|] == items;
    return Ok(());
  }

  method WriteMember(value: Value, key: string, out: TextBuffer) returns (r: Result<(), PrintError>)
    requires value.Obj? && key in value.members
    modifies out
    ensures r.Ok? <==> FloatFree(value.members[key])
    ensures r.Ok? ==> out.text == old(out.text) + CanonicalMember(value, key)
    decreases value, 0, 0
  {
    out.Push(Quote(key));
    out.Push(":");
    r := WriteCanonical(value.members[key], out);
    Regroup(old(out.text), Quote(key), ":", Canonical(value.members[key]));
  }

  method WriteMembers(value: Value, keys: seq<string>, out: TextBuffer) returns (r: Result<(), PrintError>)
    requires value.Obj? && forall k :: k in keys ==> k in value.members
    modifies out
    ensures r.Ok? <==> forall i :: 0 <= i < |keys| ==> FloatFree(value.members[keys[i]])
    ensures r.Ok? ==> out.text == old(out.text) + CanonicalMembers(value, keys)
    decreases value, 0, 1
  {
    hide CanonicalMembers, CanonicalMember, Canonical;
    ghost var start := out.text;
    NoMembersYet(value, start);
    assert keys[..0] == [];
    for idx := 0 to |keys|
      invariant forall i :: 0 <= i < idx ==> FloatFree(value.members[keys[i]])
      invariant out.text == start + CanonicalMembers(value, keys[..idx])
    {
      if idx > 0 {
        out.Push(",");
      }
      var written := WriteMember(value, keys[idx], out);
      if written.Err? {
        return written;
      }
      MembersStep(value, keys, idx, start);
    }
    assert keys[..|keys|] == keys;
    return Ok(());
  }

  lemma NoMembersYet(v: Value, start: string)
    requires v.Obj?
    ensures start == start + CanonicalMembers(v, [])
  {
  }

  lemma MembersStep(v: Value, keys: seq<string>, idx: nat, start: string)
    requires v.Obj? && idx < |keys| && forall k :: k in keys ==> k in v.members
    ensures start + CanonicalMembers(v, keys[..idx + 1])
         == start + CanonicalMembers(v, keys[..idx]) + (if idx == 0 then "" else ",") + CanonicalMember(v, keys[idx])
  {
    hide CanonicalMembers, CanonicalMember, Canonical;
    var sofar, sep, member := CanonicalMembers(v, keys[..idx]), if idx == 0 then "" else ",", CanonicalMember(v, keys[idx]);
    MembersAppend(v, keys[..idx], keys[idx]);
    assert keys[..idx + 1] == keys[..idx] + [keys[idx]];
    Regroup(start, sofar, sep, member);
  }

  method WriteObject(value: Value, out: TextBuffer) returns (r: Result<(), PrintError>)
    requires value.Obj?
    modifies out
    ensures r.Ok? <==> FloatFree(value)
    ensures r.Ok? ==> out.text == old(out.text) + Canonical(value)
    decreases value, 1
  {
    hide CanonicalMembers, CanonicalMember, SortedKeys;
    var keys := SortKeys(value.members.Keys);
    assert forall k :: k in keys <==> k in Elements(keys);
    out.Push("{");
    var written := WriteMembers(value, keys, out);
    assert forall k :: k in value.members ==> exists i :: 0 <= i < |keys| && keys[i] == k;
    if written.Err? {
      return written;
    }
    out.Push("}");
    Regroup(old(out.text), "{", CanonicalMembers(value, keys), "}");
    return Ok(());
  }

  /** Appends the canonical text, or stops at the first float. */
  method WriteCanonical(value: Value, out: TextBuffer) returns (r: Result<(), PrintError>)
    modifies out
    ensures r.Ok? <==> FloatFree(value)
    ensures r.Ok? ==> out.text == old(out.text) + Canonical(value)
    decreases value, 2
  {
    hide CanonicalMembers, CanonicalMember, SortedKeys;
    match value {
      case Null => out.Push("null");
      case Bool(b) => out.Push(if b then "true" else "false");
      case Int(n) => out.Push(Decimal(n));
      case Float(_) => return Err(FloatForbidden);
      case Str(s) => out.Push(Quote(s));
      case Arr(items) =>
        out.Push("[");
        var written := WriteItems(items, out);
        if written.Err? {
          return written;
        }
        out.Push("]");
        Regroup(old(out.text), "[", CanonicalItems(items), "]");
      case Obj(_) =>
        r := WriteObject(value, out);
        return r;
    }
    return Ok(());
  }

  method ToCanonicalBytes(value: Value) returns (r: Result<string, PrintError>)
    ensures r == if FloatFree(value) then Ok(Canonical(value)) else Err(FloatForbidden)
  {
    var out := new TextBuffer();
    var written := WriteCanonical(value, out);
    if written.Err? {
      return Err(FloatForbidden);
    }
    assert "" + Canonical(value) == Canonical(value);
    return Ok(out.text);
  }
}
