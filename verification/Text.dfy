/** Option and result values, byte order on strings, and decimal numerals: what every component shares. */
module Outcomes {

  datatype Option<+T> = None | Some(value: T)

  datatype Result<+T, +E> = Ok(value: T) | Err(error: E)
  {
    predicate IsFailure() {
      Err?
    }

    function PropagateFailure<U>(): Result<U, E>
      requires Err?
    {
      Err(error)
    }

    function Extract(): T
      requires Ok?
    {
      value
    }
  }

  /** The digest function, seen from outside: text in, prefixed digest out. */
  type Hasher = string -> string
}

module Text {

  /** The order of Rust strings: UTF-8 bytes, which for scalar values is code point order. */
  predicate Less(a: string, b: string) {
    if b == "" then false
    else if a == "" then true
    else a[0] < b[0] || (a[0] == b[0] && Less(a[1..], b[1..]))
  }

  predicate LessEq(a: string, b: string) {
    a == b || Less(a, b)
  }

  lemma LessTransitive(a: string, b: string, c: string)
    requires Less(a, b) && Less(b, c)
    ensures Less(a, c)
  {
    if a != "" && a[0] == b[0] == c[0] {
      LessTransitive(a[1..], b[1..], c[1..]);
    }
  }

  lemma LessIrreflexive(a: string)
    ensures !Less(a, a)
  {
  }

  /** The first character in which two texts differ decides, and a text comes before what continues it. */
  lemma {:induction false} FirstDifferenceIsTheOrder(front: string, x: char, y: char, a: string, b: string)
    requires x < y
    ensures Less(front + ([x] + a), front + ([y] + b)) && Less(front, front + ([x] + a))
  {
    if front != "" {
      FirstDifferenceIsTheOrder(front[1..], x, y, a, b);
      assert (front + ([x] + a))[1..] == front[1..] + ([x] + a);
      assert (front + ([y] + b))[1..] == front[1..] + ([y] + b);
    } else {
      assert front + ([x] + a) == [x] + a && front + ([y] + b) == [y] + b;
    }
  }

  lemma LessTotal(a: string, b: string)
    ensures a == b || Less(a, b) || Less(b, a)
  {
    if a != "" && b != "" && a[0] == b[0] {
      LessTotal(a[1..], b[1..]);
      assert a == [a[0]] + a[1..] && b == [b[0]] + b[1..];
    }
  }

  /** A strictly increasing list: sorted and free of duplicates. */
  ghost predicate Increasing(s: seq<string>) {
    forall i, j :: 0 <= i < j < |s| ==> Less(s[i], s[j])
  }

  ghost function Elements<T>(s: seq<T>): set<T> {
    set x | x in s
  }

  lemma LessEqTransitive(a: string, b: string, c: string)
    requires LessEq(a, b) && LessEq(b, c)
    ensures LessEq(a, c)
  {
    if a != b && b != c {
      LessTransitive(a, b, c);
    }
  }

  lemma {:induction false} LeastExists(keys: set<string>)
    requires keys != {}
    ensures exists m :: m in keys && forall k :: k in keys ==> LessEq(m, k)
  {
    hide Less;
    var x :| x in keys;
    var rest := keys - {x};
    if rest == {} {
      assert keys == {x};
      assert forall k :: k in keys ==> LessEq(x, k);
    } else {
      LeastExists(rest);
      var m :| m in rest && forall k :: k in rest ==> LessEq(m, k);
      LessTotal(x, m);
      var least := if Less(x, m) then x else m;
      forall k | k in keys
        ensures LessEq(least, k)
      {
        if k in rest {
          LessEqTransitive(least, m, k);
        }
      }
      assert least in keys;
    }
  }

  ghost function Least(keys: set<string>): (m: string)
    requires keys != {}
    ensures m in keys && forall k :: k in keys ==> LessEq(m, k)
  {
    LeastExists(keys);
    var m :| m in keys && forall k :: k in keys ==> LessEq(m, k);
    m
  }

  /** The elements of a set in increasing order: what a BTreeSet iterates and what a sort leaves. */
  ghost function SortedKeys(keys: set<string>): (s: seq<string>)
    ensures Increasing(s) && Elements(s) == keys && |s| == |keys|
  {
    if keys == {} then []
    else
      var m := Least(keys);
      var s := SortedKeys(keys - {m});
      PrependLeast(m, s, keys);
      [m] + s
  }

  lemma PrependLeast(m: string, s: seq<string>, keys: set<string>)
    requires m in keys && (forall k :: k in keys ==> LessEq(m, k))
    requires Increasing(s) && Elements(s) == keys - {m}
    ensures Increasing([m] + s) && Elements([m] + s) == keys
  {
    var t := [m] + s;
    forall i, j | 0 <= i < j < |t|
      ensures Less(t[i], t[j])
    {
      assert t[j] == s[j - 1] && t[j] in Elements(s);
      if i > 0 {
        assert t[i] == s[i - 1];
      }
    }
    assert forall x :: x in t <==> x == m || x in Elements(s);
  }

  /** Two increasing lists with the same elements are the same list. */
  lemma {:induction false} IncreasingUnique(a: seq<string>, b: seq<string>)
    requires Increasing(a) && Increasing(b) && Elements(a) == Elements(b)
    ensures a == b
  {
    assert b != [] ==> b[0] in Elements(b);
    if a != [] {
      assert a[0] in Elements(a) && Elements(a) == Elements(b);
      assert b != [];
      assert b[0] in Elements(b);
      var i :| 0 <= i < |b| && b[i] == a[0];
      var j :| 0 <= j < |a| && a[j] == b[0];
      if i > 0 && j > 0 {
        LessTransitive(a[0], a[j], a[0]);
        LessIrreflexive(a[0]);
      }
      assert a[0] == b[0];
      forall x
        ensures x in Elements(a[1..]) <==> x in Elements(b[1..])
      {
        LessIrreflexive(a[0]);
        assert x in a[1..] <==> x in Elements(a) && x != a[0];
        assert x in b[1..] <==> x in Elements(b) && x != b[0];
      }
      IncreasingUnique(a[1..], b[1..]);
      assert a == [a[0]] + a[1..] && b == [b[0]] + b[1..];
    }
  }

  function InsertKey(s: seq<string>, x: string): (t: seq<string>)
    requires Increasing(s) && x !in s
    ensures Increasing(t) && Elements(t) == Elements(s) + {x}
  {
    if s == [] || Less(x, s[0]) then
      PrependSmaller(x, s);
      [x] + s
    else
      LessTotal(x, s[0]);
      var t := InsertKey(s[1..], x);
      assert forall k :: k in t <==> k in Elements(t);
      PrependSmaller(s[0], t);
      [s[0]] + t
  }

  lemma PrependSmaller(x: string, s: seq<string>)
    requires Increasing(s)
    requires s == [] || Less(x, s[0]) || (forall k :: k in s ==> Less(x, k))
    ensures Increasing([x] + s) && Elements([x] + s) == {x} + Elements(s)
  {
    var t := [x] + s;
    forall i, j | 0 <= i < j < |t|
      ensures Less(t[i], t[j])
    {
      if i == 0 && j > 1 && Less(x, s[0]) {
        LessTransitive(x, s[0], s[j - 1]);
      }
      assert t[j] == s[j - 1];
      if i > 0 {
        assert t[i] == s[i - 1];
      }
    }
    assert forall k :: k in t <==> k == x || k in s;
  }

  /** Collects a set of keys and sorts them. */
  method SortKeys(keys: set<string>) returns (s: seq<string>)
    ensures s == SortedKeys(keys)
  {
    s := [];
    var rest := keys;
    while rest != {}
      invariant rest <= keys && Increasing(s) && Elements(s) == keys - rest
      decreases rest
    {
      var k :| k in rest;
      assert k !in Elements(s);
      s := InsertKey(s, k);
      rest := rest - {k};
    }
    IncreasingUnique(s, SortedKeys(keys));
  }

  /** Unicode White_Space, the characters that trim removes. */
  predicate IsWhitespace(c: char) {
    var n := c as int;
    9 <= n <= 13 || n == 0x20 || n == 0x85 || n == 0xA0 || n == 0x1680 || 0x2000 <= n <= 0x200A
    || n == 0x2028 || n == 0x2029 || n == 0x202F || n == 0x205F || n == 0x3000
  }

  predicate Blank(s: string) {
    forall i :: 0 <= i < |s| ==> IsWhitespace(s[i])
  }

  predicate IsDigit(c: char) {
    '0' <= c <= '9'
  }

  function DigitChar(d: nat): (c: char)
    requires d < 10
    ensures IsDigit(c) && c == "0123456789"[d]
  {
    '0' + d as char
  }

  function DigitValue(c: char): nat
    requires IsDigit(c)
  {
    (c as int) - ('0' as int)
  }

  predicate AllDigits(s: string) {
    forall i :: 0 <= i < |s| ==> IsDigit(s[i])
  }

  function Digits(n: nat): string {
    if n < 10 then [DigitChar(n)] else Digits(n / 10) + [DigitChar(n % 10)]
  }

  function NatOf(s: string): nat
    requires AllDigits(s)
  {
    if s == "" then 0 else NatOf(s[..|s| - 1]) * 10 + DigitValue(s[|s| - 1])
  }

  function Decimal(n: int): string {
    if n < 0 then "-" + Digits(-n) else Digits(n)
  }

  /** A numeral is digits only, has no leading zero, and reads back as its number. */
  lemma {:induction false} DigitsReadBack(n: nat)
    ensures AllDigits(Digits(n)) && |Digits(n)| > 0
    ensures NatOf(Digits(n)) == n
    ensures Digits(n)[0] == '0' <==> n == 0
    ensures n == 0 ==> Digits(n) == "0"
  {
    if n >= 10 {
      DigitsReadBack(n / 10);
      var d := Digits(n);
      assert d[..|d| - 1] == Digits(n / 10);
      assert d[0] == Digits(n / 10)[0];
    }
  }

  lemma DecimalInjective(a: int, b: int)
    requires Decimal(a) == Decimal(b)
    ensures a == b
  {
    DigitsReadBack(if a < 0 then -a else a);
    DigitsReadBack(if b < 0 then -b else b);
    assert IsDigit(Decimal(a)[0]) <==> a >= 0;
    assert IsDigit(Decimal(b)[0]) <==> b >= 0;
    if a < 0 {
      assert Decimal(a)[1..] == Digits(-a) && Decimal(b)[1..] == Digits(-b);
    }
  }

  /** How many digits a text starts with. */
  function DigitRun(s: string): (n: nat)
    ensures n <= |s| && AllDigits(s[..n]) && (n < |s| ==> !IsDigit(s[n]))
  {
    if s == "" || !IsDigit(s[0]) then 0
    else
      var n := 1 + DigitRun(s[1..]);
      assert forall i :: 0 < i < n ==> s[..n][i] == s[1..][..n - 1][i - 1];
      n
  }

  lemma DigitRunStops(d: string, rest: string)
    requires AllDigits(d) && (rest == "" || !IsDigit(rest[0]))
    ensures DigitRun(d + rest) == |d| && (d + rest)[..|d|] == d && (d + rest)[|d|..] == rest
  {
    var s := d + rest;
    var n := DigitRun(s);
    assert forall i :: 0 <= i < |d| ==> s[i] == d[i];
    assert |d| < |s| ==> s[|d|] == rest[0];
    assert forall i :: 0 <= i < n ==> s[i] == s[..n][i];
  }
}
