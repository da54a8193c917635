/** JavaScript's relational `<` on two strings: lexicographic comparison of
    their UTF-16 code units, a proper prefix ordering before its extensions.
    A character above U+FFFF is two code units (a surrogate pair), so it
    orders by its high surrogate (0xD800-0xDBFF), below U+E000-U+FFFF. */
module LexOrder {

  /** The UTF-16 code units of one character. */
  function Units(c: char): (us: seq<int>)
    ensures 1 <= |us| <= 2
    ensures |us| == 1 <==> c as int < 0x10000
    ensures |us| == 1 ==> us[0] == c as int && !(0xD800 <= us[0] < 0xDC00)
    ensures |us| == 2 ==> 0xD800 <= us[0] < 0xDC00 && 0xDC00 <= us[1] < 0xE000
  {
    if c as int < 0x10000 then [c as int]
    else
      var v := c as int - 0x10000;
      [0xD800 + v / 0x400, 0xDC00 + v % 0x400]
  }

  /** The UTF-16 encoding of a string, the sequence JavaScript compares. */
  function Utf16(s: string): (us: seq<int>)
    ensures |us| >= |s|
    ensures |us| == 0 <==> |s| == 0
  {
    if |s| == 0 then [] else Units(s[0]) + Utf16(s[1..])
  }

  /** Lexicographic order on code-unit sequences. */
  predicate UnitsLess(a: seq<int>, b: seq<int>)
    decreases |a|
  {
    if |a| == 0 then |b| > 0
    else if |b| == 0 then false
    else if a[0] == b[0] then UnitsLess(a[1..], b[1..])
    else a[0] < b[0]
  }

  predicate Less(a: string, b: string) {
    UnitsLess(Utf16(a), Utf16(b))
  }

  /** The units of one character fix the character and what follows. */
  lemma UnitsPrefix(c: char, d: char, xs: seq<int>, ys: seq<int>)
    requires Units(c) + xs == Units(d) + ys
    ensures c == d && xs == ys
  {
    var u := Units(c) + xs;
    assert u[0] == Units(c)[0] && u[0] == Units(d)[0];
    if |Units(c)| == 2 && |Units(d)| == 2 {
      assert u[1] == Units(c)[1] && u[1] == Units(d)[1];
      var v := c as int - 0x10000;
      var w := d as int - 0x10000;
      assert v == 0x400 * (v / 0x400) + v % 0x400;
      assert w == 0x400 * (w / 0x400) + w % 0x400;
      assert c as int == d as int;
    }
    assert |Units(c)| == |Units(d)|;
    assert xs == u[|Units(c)|..] == ys;
  }

  /** Distinct strings have distinct encodings. */
  lemma {:induction false} Utf16Injective(a: string, b: string)
    requires Utf16(a) == Utf16(b)
    ensures a == b
    decreases |a|
  {
    if |a| > 0 {
      UnitsPrefix(a[0], b[0], Utf16(a[1..]), Utf16(b[1..]));
      Utf16Injective(a[1..], b[1..]);
      assert a == [a[0]] + a[1..] && b == [b[0]] + b[1..];
    }
  }

  lemma {:induction false} UnitsLessIrreflexive(a: seq<int>)
    ensures !UnitsLess(a, a)
    decreases |a|
  {
    if |a| > 0 { UnitsLessIrreflexive(a[1..]); }
  }

  lemma {:induction false} UnitsLessTransitive(a: seq<int>, b: seq<int>, c: seq<int>)
    requires UnitsLess(a, b) && UnitsLess(b, c)
    ensures UnitsLess(a, c)
    decreases |a|
  {
    if |a| > 0 && a[0] == b[0] && b[0] == c[0] {
      UnitsLessTransitive(a[1..], b[1..], c[1..]);
    }
  }

  lemma {:induction false} UnitsLessTotal(a: seq<int>, b: seq<int>)
    requires a != b
    ensures UnitsLess(a, b) || UnitsLess(b, a)
    decreases |a|
  {
    if |a| > 0 && |b| > 0 && a[0] == b[0] {
      assert a == [a[0]] + a[1..] && b == [b[0]] + b[1..];
      UnitsLessTotal(a[1..], b[1..]);
    }
  }

  lemma {:induction false} UnitsLessAsymmetric(a: seq<int>, b: seq<int>)
    requires UnitsLess(a, b)
    ensures !UnitsLess(b, a)
    decreases |a|
  {
    if |a| > 0 && a[0] == b[0] { UnitsLessAsymmetric(a[1..], b[1..]); }
  }

  lemma LessIrreflexive(a: string)
    ensures !Less(a, a)
  {
    UnitsLessIrreflexive(Utf16(a));
  }

  lemma LessTransitive(a: string, b: string, c: string)
    requires Less(a, b) && Less(b, c)
    ensures Less(a, c)
  {
    UnitsLessTransitive(Utf16(a), Utf16(b), Utf16(c));
  }

  /** Distinct strings are ordered one way or the other. */
  lemma LessTotal(a: string, b: string)
    requires a != b
    ensures Less(a, b) || Less(b, a)
  {
    if Utf16(a) == Utf16(b) { Utf16Injective(a, b); }
    UnitsLessTotal(Utf16(a), Utf16(b));
  }

  lemma LessAsymmetric(a: string, b: string)
    requires Less(a, b)
    ensures !Less(b, a)
  {
    UnitsLessAsymmetric(Utf16(a), Utf16(b));
  }

  /** The empty string is below every other string. */
  lemma EmptyIsLeast(b: string)
    ensures Less("", b) <==> b != ""
  {
  }

  /** Within the Basic Multilingual Plane the order is that of the
      characters, and a character above U+FFFF sorts below U+E000-U+FFFF:
      "📌a" comes before "（急）" although U+1F4CC is above U+FF08. */
  lemma CodeUnitOrder(c: char, d: char, xs: string, ys: string)
    ensures c as int < 0x10000 && d as int < 0x10000 && c < d ==> Less([c] + xs, [d] + ys)
    ensures c as int >= 0x10000 && 0xE000 <= d as int < 0x10000 ==> Less([c] + xs, [d] + ys)
  {
    assert ([c] + xs)[0] == c && ([c] + xs)[1..] == xs;
    assert ([d] + ys)[0] == d && ([d] + ys)[1..] == ys;
  }

  /** The two titles above, ordered as JavaScript orders them. */
  lemma PinBeforeFullWidth()
    ensures Less("\U{1F4CC}a", "\U{FF08}急\U{FF09}")
    ensures !Less("\U{FF08}急\U{FF09}", "\U{1F4CC}a")
  {
    CodeUnitOrder('\U{1F4CC}', '\U{FF08}', "a", "急\U{FF09}");
    assert "\U{1F4CC}a" == ['\U{1F4CC}'] + "a";
    assert "\U{FF08}急\U{FF09}" == ['\U{FF08}'] + "急\U{FF09}";
    LessAsymmetric("\U{1F4CC}a", "\U{FF08}急\U{FF09}");
  }
}
