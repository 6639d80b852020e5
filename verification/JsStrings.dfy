/**
  JavaScript strings: sequences of UTF-16 code units, surrogates on their own included.
 */
module JsStrings {
  type CodeUnit = n: int | 0 <= n < 0x1_0000

  type JsString = seq<CodeUnit>

  predicate IsHighSurrogate(u: CodeUnit) {
    0xD800 <= u < 0xDC00
  }

  predicate IsLowSurrogate(u: CodeUnit) {
    0xDC00 <= u < 0xE000
  }

  function Units(c: char): JsString {
    var n := c as int;
    if n < 0x1_0000 then [n] else [0xD800 + (n - 0x1_0000) / 0x400, 0xDC00 + (n - 0x1_0000) % 0x400]
  }

  /** Text without surrogates on their own, as JavaScript holds it. */
  function Utf16(s: string): JsString {
    if s == "" then [] else Units(s[0]) + Utf16(s[1..])
  }

  lemma FirstCharacter(a: char, restA: JsString, b: char, restB: JsString)
    requires Units(a) + restA == Units(b) + restB
    ensures a == b && restA == restB
  {
    var whole := Units(a) + restA;
    assert whole[0] == Units(a)[0] == Units(b)[0];
    assert (Units(b) + restB)[0] == Units(b)[0];
    if a as int >= 0x1_0000 || b as int >= 0x1_0000 {
      assert IsHighSurrogate(whole[0]);
      assert whole[1] == Units(a)[1] == (Units(b) + restB)[1] == Units(b)[1];
    }
    assert restA == whole[|Units(a)|..] && restB == (Units(b) + restB)[|Units(b)|..];
  }

  lemma {:induction false} Utf16IsInjective(a: string, b: string)
    requires Utf16(a) == Utf16(b)
    ensures a == b
  {
    if a != "" && b != "" {
      FirstCharacter(a[0], Utf16(a[1..]), b[0], Utf16(b[1..]));
      Utf16IsInjective(a[1..], b[1..]);
      assert a == [a[0]] + a[1..] && b == [b[0]] + b[1..];
    }
  }

  // ---------------------------------------------------------------------------------------------
  // Encoding as UTF-8
  // ---------------------------------------------------------------------------------------------

  const REPLACEMENT: CodeUnit := 0xFFFD

  predicate IsSurrogate(u: CodeUnit) {
    IsHighSurrogate(u) || IsLowSurrogate(u)
  }

  predicate StartsWithPair(s: JsString) {
    |s| > 1 && IsHighSurrogate(s[0]) && IsLowSurrogate(s[1])
  }

  /** What is left of a string after UTF-8, which writes every surrogate on its own as U+FFFD. */
  function WellFormed(s: JsString): JsString {
    if s == [] then []
    else if StartsWithPair(s) then [s[0], s[1]] + WellFormed(s[2..])
    else [if IsSurrogate(s[0]) then REPLACEMENT else s[0]] + WellFormed(s[1..])
  }

  /** A part without surrogates is kept, and hides nothing of what follows it. */
  lemma {:induction false} WellFormedAfter(plain: JsString, s: JsString)
    requires forall i | 0 <= i < |plain| :: !IsSurrogate(plain[i])
    ensures WellFormed(plain + s) == plain + WellFormed(s)
  {
    if plain == [] {
      assert plain + s == s && plain + WellFormed(s) == WellFormed(s);
    } else {
      assert (plain + s)[0] == plain[0] && (plain + s)[1..] == plain[1..] + s;
      WellFormedAfter(plain[1..], s);
      assert plain == [plain[0]] + plain[1..];
    }
  }

  lemma WellFormedPair(a: CodeUnit, b: CodeUnit, s: JsString)
    requires IsHighSurrogate(a) && IsLowSurrogate(b)
    ensures WellFormed([a] + ([b] + s)) == [a] + ([b] + WellFormed(s))
  {
    var whole := [a] + ([b] + s);
    assert whole[0] == a && whole[1] == b && whole[2..] == s;
  }

  /** Up to a unit that is no surrogate, encoding does not look past it. */
  lemma {:induction false} WellFormedAround(s: JsString, u: CodeUnit, t: JsString)
    requires !IsSurrogate(u)
    ensures WellFormed(s + [u] + t) == WellFormed(s) + [u] + WellFormed(t)
    decreases |s|
  {
    if s == [] {
      assert s + [u] + t == [u] + t;
      WellFormedAfter([u], t);
    } else {
      var whole := s + [u] + t;
      var taken := if StartsWithPair(s) then 2 else 1;
      assert StartsWithPair(whole) <==> StartsWithPair(s);
      assert whole[..taken] == s[..taken] && whole[taken..] == s[taken..] + [u] + t;
      WellFormedAround(s[taken..], u, t);
    }
  }

  lemma {:induction false} WellFormedTwice(s: JsString)
    ensures WellFormed(WellFormed(s)) == WellFormed(s)
    decreases |s|
  {
    if StartsWithPair(s) {
      WellFormedTwice(s[2..]);
      assert [s[0], s[1]] + WellFormed(s[2..]) == [s[0]] + ([s[1]] + WellFormed(s[2..]));
      WellFormedPair(s[0], s[1], WellFormed(s[2..]));
    } else if s != [] {
      WellFormedTwice(s[1..]);
      WellFormedAfter([if IsSurrogate(s[0]) then REPLACEMENT else s[0]], WellFormed(s[1..]));
    }
  }

  /** Another string with the same encoding: the string's own encoding, or it with a surrogate for a U+FFFD. */
  function Lookalike(s: JsString): JsString {
    if WellFormed(s) != s then WellFormed(s) else WithSurrogate(s)
  }

  function WithSurrogate(s: JsString): JsString {
    if s == [] then []
    else if s[0] == REPLACEMENT then [0xD800] + s[1..]
    else if StartsWithPair(s) then [s[0], s[1]] + WithSurrogate(s[2..])
    else [s[0]] + WithSurrogate(s[1..])
  }

  /** Nothing but itself encodes as the string does. */
  predicate Distinctive(s: JsString) {
    WellFormed(s) == s && REPLACEMENT !in s
  }

  lemma {:induction false} OnlyItselfEncodesAs(s: JsString, t: JsString)
    requires Distinctive(s) && WellFormed(t) == s
    ensures t == s
    decreases |t|
  {
    if StartsWithPair(t) {
      OnlyItselfEncodesAs(s[2..], t[2..]);
    } else if t != [] {
      OnlyItselfEncodesAs(s[1..], t[1..]);
    }
  }

  /** A well-formed string starts with a pair, or with a unit that is no surrogate; and so on from there. */
  lemma WellFormedTail(s: JsString)
    requires WellFormed(s) == s && s != []
    ensures StartsWithPair(s) ==> WellFormed(s[2..]) == s[2..]
    ensures !StartsWithPair(s) ==> !IsSurrogate(s[0]) && WellFormed(s[1..]) == s[1..]
  {
    if StartsWithPair(s) {
      assert WellFormed(s)[2..] == WellFormed(s[2..]);
    } else {
      assert WellFormed(s)[1..] == WellFormed(s[1..]) && WellFormed(s)[0] == s[0];
    }
  }

  lemma SurrogateInFront(rest: JsString)
    requires WellFormed(rest) == rest
    ensures WellFormed([0xD800] + rest) == [REPLACEMENT] + rest
  {
    var s: JsString := [0xD800] + rest;
    assert s[1..] == rest;
    if rest != [] {
      WellFormedTail(rest);
      assert s[1] == rest[0];
    }
  }

  lemma {:induction false} SurrogateEncodesAs(s: JsString)
    requires WellFormed(s) == s && REPLACEMENT in s
    ensures WellFormed(WithSurrogate(s)) == s && WithSurrogate(s) != s
    decreases |s|
  {
    WellFormedTail(s);
    if s[0] == REPLACEMENT {
      SurrogateInFront(s[1..]);
      assert WithSurrogate(s)[0] != s[0];
      assert [REPLACEMENT] + s[1..] == s;
    } else if StartsWithPair(s) {
      SurrogateEncodesAs(s[2..]);
      BehindAPair(s, WithSurrogate(s[2..]));
    } else {
      SurrogateEncodesAs(s[1..]);
      BehindAUnit(s, WithSurrogate(s[1..]));
    }
  }

  lemma BehindAPair(s: JsString, other: JsString)
    requires StartsWithPair(s) && WellFormed(other) == s[2..] && other != s[2..]
    ensures WellFormed([s[0], s[1]] + other) == s && [s[0], s[1]] + other != s
  {
    assert [s[0], s[1]] + other == [s[0]] + ([s[1]] + other);
    WellFormedPair(s[0], s[1], other);
    assert [s[0]] + ([s[1]] + s[2..]) == s;
    assert ([s[0], s[1]] + other)[2..] == other;
  }

  lemma BehindAUnit(s: JsString, other: JsString)
    requires s != [] && !IsSurrogate(s[0]) && WellFormed(other) == s[1..] && other != s[1..]
    ensures WellFormed([s[0]] + other) == s && [s[0]] + other != s
  {
    WellFormedAfter([s[0]], other);
    assert [s[0]] + s[1..] == s;
    assert ([s[0]] + other)[1..] == other;
  }

  /** Every other string has a lookalike. */
  lemma LookalikeEncodesAs(s: JsString)
    requires !Distinctive(s)
    ensures Lookalike(s) != s && WellFormed(Lookalike(s)) == WellFormed(s)
  {
    if WellFormed(s) != s {
      WellFormedTwice(s);
    } else {
      SurrogateEncodesAs(s);
    }
  }
}
