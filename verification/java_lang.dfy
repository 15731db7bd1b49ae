/** The pieces of the Java platform the connector's logic relies on, written out: 32-bit
    `int` arithmetic, `Integer.parseInt`, `String.valueOf`, `String.trim().isEmpty()`,
    `String.replace`, `String.split` with limits 0 and 2, and ASCII case folding. */
module JavaLang {
  import opened Wrappers

  // ---------------------------------------------------------------- 32-bit integers

  const INT_MIN: int := -0x8000_0000
  const INT_MAX: int := 0x7fff_ffff
  const TWO_32: int := 0x1_0000_0000

  predicate IsInt32(x: int) { INT_MIN <= x <= INT_MAX }

  /** A Java `int`. */
  type Int32 = x: int | -0x8000_0000 <= x <= 0x7fff_ffff

  /** The Java `int` whose two's complement bits are the low 32 bits of `x`: what `x + 1`
      on an `int`, and `Long.intValue()`, produce. */
  function Wrap32(x: int): (r: int)
    ensures IsInt32(r)
    ensures (r - x) % TWO_32 == 0
  {
    (x - INT_MIN) % TWO_32 + INT_MIN
  }

  lemma Wrap32Identity(x: int)
    requires IsInt32(x)
    ensures Wrap32(x) == x
  {
    assert 0 <= x - INT_MIN < TWO_32;
  }

  /** `Integer.MAX_VALUE + 1` is `Integer.MIN_VALUE`, and `Integer.MIN_VALUE - 1` is
      `Integer.MAX_VALUE`. */
  lemma Wrap32Boundaries()
    ensures Wrap32(INT_MAX + 1) == INT_MIN
    ensures Wrap32(INT_MIN - 1) == INT_MAX
  {
    assert INT_MAX + 1 - INT_MIN == TWO_32;
    assert INT_MIN - 1 - INT_MIN == -1;
    assert -1 % TWO_32 == TWO_32 - 1;
  }

  /** `x + 1` on an `int`: `Integer.MAX_VALUE + 1` is `Integer.MIN_VALUE`. */
  function Inc32(x: Int32): (r: Int32)
  {
    if x == INT_MAX then INT_MIN else x + 1
  }

  /** `x - 1` on an `int`: `Integer.MIN_VALUE - 1` is `Integer.MAX_VALUE`. */
  function Dec32(x: Int32): (r: Int32)
  {
    if x == INT_MIN then INT_MAX else x - 1
  }

  /** Both are the 32-bit wrap-around of the exact result. */
  lemma IncDecWrap(x: Int32)
    ensures Inc32(x) == Wrap32(x + 1)
    ensures Dec32(x) == Wrap32(x - 1)
  {
    Wrap32Boundaries();
    if x < INT_MAX { Wrap32Identity(x + 1); }
    if x > INT_MIN { Wrap32Identity(x - 1); }
  }

  /** Java's `a % 360`: the remainder of a division truncated toward zero, so it takes the
      sign of the dividend (`-400 % 360 == -40`), unlike Dafny's Euclidean `%`. */
  function JavaRem360(a: int): (r: int)
    ensures (a - r) % 360 == 0
    ensures -360 < r < 360
    ensures a >= 0 ==> r >= 0
    ensures a <= 0 ==> r <= 0
  {
    if a >= 0 then a % 360 else -((-a) % 360)
  }

  // ---------------------------------------------------------------- decimal numbers

  predicate IsDigit(c: char) { '0' <= c <= '9' }

  predicate AllDigits(s: string) { forall i :: 0 <= i < |s| ==> IsDigit(s[i]) }

  function DigitValue(c: char): nat
    requires IsDigit(c)
  {
    c as int - '0' as int
  }

  function DigitChar(d: nat): (c: char)
    requires d < 10
    ensures IsDigit(c) && DigitValue(c) == d
  {
    ('0' as int + d) as char
  }

  /** The value of a run of decimal digits, most significant first; leading zeros are
      allowed, as `Integer.parseInt` allows them. */
  function DigitsValue(s: string): nat
    requires AllDigits(s)
  {
    if s == [] then 0 else DigitsValue(s[..|s| - 1]) * 10 + DigitValue(s[|s| - 1])
  }

  /** `Integer.parseInt(s)` for ASCII input: an optional `+` or `-`, then at least one digit,
      and a value that fits a Java `int`. No trimming. `None` is the NumberFormatException. */
  function ParseInt(s: string): (r: Option<int>)
    ensures r.Some? ==> IsInt32(r.value)
    ensures r.Some? ==> |s| > 0
    ensures r.Some? && s[0] != '-' ==> r.value >= 0
  {
    if |s| == 0 then None
    else
      var digits := if s[0] == '-' || s[0] == '+' then s[1..] else s;
      if |digits| == 0 || !AllDigits(digits) then None
      else
        var magnitude: int := DigitsValue(digits);
        var v := if s[0] == '-' then -magnitude else magnitude;
        if IsInt32(v) then Some(v) else None
  }

  /** `String.valueOf(n)` for a non-negative `n`: its decimal digits, no leading zero. */
  function NatToString(n: nat): (s: string)
    ensures |s| > 0 && AllDigits(s)
    ensures |s| > 1 ==> s[0] != '0'
  {
    if n < 10 then [DigitChar(n)] else NatToString(n / 10) + [DigitChar(n % 10)]
  }

  lemma {:induction false} DigitsOfNatToString(n: nat)
    ensures DigitsValue(NatToString(n)) == n
  {
    var s := NatToString(n);
    if n >= 10 {
      DigitsOfNatToString(n / 10);
      assert s[..|s| - 1] == NatToString(n / 10);
    }
  }

  /** Printing a Java `int` page count and parsing it back gives the count again. */
  lemma ParseIntOfNatToString(n: nat)
    requires n <= INT_MAX
    ensures ParseInt(NatToString(n)) == Some(n)
  {
    var s := NatToString(n);
    DigitsOfNatToString(n);
    assert s[0] != '-' && s[0] != '+';
  }

  // ---------------------------------------------------------------- blank strings

  /** `String.trim()`: drops every leading and trailing character at or below U+0020. */
  function Trim(s: string): (r: string)
    ensures |r| <= |s|
  {
    if |s| > 0 && s[0] <= ' ' then Trim(s[1..])
    else if |s| > 0 && s[|s| - 1] <= ' ' then Trim(s[..|s| - 1])
    else s
  }

  /** `s.trim().isEmpty()`. */
  predicate IsBlank(s: string) { Trim(s) == "" }

  /** A string trims to nothing exactly when every character in it is at or below U+0020. */
  lemma {:induction false} BlankIffAllSpace(s: string)
    ensures IsBlank(s) <==> forall i :: 0 <= i < |s| ==> s[i] <= ' '
  {
    if |s| > 0 && s[0] <= ' ' {
      BlankIffAllSpace(s[1..]);
      if IsBlank(s) {
        forall i | 0 <= i < |s| ensures s[i] <= ' ' {
          if i > 0 { assert s[i] == s[1..][i - 1]; }
        }
      }
    } else if |s| > 0 && s[|s| - 1] <= ' ' {
      BlankIffAllSpace(s[..|s| - 1]);
      assert s[..|s| - 1][0] == s[0];
    }
  }

  /** A nullable string that is absent or blank: the test `s == null || s.trim().isEmpty()`. */
  predicate NullOrBlank(s: Option<string>) { s.None? || IsBlank(s.value) }

  // ---------------------------------------------------------------- replace and split

  /** `s.replace(target, replacement)` for a one-character target (the regular expression of a
      single letter in `replaceAll` matches the same places). */
  function Replace(s: string, target: char, replacement: string): (r: string)
    ensures target !in replacement ==> target !in r
    ensures target !in s ==> r == s
  {
    if s == [] then []
    else (if s[0] == target then replacement else [s[0]]) + Replace(s[1..], target, replacement)
  }

  /** Every piece of `s` between separators, empty ones included: the split before Java drops
      anything. There is always one more piece than there are separators. */
  function SplitAll(s: string, sep: char): (r: seq<string>)
    ensures |r| >= 1
    ensures forall i :: 0 <= i < |r| ==> sep !in r[i]
  {
    if s == [] then [""]
    else
      var rest := SplitAll(s[1..], sep);
      if s[0] == sep then [""] + rest else [[s[0]] + rest[0]] + rest[1..]
  }

  /** The inverse of `SplitAll`: the pieces glued back with the separator between them. */
  function Join(parts: seq<string>, sep: char): string
    requires |parts| >= 1
  {
    if |parts| == 1 then parts[0] else parts[0] + [sep] + Join(parts[1..], sep)
  }

  lemma {:induction false} JoinSplitAll(s: string, sep: char)
    ensures Join(SplitAll(s, sep), sep) == s
  {
    if s != [] {
      JoinSplitAll(s[1..], sep);
      var rest := SplitAll(s[1..], sep);
      if s[0] != sep {
        if |rest| == 1 {
        } else {
          assert ([[s[0]] + rest[0]] + rest[1..])[1..] == rest[1..];
          assert Join(rest, sep) == rest[0] + [sep] + Join(rest[1..], sep);
        }
      } else {
        assert ([""] + rest)[1..] == rest;
      }
    }
  }

  lemma {:induction false} SplitAllJoin(parts: seq<string>, sep: char)
    requires |parts| >= 1
    requires forall i :: 0 <= i < |parts| ==> sep !in parts[i]
    ensures SplitAll(Join(parts, sep), sep) == parts
  {
    if |parts| == 1 {
      SplitAllNoSep(parts[0], sep);
    } else {
      SplitAllJoin(parts[1..], sep);
      SplitAllPrefix(parts[0], Join(parts[1..], sep), sep);
      assert [parts[0]] + parts[1..] == parts;
    }
  }

  lemma {:induction false} SplitAllNoSep(s: string, sep: char)
    requires sep !in s
    ensures SplitAll(s, sep) == [s]
  {
    if s != [] {
      assert sep !in s[1..];
      SplitAllNoSep(s[1..], sep);
      assert [s[0]] + s[1..] == s;
    }
  }

  /** A separator-free head followed by a separator contributes exactly one piece. */
  lemma {:induction false} SplitAllPrefix(head: string, tail: string, sep: char)
    requires sep !in head
    ensures SplitAll(head + [sep] + tail, sep) == [head] + SplitAll(tail, sep)
  {
    if head == [] {
      assert head + [sep] + tail == [sep] + tail;
      assert ([sep] + tail)[1..] == tail;
    } else {
      assert (head + [sep] + tail)[1..] == head[1..] + [sep] + tail;
      assert sep !in head[1..];
      SplitAllPrefix(head[1..], tail, sep);
      assert [head[0]] + head[1..] == head;
    }
  }

  /** The pieces with the trailing empty ones removed. */
  function DropTrailingEmpty(parts: seq<string>): (r: seq<string>)
    ensures |r| <= |parts| && r == parts[..|r|]
    ensures |r| > 0 ==> r[|r| - 1] != ""
    ensures forall i :: |r| <= i < |parts| ==> parts[i] == ""
  {
    if parts == [] then []
    else if parts[|parts| - 1] == "" then DropTrailingEmpty(parts[..|parts| - 1])
    else parts
  }

  /** `s.split(sep)` (limit 0) for a separator that is not a regular-expression
      metacharacter: with no separator the result is `[s]`, even for the empty string;
      otherwise every piece, with the trailing empty pieces removed. */
  function Split(s: string, sep: char): (r: seq<string>)
    ensures forall i :: 0 <= i < |r| ==> sep !in r[i]
  {
    if sep !in s then [s] else DropTrailingEmpty(SplitAll(s, sep))
  }

  /** Splitting invents no character: every piece is made of characters of `s`. */
  lemma {:induction false} SplitAllChars(s: string, sep: char)
    ensures forall i, c :: 0 <= i < |SplitAll(s, sep)| && c in SplitAll(s, sep)[i] ==> c in s
  {
    if s != [] {
      SplitAllChars(s[1..], sep);
      assert forall c :: c in s[1..] ==> c in s;
    }
  }

  lemma SplitChars(s: string, sep: char)
    ensures forall i, c :: 0 <= i < |Split(s, sep)| && c in Split(s, sep)[i] ==> c in s
  {
    SplitAllChars(s, sep);
  }

  /** The position of the first `c` in `s`. */
  function IndexOf(s: string, c: char): (i: nat)
    requires c in s
    ensures i < |s| && s[i] == c && c !in s[..i]
  {
    if s[0] == c then 0 else 1 + IndexOf(s[1..], c)
  }

  /** Whether `t` occurs in `s` starting at position `i`. */
  predicate OccursAt(s: string, t: string, i: int)
  {
    0 <= i && i + |t| <= |s| && s[i..i + |t|] == t
  }

  /** `s.indexOf(t)`: the first position where `t` occurs, `None` standing for -1. */
  function IndexOfText(s: string, t: string): (r: Option<nat>)
    ensures r.Some? ==> OccursAt(s, t, r.value)
    ensures r.Some? ==> forall i :: 0 <= i < r.value ==> !OccursAt(s, t, i)
    ensures r.None? ==> forall i :: !OccursAt(s, t, i)
    decreases |s|
  {
    if |s| < |t| then None
    else if s[..|t|] == t then Some(0)
    else
      var rest := IndexOfText(s[1..], t);
      forall i | 1 <= i ensures OccursAt(s, t, i) <==> OccursAt(s[1..], t, i - 1) {
        if i + |t| <= |s| {
          assert s[1..][i - 1..i - 1 + |t|] == s[i..i + |t|];
        }
      }
      if rest.Some? then Some(rest.value + 1) else None
  }

  /** A text cannot occur where its first character does not. */
  lemma NotFoundWithoutFirstChar(s: string, t: string)
    requires |t| > 0 && t[0] !in s
    ensures IndexOfText(s, t).None?
  {
    forall i ensures !OccursAt(s, t, i) {
      if 0 <= i && i + |t| <= |s| {
        assert s[i..i + |t|][0] == s[i];
      }
    }
  }

  /** `s.split(sep, 2)`: cut at the first separator only, keeping an empty tail. */
  function SplitFirst(s: string, sep: char): (r: seq<string>)
    ensures 1 <= |r| <= 2
    ensures |r| == 1 <==> sep !in s
    ensures |r| == 1 ==> r[0] == s
    ensures |r| == 2 ==> sep !in r[0] && r[0] + [sep] + r[1] == s
  {
    if sep !in s then [s]
    else
      var i := IndexOf(s, sep);
      assert s[..i] + [sep] + s[i + 1..] == s;
      [s[..i], s[i + 1..]]
  }

  // ---------------------------------------------------------------- ASCII case

  function ToLowerAscii(c: char): (r: char)
    ensures 'A' <= c <= 'Z' ==> r as int == c as int + 32
    ensures !('A' <= c <= 'Z') ==> r == c
  {
    if 'A' <= c <= 'Z' then (c as int + 32) as char else c
  }

  function LowerAscii(s: string): (r: string)
    ensures |r| == |s|
    ensures forall i :: 0 <= i < |s| ==> r[i] == ToLowerAscii(s[i])
  {
    if s == [] then [] else [ToLowerAscii(s[0])] + LowerAscii(s[1..])
  }

  /** `a.equalsIgnoreCase(b)` restricted to ASCII letters: same length, and the characters
      agree position by position once upper case is folded to lower case. */
  predicate EqualsIgnoreCase(a: string, b: string)
  {
    |a| == |b| && forall i :: 0 <= i < |a| ==> ToLowerAscii(a[i]) == ToLowerAscii(b[i])
  }

  lemma EqualsIgnoreCaseIffLowerEqual(a: string, b: string)
    ensures EqualsIgnoreCase(a, b) <==> LowerAscii(a) == LowerAscii(b)
  {
    if LowerAscii(a) == LowerAscii(b) {
      assert |a| == |b|;
      forall i | 0 <= i < |a| ensures ToLowerAscii(a[i]) == ToLowerAscii(b[i]) {
        assert LowerAscii(a)[i] == LowerAscii(b)[i];
      }
    }
  }
}
