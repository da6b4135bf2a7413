/**
 * The few Python `str` operations the utilities rely on: `split` on a
 * one-character separator, `strip()` with no argument, `removeprefix`,
 * `endswith`, ASCII `lower()`, and the conversion `int(token)`.
 */
module Strings {
  import opened Wrappers

  // ---------------------------------------------------------------------------
  // split

  /** Python's `s.split(sep)` for a one-character separator: the text up to
      the first separator, then the rest split again. The pieces hold no
      separator and, joined with it, give `s` back (`SplitJoinsBack`);
      `SplitJoinWith` shows that these two facts decide the pieces. */
  function Split(s: string, sep: char): (pieces: seq<string>)
    ensures |pieces| >= 1
    ensures forall i :: 0 <= i < |pieces| ==> sep !in pieces[i]
    decreases |s|
  {
    var i := IndexOf(s, sep);
    if i == |s| then [s]
    else
      var head, rest := s[..i], Split(s[i + 1..], sep);
      assert sep !in head by {
        assert forall k :: 0 <= k < |head| ==> head[k] == s[k];
      }
      ConsAll(head, rest, (x: string) => sep !in x);
      [head] + rest
  }

  /** Joining the pieces with the separator gives the string back. */
  lemma {:induction false} SplitJoinsBack(s: string, sep: char)
    ensures JoinWith(Split(s, sep), sep) == s
    decreases |s|
  {
    var i := IndexOf(s, sep);
    if i < |s| {
      SplitJoinsBack(s[i + 1..], sep);
      SplitUnfold(s, sep);
      JoinWithCons(s[..i], Split(s[i + 1..], sep), sep);
      Around(s, i);
    }
  }

  /** Python's `sep.join(pieces)`. */
  function JoinWith(pieces: seq<string>, sep: char): string
  {
    if pieces == [] then []
    else if |pieces| == 1 then pieces[0]
    else pieces[0] + [sep] + JoinWith(pieces[1..], sep)
  }

  lemma ConsAll<T>(x: T, xs: seq<T>, p: T -> bool)
    requires p(x) && forall i :: 0 <= i < |xs| ==> p(xs[i])
    ensures forall i :: 0 <= i < |[x] + xs| ==> p(([x] + xs)[i])
  {
    forall i | 0 <= i < |[x] + xs|
      ensures p(([x] + xs)[i])
    {
      if i > 0 {
        assert ([x] + xs)[i] == xs[i - 1];
      }
    }
  }

  lemma Associative<T>(a: seq<T>, b: seq<T>, c: seq<T>)
    ensures a + (b + c) == a + b + c
  {
  }

  lemma Around<T>(s: seq<T>, i: nat)
    requires i < |s|
    ensures s == s[..i] + [s[i]] + s[i + 1..]
  {
  }

  /** One step of `Split`: the text before the first separator, then the rest split. */
  lemma SplitUnfold(s: string, sep: char)
    requires IndexOf(s, sep) < |s|
    ensures Split(s, sep) == [s[..IndexOf(s, sep)]] + Split(s[IndexOf(s, sep) + 1..], sep)
  {
  }

  lemma JoinWithCons(head: string, rest: seq<string>, sep: char)
    requires rest != []
    ensures JoinWith([head] + rest, sep) == head + [sep] + JoinWith(rest, sep)
  {
    assert ([head] + rest)[1..] == rest;
  }

  /** The first piece is the text before the first separator (all of `s` when there is none). */
  lemma SplitFirst(s: string, sep: char)
    ensures Split(s, sep)[0] == s[..IndexOf(s, sep)]
  {
    var i := IndexOf(s, sep);
    if i < |s| {
      SplitUnfold(s, sep);
    } else {
      assert s[..i] == s;
    }
  }

  /** The second piece is the text between the first and the second separator
      (or the end of `s` when there is no second one). */
  lemma SplitSecond(s: string, sep: char)
    requires sep in s
    ensures |Split(s, sep)| >= 2
    ensures var rest := s[IndexOf(s, sep) + 1..];
            Split(s, sep)[1] == rest[..IndexOf(rest, sep)]
  {
    IndexOfAbsent(s, sep);
    SplitUnfold(s, sep);
    SplitFirst(s[IndexOf(s, sep) + 1..], sep);
  }

  /** Text before the first separator becomes the first piece. */
  lemma SplitAtFirst(a: string, b: string, sep: char)
    requires sep !in a
    ensures Split(a + [sep] + b, sep) == [a] + Split(b, sep)
  {
    var s := a + [sep] + b;
    assert IndexOf(s, sep) == |a| by {
      assert s == a + ([sep] + b);
      IndexOfConcat(a, [sep] + b, sep);
    }
    assert s[..|a|] == a;
    assert s[|a| + 1..] == b;
  }

  /** When the first two pieces are `a` and `b`, whatever follows the second separator is dropped from them. */
  lemma SplitTwo(a: string, b: string, rest: string, sep: char)
    requires sep !in a && sep !in b
    requires rest == [] || rest[0] == sep
    ensures |Split(a + [sep] + b + rest, sep)| >= 2
    ensures Split(a + [sep] + b + rest, sep)[0] == a
    ensures Split(a + [sep] + b + rest, sep)[1] == b
  {
    var s := a + [sep] + b + rest;
    assert s == a + [sep] + (b + rest);
    SplitAtFirst(a, b + rest, sep);
    assert Split(b + rest, sep)[0] == b by {
      SplitFirst(b + rest, sep);
      IndexOfConcat(b, rest, sep);
      if rest != [] {
        assert IndexOf(rest, sep) == 0;
      }
      assert (b + rest)[..|b|] == b;
    }
  }

  /** `split` inverts `join` whenever no piece contains the separator. */
  lemma {:induction false} SplitJoinWith(pieces: seq<string>, sep: char)
    requires |pieces| >= 1
    requires forall i :: 0 <= i < |pieces| ==> sep !in pieces[i]
    ensures Split(JoinWith(pieces, sep), sep) == pieces
  {
    if |pieces| > 1 {
      SplitJoinWith(pieces[1..], sep);
      SplitAtFirst(pieces[0], JoinWith(pieces[1..], sep), sep);
      assert [pieces[0]] + pieces[1..] == pieces;
    }
  }

  function Last<T>(s: seq<T>): T
    requires s != []
  {
    s[|s| - 1]
  }

  /** The last piece is the text after the last separator. */
  lemma {:induction false} SplitLastPiece(a: string, e: string, sep: char)
    requires sep !in e
    ensures Last(Split(a + [sep] + e, sep)) == e
    decreases |a|
  {
    if sep !in a {
      SplitAtFirst(a, e, sep);
      SplitCount(e, sep);
      LastCons(a, [e]);
    } else {
      var i := IndexOf(a, sep);
      var a1, a2 := a[..i], a[i + 1..];
      var tail := Split(a2 + [sep] + e, sep);
      assert Split(a + [sep] + e, sep) == [a1] + tail by {
        assert a + [sep] + e == a1 + [sep] + (a2 + [sep] + e) by {
          assert a == a1 + [sep] + a2;
        }
        SplitAtFirst(a1, a2 + [sep] + e, sep);
      }
      SplitLastPiece(a2, e, sep);
      LastCons(a1, tail);
    }
  }

  lemma LastCons<T>(x: T, ys: seq<T>)
    requires ys != []
    ensures Last([x] + ys) == Last(ys)
  {
  }

  /** A string without the separator is a single piece, and one with it is
      at least two. */
  lemma SplitCount(s: string, sep: char)
    ensures sep !in s ==> Split(s, sep) == [s]
    ensures sep in s ==> |Split(s, sep)| >= 2
  {
    IndexOfAbsent(s, sep);
  }

  // ---------------------------------------------------------------------------
  // strip

  /** Python's `str.isspace` for one character: the ASCII whitespace and
      separators U+0009..U+000D and U+001C..U+001F, the space, and the
      non-ASCII characters of Unicode's whitespace and separator classes that
      `strip()` removes. */
  predicate IsSpace(c: char)
  {
    c == ' ' || '\t' <= c <= '\r' || '\U{1c}' <= c <= '\U{1f}' || c == '\U{85}' || c == '\U{a0}'
    || c == '\U{1680}' || '\U{2000}' <= c <= '\U{200a}' || c == '\U{2028}' || c == '\U{2029}'
    || c == '\U{202f}' || c == '\U{205f}' || c == '\U{3000}'
  }

  /** The whitespace `int()` skips around a number: ASCII space, tab, line
      feed, vertical tab, form feed and carriage return, and every non-ASCII
      character `str.isspace` accepts; not the separators U+001C..U+001F. */
  predicate IsIntSpace(c: char)
  {
    IsSpace(c) && !('\U{1c}' <= c <= '\U{1f}')
  }

  /** Number of characters at the start of `s` that `space` accepts. */
  function LeadingSpaces(s: string, space: char -> bool): (n: nat)
    ensures n <= |s|
    ensures n < |s| ==> !space(s[n])
  {
    if s != [] && space(s[0]) then 1 + LeadingSpaces(s[1..], space) else 0
  }

  /** Number of characters at the end of `s` that `space` accepts. */
  function TrailingSpaces(s: string, space: char -> bool): (n: nat)
    ensures n <= |s|
    ensures n < |s| ==> !space(s[|s| - 1 - n])
  {
    if s != [] && space(s[|s| - 1]) then 1 + TrailingSpaces(s[..|s| - 1], space) else 0
  }

  /** The middle of `s` once the characters `space` accepts are gone from
      both ends; `StripRemovesSpaces` says that nothing else is dropped. */
  function StripWith(s: string, space: char -> bool): (r: string)
    ensures r == [] || (!space(r[0]) && !space(r[|r| - 1]))
    ensures LeadingSpaces(s, space) + |r| <= |s|
    ensures r == s[LeadingSpaces(s, space)..LeadingSpaces(s, space) + |r|]
  {
    var i := LeadingSpaces(s, space);
    var t := s[i..];
    t[..|t| - TrailingSpaces(t, space)]
  }

  /** Python's `s.strip()`. */
  function Strip(s: string): string
  {
    StripWith(s, IsSpace)
  }

  /** What is stripped on either side is whitespace. */
  lemma {:induction false} StripRemovesSpaces(s: string, space: char -> bool)
    ensures forall k :: 0 <= k < LeadingSpaces(s, space) ==> space(s[k])
    ensures forall k :: LeadingSpaces(s, space) + |StripWith(s, space)| <= k < |s| ==> space(s[k])
  {
    LeadingAreSpaces(s, space);
    var i := LeadingSpaces(s, space);
    var t := s[i..];
    var n := |t| - TrailingSpaces(t, space);
    assert |StripWith(s, space)| == n;
    TrailingAreSpaces(t, space);
    forall k | i + n <= k < |s|
      ensures space(s[k])
    {
      assert s[k] == t[k - i];
    }
  }

  lemma {:induction false} LeadingAreSpaces(s: string, space: char -> bool)
    ensures forall k :: 0 <= k < LeadingSpaces(s, space) ==> space(s[k])
  {
    if s != [] && space(s[0]) {
      LeadingAreSpaces(s[1..], space);
    }
  }

  lemma {:induction false} TrailingAreSpaces(s: string, space: char -> bool)
    ensures forall k :: |s| - TrailingSpaces(s, space) <= k < |s| ==> space(s[k])
  {
    if s != [] && space(s[|s| - 1]) {
      TrailingAreSpaces(s[..|s| - 1], space);
    }
  }

  /** A string whose ends are not whitespace is left alone. */
  lemma StripUnpadded(s: string, space: char -> bool)
    requires s == [] || (!space(s[0]) && !space(s[|s| - 1]))
    ensures StripWith(s, space) == s
  {
  }

  /** Whitespace around an unpadded string is exactly what is stripped. */
  lemma StripPadded(pre: string, t: string, post: string, space: char -> bool)
    requires forall k :: 0 <= k < |pre| ==> space(pre[k])
    requires forall k :: 0 <= k < |post| ==> space(post[k])
    requires t != [] && !space(t[0]) && !space(t[|t| - 1])
    ensures StripWith(pre + t + post, space) == t
  {
    var s := pre + t + post;
    assert s == pre + (t + post);
    LeadingOfPadded(pre, t + post, space);
    assert s[|pre|..] == t + post;
    TrailingOfPadded(t, post, space);
  }

  lemma {:induction false} LeadingOfPadded(pre: string, rest: string, space: char -> bool)
    requires forall k :: 0 <= k < |pre| ==> space(pre[k])
    requires rest == [] || !space(rest[0])
    ensures LeadingSpaces(pre + rest, space) == |pre|
  {
    if pre != [] {
      LeadingOfPadded(pre[1..], rest, space);
      assert (pre + rest)[1..] == pre[1..] + rest;
    } else {
      assert pre + rest == rest;
    }
  }

  lemma {:induction false} TrailingOfPadded(t: string, post: string, space: char -> bool)
    requires forall k :: 0 <= k < |post| ==> space(post[k])
    requires t != [] && !space(t[|t| - 1])
    ensures TrailingSpaces(t + post, space) == |post|
  {
    if post != [] {
      var p' := post[..|post| - 1];
      TrailingOfPadded(t, p', space);
      assert (t + post)[..|t + post| - 1] == t + p';
    } else {
      assert t + post == t;
    }
  }

  // ---------------------------------------------------------------------------
  // prefixes, suffixes, case

  /** Python's `s.removeprefix(p)`. */
  function RemovePrefix(s: string, p: string): (r: string)
    ensures p <= s ==> p + r == s
    ensures !(p <= s) ==> r == s
  {
    if p <= s then s[|p|..] else s
  }

  /** Python's `s.endswith(c)` for a one-character suffix: false on the
      empty string, and otherwise whether the last character is `c`. The
      source calls it only with `'/'`. */
  predicate EndsWith(s: string, c: char)
  {
    s != [] && s[|s| - 1] == c
  }

  /** Index of the first `c` in `s`, or `|s|` when there is none. */
  function IndexOf(s: string, c: char): (i: nat)
    ensures i <= |s|
    ensures forall k :: 0 <= k < i ==> s[k] != c
    ensures i < |s| ==> s[i] == c
  {
    if s == [] || s[0] == c then 0 else 1 + IndexOf(s[1..], c)
  }

  /** The first `c` of a concatenation is found in its right part when the left part has none. */
  lemma {:induction false} IndexOfConcat(a: string, b: string, c: char)
    requires c !in a
    ensures IndexOf(a + b, c) == |a| + IndexOf(b, c)
  {
    if a != [] {
      IndexOfConcat(a[1..], b, c);
      assert (a + b)[1..] == a[1..] + b;
    } else {
      assert a + b == b;
    }
  }

  /** A `c` in the left part of a concatenation is the first one of the whole. */
  lemma {:induction false} IndexOfWithin(a: string, b: string, c: char)
    requires IndexOf(a, c) < |a|
    ensures IndexOf(a + b, c) == IndexOf(a, c)
  {
    if a[0] != c {
      IndexOfWithin(a[1..], b, c);
      assert (a + b)[1..] == a[1..] + b;
    }
  }

  /** `IndexOf` reaches the end exactly when the character is absent. */
  lemma IndexOfAbsent(s: string, c: char)
    ensures IndexOf(s, c) == |s| <==> c !in s
  {
    if IndexOf(s, c) < |s| {
      assert s[IndexOf(s, c)] == c;
    }
  }

  function LowerChar(c: char): char
  {
    if 'A' <= c <= 'Z' then (c as int + 32) as char else c
  }

  /** Python's `s.lower()` restricted to ASCII letters. */
  function Lower(s: string): (r: string)
    ensures |r| == |s|
    ensures forall k :: 0 <= k < |s| ==> r[k] == LowerChar(s[k])
    ensures NoUpper(r)
  {
    seq(|s|, k requires 0 <= k < |s| => LowerChar(s[k]))
  }

  predicate NoUpper(s: string)
  {
    forall k :: 0 <= k < |s| ==> !('A' <= s[k] <= 'Z')
  }

  /** Lower-casing leaves a string without capitals alone. */
  lemma LowerOfLower(s: string)
    requires NoUpper(s)
    ensures Lower(s) == s
  {
  }

  // ---------------------------------------------------------------------------
  // int()

  predicate IsDigit(c: char)
  {
    '0' <= c <= '9'
  }

  function DigitValue(c: char): nat
    requires IsDigit(c)
  {
    c as int - '0' as int
  }

  function DigitChar(d: nat): (c: char)
    requires d < 10
    ensures IsDigit(c) && DigitValue(c) == d
  {
    ('0' as int + d) as char
  }

  /** The digit part `int()` accepts: decimal digits, with single underscores
      allowed between two digits. */
  predicate IsDigitRun(s: string)
  {
    && s != []
    && IsDigit(s[0])
    && IsDigit(s[|s| - 1])
    && (forall k :: 0 <= k < |s| ==> IsDigit(s[k]) || s[k] == '_')
    && NoDoubleUnderscore(s)
  }

  predicate NoDoubleUnderscore(s: string)
  {
    |s| < 2 || (!(s[0] == '_' && s[1] == '_') && NoDoubleUnderscore(s[1..]))
  }

  lemma {:induction false} DigitsHaveNoDoubleUnderscore(s: string)
    requires forall k :: 0 <= k < |s| ==> IsDigit(s[k])
    ensures NoDoubleUnderscore(s)
  {
    if |s| >= 2 {
      DigitsHaveNoDoubleUnderscore(s[1..]);
    }
  }

  /** The value of a digit run, underscores ignored. */
  function DigitsValue(s: string): nat
    requires forall k :: 0 <= k < |s| ==> IsDigit(s[k]) || s[k] == '_'
  {
    if s == [] then 0
    else if s[|s| - 1] == '_' then DigitsValue(s[..|s| - 1])
    else 10 * DigitsValue(s[..|s| - 1]) + DigitValue(s[|s| - 1])
  }

  /** Python's default cap on the number of digits `int()` converts from text. */
  const MaxStrDigits: nat := 4300

  /** Number of digits in `s`, underscores and signs not counted. */
  function DigitCount(s: string): (n: nat)
    ensures n <= |s|
  {
    if s == [] then 0
    else DigitCount(s[..|s| - 1]) + (if IsDigit(s[|s| - 1]) then 1 else 0)
  }

  /** Python's `int(token)` on a decimal string: the whitespace `int()` skips
      is ignored on both sides, an optional `+` or `-` sign is allowed, more
      than `MaxStrDigits` digits are refused, and anything else is the
      `ValueError` case, here `None`. */
  function ParseInt(token: string): (r: Option<int>)
    ensures r.Some? ==> StripWith(token, IsIntSpace) != []
    ensures r.Some? && r.value < 0 ==> StripWith(token, IsIntSpace)[0] == '-'
  {
    ParseNumber(StripWith(token, IsIntSpace))
  }

  /** `int()` on a token whose surrounding whitespace is already gone. */
  function ParseNumber(t: string): (r: Option<int>)
    ensures r.Some? ==> t != []
    ensures r.Some? && r.value < 0 ==> t[0] == '-'
  {
    var signed := t != [] && (t[0] == '+' || t[0] == '-');
    var digits := if signed then t[1..] else t;
    if IsDigitRun(digits) && DigitCount(digits) <= MaxStrDigits then
      var v: int := DigitsValue(digits);
      Some(if signed && t[0] == '-' then -v else v)
    else None
  }

  lemma DigitsAreDigitRun(s: string)
    requires s != [] && forall k :: 0 <= k < |s| ==> IsDigit(s[k])
    ensures IsDigitRun(s)
  {
    DigitsHaveNoDoubleUnderscore(s);
  }

  /** In a plain run of digits every character counts against the cap. */
  lemma {:induction false} DigitCountOfDigits(s: string)
    requires forall k :: 0 <= k < |s| ==> IsDigit(s[k])
    ensures DigitCount(s) == |s|
  {
    if s != [] {
      DigitCountOfDigits(s[..|s| - 1]);
    }
  }

  /** `int()` on a plain run of at most `MaxStrDigits` digits, with or
      without a sign, is its decimal value. */
  lemma {:induction false} ParseIntDigits(s: string)
    requires s != [] && forall k :: 0 <= k < |s| ==> IsDigit(s[k])
    requires |s| <= MaxStrDigits
    ensures ParseInt(s) == Some(DigitsValue(s))
    ensures ParseInt(['-'] + s) == Some(-(DigitsValue(s) as int))
    ensures ParseInt(['+'] + s) == Some(DigitsValue(s))
  {
    DigitsAreDigitRun(s);
    DigitCountOfDigits(s);
    assert ParseInt(s) == Some(DigitsValue(s)) by {
      StripDigits(s);
    }
    SignedDigits('-', s);
    SignedDigits('+', s);
  }

  /** Past `MaxStrDigits` digits `int()` raises `ValueError`, signed or not. */
  lemma {:induction false} ParseIntTooLong(s: string)
    requires forall k :: 0 <= k < |s| ==> IsDigit(s[k])
    requires |s| > MaxStrDigits
    ensures ParseInt(s) == None
    ensures ParseInt(['-'] + s) == None
    ensures ParseInt(['+'] + s) == None
  {
    DigitCountOfDigits(s);
    assert ParseInt(s) == None by {
      StripDigits(s);
    }
    SignedDigits('-', s);
    SignedDigits('+', s);
  }

  /** A sign in front of digits is read as a sign, whatever the digits are. */
  lemma SignedDigits(sign: char, s: string)
    requires sign == '-' || sign == '+'
    requires s != [] && forall k :: 0 <= k < |s| ==> IsDigit(s[k])
    ensures ParseInt([sign] + s)
            == if IsDigitRun(s) && DigitCount(s) <= MaxStrDigits
               then Some(if sign == '-' then -(DigitsValue(s) as int) else DigitsValue(s))
               else None
  {
    StripSigned(sign, s);
    ParseNumberSigned(sign, s);
  }

  lemma ParseNumberSigned(sign: char, s: string)
    requires sign == '-' || sign == '+'
    requires s != [] && forall k :: 0 <= k < |s| ==> IsDigit(s[k])
    ensures ParseNumber([sign] + s)
            == if IsDigitRun(s) && DigitCount(s) <= MaxStrDigits
               then Some(if sign == '-' then -(DigitsValue(s) as int) else DigitsValue(s))
               else None
  {
    var t := [sign] + s;
    assert t != [] && t[0] == sign && t[1..] == s;
    if IsDigitRun(s) && DigitCount(s) <= MaxStrDigits {
      assert ParseNumber(t) == Some(if sign == '-' then -(DigitsValue(s) as int) else DigitsValue(s));
    } else {
      assert ParseNumber(t) == None;
    }
  }

  /** `int()` skips the whitespace it knows around the number. */
  lemma ParseIntPadded(pre: string, t: string, post: string)
    requires forall k :: 0 <= k < |pre| ==> IsIntSpace(pre[k])
    requires forall k :: 0 <= k < |post| ==> IsIntSpace(post[k])
    requires t != [] && !IsIntSpace(t[0]) && !IsIntSpace(t[|t| - 1])
    ensures ParseInt(pre + t + post) == ParseInt(t)
  {
    StripPadded(pre, t, post, IsIntSpace);
    StripUnpadded(t, IsIntSpace);
  }

  /** The separators U+001C..U+001F count as whitespace for `str.strip` but
      not for `int()`: a digit run after one of them is refused. */
  lemma ParseIntRefusesSeparator(c: char, s: string)
    requires '\U{1c}' <= c <= '\U{1f}'
    requires s != [] && forall k :: 0 <= k < |s| ==> IsDigit(s[k])
    ensures IsSpace(c)
    ensures ParseInt([c] + s) == None
  {
    var t := [c] + s;
    assert t[|t| - 1] == s[|s| - 1];
    StripUnpadded(t, IsIntSpace);
  }

  lemma StripDigits(s: string)
    requires s != [] && IsDigit(s[0]) && IsDigit(s[|s| - 1])
    ensures StripWith(s, IsIntSpace) == s
  {
    StripUnpadded(s, IsIntSpace);
  }

  lemma StripSigned(sign: char, s: string)
    requires sign == '-' || sign == '+'
    requires s != [] && IsDigit(s[|s| - 1])
    ensures StripWith([sign] + s, IsIntSpace) == [sign] + s
  {
    var t := [sign] + s;
    assert t[|t| - 1] == s[|s| - 1];
    StripUnpadded(t, IsIntSpace);
  }
}
