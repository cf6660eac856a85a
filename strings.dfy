/**
  The few operations of the .NET `string` class that the player relies on,
  with ordinal (character-by-character) comparison: `StartsWith`,
  `Contains`, `Split(char)`, `Replace(string, string)`, and the decimal
  rendering of a non-negative integer used by `string.Format`.
 */
module Strings {

  /** `s.StartsWith(prefix)` */
  predicate StartsWith(s: string, prefix: string) {
    |prefix| <= |s| && s[..|prefix|] == prefix
  }

  /** `sub` occurs in `s` starting at index `i`. */
  predicate OccursAt(s: string, sub: string, i: int) {
    0 <= i && i + |sub| <= |s| && s[i..i + |sub|] == sub
  }

  /** `s.Contains(sub)`: a left-to-right scan for an occurrence. */
  predicate Contains(s: string, sub: string)
    decreases |s|
  {
    StartsWith(s, sub) || (|s| > 0 && Contains(s[1..], sub))
  }

  /** An occurrence found by the scan is an occurrence at some index. */
  lemma {:induction false} ContainsHasIndex(s: string, sub: string)
    requires Contains(s, sub)
    ensures exists i :: OccursAt(s, sub, i)
    decreases |s|
  {
    if StartsWith(s, sub) {
      assert OccursAt(s, sub, 0);
    } else {
      ContainsHasIndex(s[1..], sub);
      var i :| OccursAt(s[1..], sub, i);
      assert s[1..][i..i + |sub|] == s[i + 1..i + 1 + |sub|];
      assert OccursAt(s, sub, i + 1);
    }
  }

  /** The scan finds every occurrence, wherever it is. */
  lemma {:induction false} IndexHasContains(s: string, sub: string, i: int)
    requires OccursAt(s, sub, i)
    ensures Contains(s, sub)
    decreases i
  {
    if i > 0 {
      assert s[1..][i - 1..i - 1 + |sub|] == s[i..i + |sub|];
      IndexHasContains(s[1..], sub, i - 1);
    }
  }

  /** A string shorter than `sub` does not contain it. */
  lemma {:induction false} ShortNotContains(s: string, sub: string)
    requires |s| < |sub|
    ensures !Contains(s, sub)
    decreases |s|
  {
    if |s| > 0 {
      ShortNotContains(s[1..], sub);
    }
  }

  /** Index of the first `c` in `s`, or `|s|` when there is none. */
  function IndexOf(s: string, c: char): (i: nat)
    ensures i <= |s|
    ensures c !in s[..i]
    ensures i < |s| ==> s[i] == c
    ensures i == |s| <==> c !in s
    decreases |s|
  {
    if |s| == 0 then 0
    else if s[0] == c then 0
    else
      assert s[1..][..IndexOf(s[1..], c)] == s[1..1 + IndexOf(s[1..], c)];
      assert s == [s[0]] + s[1..];
      1 + IndexOf(s[1..], c)
  }

  /**
    `s.Split(sep)`: the pieces of `s` between the occurrences of `sep`,
    including empty pieces; there is always at least one piece.
   */
  function Split(s: string, sep: char): (parts: seq<string>)
    ensures |parts| >= 1
    ensures forall k :: 0 <= k < |parts| ==> sep !in parts[k]
    decreases |s|
  {
    if |s| == 0 then [""]
    else
      var rest := Split(s[1..], sep);
      if s[0] == sep then [""] + rest
      else [[s[0]] + rest[0]] + rest[1..]
  }

  /** `string.Join(sep, parts)`, the inverse of `Split`. */
  function Join(parts: seq<string>, sep: char): string
    requires |parts| >= 1
    decreases |parts|
  {
    if |parts| == 1 then parts[0] else parts[0] + [sep] + Join(parts[1..], sep)
  }

  /** Splitting loses nothing: joining the pieces gives back the string. */
  lemma {:induction false} JoinSplit(s: string, sep: char)
    ensures Join(Split(s, sep), sep) == s
    decreases |s|
  {
    if |s| > 0 {
      var rest := Split(s[1..], sep);
      JoinSplit(s[1..], sep);
      if s[0] == sep {
        assert ([""] + rest)[1..] == rest;
      } else {
        var parts := [[s[0]] + rest[0]] + rest[1..];
        if |rest| == 1 {
          assert parts == [[s[0]] + rest[0]];
        } else {
          assert parts[1..] == rest[1..];
          assert Join(rest, sep) == rest[0] + [sep] + Join(rest[1..], sep);
        }
      }
    }
  }

  /** The first piece of `Split` is the text before the first separator. */
  lemma {:induction false} SplitFirst(s: string, sep: char)
    ensures Split(s, sep)[0] == s[..IndexOf(s, sep)]
    decreases |s|
  {
    if |s| > 0 && s[0] != sep {
      SplitFirst(s[1..], sep);
      assert s[..IndexOf(s, sep)] == [s[0]] + s[1..][..IndexOf(s[1..], sep)];
    }
  }

  /** Splitting a join of separator-free pieces gives the pieces back. */
  lemma {:induction false} SplitJoin(parts: seq<string>, sep: char)
    requires |parts| >= 1
    requires forall k :: 0 <= k < |parts| ==> sep !in parts[k]
    ensures Split(Join(parts, sep), sep) == parts
    decreases |parts|
  {
    if |parts| == 1 {
      SplitFree(parts[0], sep);
    } else {
      SplitJoin(parts[1..], sep);
      SplitAfterPiece(parts[0], Join(parts[1..], sep), sep);
      assert [parts[0]] + parts[1..] == parts;
    }
  }

  /** A separator-free string splits into itself. */
  lemma {:induction false} SplitFree(s: string, sep: char)
    requires sep !in s
    ensures Split(s, sep) == [s]
    decreases |s|
  {
    if |s| > 0 {
      assert sep !in s[1..];
      SplitFree(s[1..], sep);
      assert [s[0]] + s[1..] == s;
    }
  }

  lemma {:induction false} SplitAfterPiece(a: string, b: string, sep: char)
    requires sep !in a
    ensures Split(a + [sep] + b, sep) == [a] + Split(b, sep)
    decreases |a|
  {
    var s := a + [sep] + b;
    if |a| == 0 {
      assert s[1..] == b;
    } else {
      assert s[1..] == a[1..] + [sep] + b;
      assert sep !in a[1..];
      SplitAfterPiece(a[1..], b, sep);
      assert [a[0]] + a[1..] == a;
    }
  }

  /**
    `s.Replace(oldValue, newValue)`: one left-to-right pass that replaces
    each non-overlapping occurrence of `oldValue`; the text produced by a
    replacement is not scanned again. .NET refuses an empty `oldValue`.
   */
  function Replace(s: string, oldValue: string, newValue: string): string
    requires |oldValue| > 0
    decreases |s|
  {
    if StartsWith(s, oldValue) then newValue + Replace(s[|oldValue|..], oldValue, newValue)
    else if |s| == 0 then ""
    else [s[0]] + Replace(s[1..], oldValue, newValue)
  }

  /** With no occurrence, nothing is replaced. */
  lemma {:induction false} ReplaceAbsent(s: string, oldValue: string, newValue: string)
    requires |oldValue| > 0
    ensures !Contains(s, oldValue) ==> Replace(s, oldValue, newValue) == s
    decreases |s|
  {
    if !StartsWith(s, oldValue) && |s| > 0 {
      ReplaceAbsent(s[1..], oldValue, newValue);
      assert s == [s[0]] + s[1..];
    }
  }

  /** How many occurrences that pass of `Replace` replaces. */
  function Replacements(s: string, oldValue: string): nat
    requires |oldValue| > 0
    decreases |s|
  {
    if StartsWith(s, oldValue) then 1 + Replacements(s[|oldValue|..], oldValue)
    else if |s| == 0 then 0
    else Replacements(s[1..], oldValue)
  }

  /** Every replacement changes the length by `|newValue| - |oldValue|`. */
  lemma {:induction false} ReplaceLength(s: string, oldValue: string, newValue: string)
    requires |oldValue| > 0
    ensures |Replace(s, oldValue, newValue)|
         == |s| + Replacements(s, oldValue) * (|newValue| - |oldValue|)
    decreases |s|
  {
    if StartsWith(s, oldValue) {
      var rest := s[|oldValue|..];
      ReplaceLength(rest, oldValue, newValue);
      var k, d := Replacements(rest, oldValue), |newValue| - |oldValue|;
      assert |Replace(rest, oldValue, newValue)| == |rest| + k * d;
      SuccTimes(k, d);
    } else if |s| > 0 {
      ReplaceLength(s[1..], oldValue, newValue);
    }
  }

  lemma SuccTimes(k: int, d: int)
    ensures (1 + k) * d == d + k * d
  {
  }

  /** Something is replaced exactly when `oldValue` occurs somewhere. */
  lemma {:induction false} ReplacementsIff(s: string, oldValue: string)
    requires |oldValue| > 0
    ensures Replacements(s, oldValue) > 0 <==> Contains(s, oldValue)
    decreases |s|
  {
    if !StartsWith(s, oldValue) && |s| > 0 {
      ReplacementsIff(s[1..], oldValue);
    }
  }

  /**
    Two characters that start no occurrence are kept, the occurrence after
    them is deleted, and a tail shorter than the pattern is kept.
   */
  lemma ReplaceSkipsTwo(p: string, c0: char, c1: char, tail: string)
    requires 0 < |tail| < |p|
    requires ([c0] + ([c1] + (p + tail)))[..|p|] != p
    requires ([c1] + (p + tail))[..|p|] != p
    ensures Replace([c0] + ([c1] + (p + tail)), p, "") == [c0] + ([c1] + tail)
  {
    calc {
      Replace([c0] + ([c1] + (p + tail)), p, "");
      { ReplaceKeepsFirst(c0, [c1] + (p + tail), p); }
      [c0] + Replace([c1] + (p + tail), p, "");
      { ReplaceKeepsFirst(c1, p + tail, p); }
      [c0] + ([c1] + Replace(p + tail, p, ""));
      { ReplaceAtMatch(p, tail); }
      [c0] + ([c1] + Replace(tail, p, ""));
      { ShortNotContains(tail, p); ReplaceAbsent(tail, p, ""); }
      [c0] + ([c1] + tail);
    }
  }

  /** A first character that starts no occurrence is kept. */
  lemma ReplaceKeepsFirst(c: char, rest: string, oldValue: string)
    requires 0 < |oldValue| <= |rest| && ([c] + rest)[..|oldValue|] != oldValue
    ensures Replace([c] + rest, oldValue, "") == [c] + Replace(rest, oldValue, "")
  {
    assert ([c] + rest)[1..] == rest;
  }

  /** An occurrence at the front is deleted and the scan goes on after it. */
  lemma ReplaceAtMatch(oldValue: string, rest: string)
    requires |oldValue| > 0
    ensures Replace(oldValue + rest, oldValue, "") == Replace(rest, oldValue, "")
  {
    var s := oldValue + rest;
    assert s[..|oldValue|] == oldValue && s[|oldValue|..] == rest;
  }

  /** The character of a decimal digit. */
  function DigitChar(d: nat): (c: char)
    requires d < 10
    ensures '0' <= c <= '9'
  {
    ('0' as int + d) as char
  }

  /** The value of a decimal digit character. */
  function DigitValue(c: char): int {
    c as int - '0' as int
  }

  predicate IsDigits(s: string) {
    forall k :: 0 <= k < |s| ==> '0' <= s[k] <= '9'
  }

  /** `n.ToString()`: decimal digits, most significant first, no leading zeros. */
  function Decimal(n: nat): (r: string)
    ensures 1 <= |r|
    ensures IsDigits(r)
    ensures |r| > 1 ==> r[0] != '0'
    ensures n < 10 <==> |r| == 1
    decreases n
  {
    if n < 10 then [DigitChar(n)] else Decimal(n / 10) + [DigitChar(n % 10)]
  }

  /** The number a string of decimal digits denotes. */
  function ParseDecimal(s: string): int
    decreases |s|
  {
    if s == [] then 0 else 10 * ParseDecimal(s[..|s| - 1]) + DigitValue(s[|s| - 1])
  }

  /** Reading back what `Decimal` wrote gives the number. */
  lemma {:induction false} ParseDecimalOfDecimal(n: nat)
    ensures ParseDecimal(Decimal(n)) == n
    decreases n
  {
    if n >= 10 {
      ParseDecimalOfDecimal(n / 10);
      var r := Decimal(n);
      assert r[..|r| - 1] == Decimal(n / 10);
    } else {
      assert Decimal(n)[..0] == [];
    }
  }

  /** `Decimal` is injective: distinct numbers render differently. */
  lemma DecimalInjective(m: nat, n: nat)
    requires Decimal(m) == Decimal(n)
    ensures m == n
  {
    ParseDecimalOfDecimal(m);
    ParseDecimalOfDecimal(n);
  }
}
