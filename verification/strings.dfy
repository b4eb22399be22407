/** The PHP string built-ins the access-control core relies on: `explode`,
    `implode`, `strtolower`, `strtoupper`, `str_contains` and
    `str_replace`, on strings modelled as sequences of characters. */
module Strings {

  /** ASCII lower-casing of one character (PHP 8 `strtolower` is
      locale-insensitive and only maps A-Z). */
  function LowerChar(c: char): char {
    if 'A' <= c <= 'Z' then (c as int + 32) as char else c
  }

  /** ASCII upper-casing of one character (PHP 8 `strtoupper`). */
  function UpperChar(c: char): char {
    if 'a' <= c <= 'z' then (c as int - 32) as char else c
  }

  /** `strtolower`: the result has no upper-case ASCII letter; every other
      character is kept, and a letter becomes its own lower-case form. */
  function Lower(s: string): (r: string)
    ensures |r| == |s|
    ensures forall i :: 0 <= i < |r| ==> !('A' <= r[i] <= 'Z')
    ensures forall i :: 0 <= i < |s| && !('A' <= s[i] <= 'Z') ==> r[i] == s[i]
    ensures forall i :: 0 <= i < |s| ==> UpperChar(r[i]) == UpperChar(s[i])
  {
    seq(|s|, i requires 0 <= i < |s| => LowerChar(s[i]))
  }

  /** `strtoupper`: the result has no lower-case ASCII letter; every other
      character is kept, and a letter becomes its own upper-case form. */
  function Upper(s: string): (r: string)
    ensures |r| == |s|
    ensures forall i :: 0 <= i < |r| ==> !('a' <= r[i] <= 'z')
    ensures forall i :: 0 <= i < |s| && !('a' <= s[i] <= 'z') ==> r[i] == s[i]
    ensures forall i :: 0 <= i < |s| ==> LowerChar(r[i]) == LowerChar(s[i])
  {
    seq(|s|, i requires 0 <= i < |s| => UpperChar(s[i]))
  }

  /** Lower-casing twice is lower-casing once, and a string without
      upper-case letters is its own lower-case form. */
  lemma LowerIdempotent(s: string)
    ensures Lower(Lower(s)) == Lower(s)
    ensures (forall i :: 0 <= i < |s| ==> !('A' <= s[i] <= 'Z')) ==> Lower(s) == s
  {
  }

  /** Case does not matter to `strtolower`: upper-casing first changes
      nothing, so `ACCESS_USERS_1` and `ACCESS_users_1` name the same
      controller. Upper-casing a lower-cased string gives the upper-case
      form of the original. */
  lemma LowerUpper(s: string)
    ensures Lower(Upper(s)) == Lower(s)
    ensures Upper(Lower(s)) == Upper(s)
  {
  }

  /** `explode(sep, s)`: the maximal separator-free pieces of `s`, empty
      pieces included, so there is always at least one. */
  function Split(s: string, sep: char): (parts: seq<string>)
    ensures |parts| >= 1
    ensures forall i :: 0 <= i < |parts| ==> sep !in parts[i]
    decreases |s|
  {
    if |s| == 0 then [""]
    else
      var rest := Split(s[1..], sep);
      if s[0] == sep then [""] + rest
      else [[s[0]] + rest[0]] + rest[1..]
  }

  /** How many times `c` occurs in `s` (`substr_count` for one character). */
  function Occurrences(s: string, c: char): nat
    decreases |s|
  {
    if |s| == 0 then 0 else (if s[0] == c then 1 else 0) + Occurrences(s[1..], c)
  }

  lemma {:induction false} OccurrencesAppend(a: string, b: string, c: char)
    ensures Occurrences(a + b, c) == Occurrences(a, c) + Occurrences(b, c)
    decreases |a|
  {
    if |a| > 0 {
      OccurrencesAppend(a[1..], b, c);
      assert (a + b)[1..] == a[1..] + b;
    } else {
      assert a + b == b;
    }
  }

  lemma {:induction false} OccurrencesPositive(s: string, c: char)
    ensures c in s <==> Occurrences(s, c) > 0
    decreases |s|
  {
    if |s| > 0 {
      OccurrencesPositive(s[1..], c);
      assert c in s <==> s[0] == c || c in s[1..] by {
        assert s == [s[0]] + s[1..];
      }
    }
  }

  /** `explode` yields one piece more than there are separators. */
  lemma {:induction false} SplitLength(s: string, sep: char)
    ensures |Split(s, sep)| == 1 + Occurrences(s, sep)
    decreases |s|
  {
    if |s| > 0 {
      SplitLength(s[1..], sep);
    }
  }

  /** `implode(sep, parts)`. */
  function Join(parts: seq<string>, sep: char): string
    requires |parts| >= 1
    decreases |parts|
  {
    if |parts| == 1 then parts[0] else parts[0] + [sep] + Join(parts[1..], sep)
  }

  /** Splitting a string and gluing the pieces back gives the string. */
  lemma {:induction false} JoinSplit(s: string, sep: char)
    ensures Join(Split(s, sep), sep) == s
    decreases |s|
  {
    if |s| > 0 {
      JoinSplit(s[1..], sep);
      var rest := Split(s[1..], sep);
      if s[0] == sep {
        assert Split(s, sep)[1..] == rest;
      } else {
        var parts := Split(s, sep);
        if |rest| == 1 {
          assert parts == [[s[0]] + rest[0]];
        } else {
          assert parts[1..] == rest[1..];
          assert Join(rest, sep) == rest[0] + [sep] + Join(rest[1..], sep);
          assert Join(parts, sep) == [s[0]] + rest[0] + [sep] + Join(rest[1..], sep);
        }
        assert Join(parts, sep) == [s[0]] + Join(rest, sep);
        assert s == [s[0]] + s[1..];
      }
    }
  }

  /** A separator-free string is a single piece. */
  lemma {:induction false} SplitNoSep(s: string, sep: char)
    requires sep !in s
    ensures Split(s, sep) == [s]
    decreases |s|
  {
    if |s| > 0 {
      assert sep !in s[1..];
      SplitNoSep(s[1..], sep);
      assert s == [s[0]] + s[1..];
    }
  }

  /** A separator-free head followed by a separator is the first piece. */
  lemma {:induction false} SplitCons(p: string, sep: char, rest: string)
    requires sep !in p
    ensures Split(p + [sep] + rest, sep) == [p] + Split(rest, sep)
    decreases |p|
  {
    var s := p + [sep] + rest;
    if |p| == 0 {
      assert s[0] == sep && s[1..] == rest;
    } else {
      assert sep !in p[1..];
      SplitCons(p[1..], sep, rest);
      assert s[0] == p[0] && s[1..] == p[1..] + [sep] + rest;
      assert p == [p[0]] + p[1..];
    }
  }

  /** Gluing separator-free pieces and splitting again gives the pieces:
      `explode` inverts `implode`. */
  lemma {:induction false} SplitJoin(parts: seq<string>, sep: char)
    requires |parts| >= 1
    requires forall i :: 0 <= i < |parts| ==> sep !in parts[i]
    ensures Split(Join(parts, sep), sep) == parts
    decreases |parts|
  {
    if |parts| == 1 {
      SplitNoSep(parts[0], sep);
    } else {
      SplitJoin(parts[1..], sep);
      SplitCons(parts[0], sep, Join(parts[1..], sep));
      assert parts == [parts[0]] + parts[1..];
    }
  }

  /** The last piece of `explode(sep, s)`, as `$a[array_key_last($a)]`. */
  function LastSegment(s: string, sep: char): (r: string)
    ensures sep !in r
  {
    var parts := Split(s, sep);
    parts[|parts| - 1]
  }

  /** Only what follows the last separator is kept. */
  lemma LastSegmentOfQualified(prefix: string, sep: char, name: string)
    requires sep !in name
    ensures LastSegment(prefix + [sep] + name, sep) == name
    ensures LastSegment(name, sep) == name
  {
    var s := prefix + [sep] + name;
    JoinSplit(prefix, sep);
    var pp := Split(prefix, sep);
    SplitNoSep(name, sep);
    SplitJoin(pp + [name], sep);
    JoinAppend(pp, sep, name);
    assert Join(pp + [name], sep) == s;
  }

  lemma {:induction false} JoinAppend(parts: seq<string>, sep: char, last: string)
    requires |parts| >= 1
    ensures Join(parts + [last], sep) == Join(parts, sep) + [sep] + last
    decreases |parts|
  {
    if |parts| == 1 {
      assert (parts + [last])[1..] == [last];
    } else {
      JoinAppend(parts[1..], sep, last);
      assert (parts + [last])[1..] == parts[1..] + [last];
    }
  }

  /** `str_contains(s, n)`: `n` occurs somewhere in `s`. */
  predicate Contains(s: string, n: string)
    decreases |s|
  {
    n <= s || (|s| > 0 && Contains(s[1..], n))
  }

  /** `str_replace(n, r, s)`: a left-to-right scan replacing each
      non-overlapping occurrence of `n`; an empty needle changes nothing. */
  function ReplaceAll(s: string, n: string, r: string): string
    decreases |s|
  {
    if |n| == 0 || |s| < |n| then s
    else if n <= s then r + ReplaceAll(s[|n|..], n, r)
    else [s[0]] + ReplaceAll(s[1..], n, r)
  }

  /** No proper prefix of `n` is also a suffix of it, so two occurrences of
      `n` can never overlap. */
  predicate Borderless(n: string) {
    forall k :: 0 < k < |n| ==> n[..k] != n[|n| - k..]
  }

  /** A needle whose first character never recurs has no border. */
  lemma FirstCharUniqueBorderless(n: string)
    requires |n| > 0 && n[0] !in n[1..]
    ensures Borderless(n)
  {
    forall k | 0 < k < |n|
      ensures n[..k] != n[|n| - k..]
    {
      assert n[..k][0] == n[0];
      assert n[|n| - k..][0] == n[|n| - k];
      assert n[|n| - k] in n[1..];
    }
  }

  /** A string with no occurrence of the needle is left alone. */
  lemma {:induction false} ReplaceAbsent(s: string, n: string, r: string)
    requires !Contains(s, n)
    ensures ReplaceAll(s, n, r) == s
    decreases |s|
  {
    if |n| > 0 && |s| >= |n| {
      ReplaceAbsent(s[1..], n, r);
      assert s == [s[0]] + s[1..];
    }
  }

  /** Every explicit occurrence of a borderless needle is replaced, and the
      text on either side is processed independently. */
  lemma {:induction false} ReplaceSplits(a: string, n: string, b: string, r: string)
    requires |n| > 0 && Borderless(n)
    ensures ReplaceAll(a + n + b, n, r) == ReplaceAll(a, n, r) + r + ReplaceAll(b, n, r)
    decreases |a|
  {
    var s := a + n + b;
    if |a| == 0 {
      assert s == n + b;
      assert n <= s && s[|n|..] == b;
    } else if |a| < |n| {
      NoOverlap(a, n, b);
      ReplaceSplitsShort(a, n, b, r);
    } else if n <= a {
      assert n <= s;
      assert s[|n|..] == a[|n|..] + n + b;
      ReplaceSplits(a[|n|..], n, b, r);
    } else {
      assert !(n <= s);
      assert s[1..] == a[1..] + n + b;
      ReplaceSplits(a[1..], n, b, r);
    }
  }

  /** A borderless needle cannot start inside a shorter text placed in
      front of it. */
  lemma NoOverlap(a: string, n: string, b: string)
    requires 0 < |a| < |n| && Borderless(n)
    ensures !(n <= a + n + b)
  {
    var s := a + n + b;
    if n <= s {
      OverlapGivesBorder(a, n, b);
      assert false;
    }
  }

  lemma OverlapGivesBorder(a: string, n: string, b: string)
    requires 0 < |a| < |n| && n <= a + n + b
    ensures n[..|n| - |a|] == n[|a|..]
  {
    var s := a + n + b;
    assert s[|a|..|a| + |n|] == n;
    assert n[|a|..] == s[|a|..|n|];
  }

  lemma {:induction false} ReplaceSplitsShort(a: string, n: string, b: string, r: string)
    requires 0 < |a| < |n| && Borderless(n)
    requires !(n <= a + n + b)
    ensures ReplaceAll(a + n + b, n, r) == ReplaceAll(a, n, r) + r + ReplaceAll(b, n, r)
    decreases |a|
  {
    var s := a + n + b;
    var tail := ReplaceAll(b, n, r);
    var rest := ReplaceAll(a[1..] + n + b, n, r);
    assert s[0] == a[0] && s[1..] == a[1..] + n + b;
    assert ReplaceAll(s, n, r) == [a[0]] + rest;
    if |a| == 1 {
      assert a[1..] + n + b == n + b;
      ReplaceHead(n, b, r);
    } else {
      NoOverlap(a[1..], n, b);
      ReplaceSplitsShort(a[1..], n, b, r);
    }
    assert rest == a[1..] + (r + tail);
    assert ReplaceAll(a, n, r) == a;
    HeadConcat(a, r + tail);
  }

  lemma HeadConcat(a: string, t: string)
    requires |a| > 0
    ensures [a[0]] + (a[1..] + t) == a + t
  {
    assert a == [a[0]] + a[1..];
  }

  /** A text that starts with the needle has it replaced first. */
  lemma ReplaceHead(n: string, b: string, r: string)
    requires |n| > 0
    ensures ReplaceAll(n + b, n, r) == r + ReplaceAll(b, n, r)
  {
    assert n <= n + b && (n + b)[|n|..] == b;
  }

  /** Replacing cannot invent a prefix made of characters the replacement
      never contains: such a prefix of the result is a prefix of the input. */
  lemma {:induction false} ReplaceKeepsForeignPrefix(s: string, n: string, r: string, p: string)
    requires |r| > 0
    requires forall i :: 0 <= i < |p| ==> p[i] !in r
    requires p <= ReplaceAll(s, n, r)
    ensures p <= s
    decreases |s|
  {
    if |p| > 0 && |n| > 0 && |s| >= |n| {
      if n <= s {
        ForeignPrefixHead(s, n, r, p);
        assert false;
      } else {
        var rest := ReplaceAll(s[1..], n, r);
        assert ReplaceAll(s, n, r) == [s[0]] + rest;
        assert p[1..] <= rest;
        ReplaceKeepsForeignPrefix(s[1..], n, r, p[1..]);
      }
    }
  }

  lemma ForeignPrefixHead(s: string, n: string, r: string, p: string)
    requires 0 < |n| <= |s| && n <= s && |r| > 0 && |p| > 0
    requires p <= ReplaceAll(s, n, r)
    ensures p[0] == r[0]
  {
    assert ReplaceAll(s, n, r) == r + ReplaceAll(s[|n|..], n, r);
  }

  /** A replacement no longer than the needle never lengthens the string,
      and strictly shortens it when the needle occurs. */
  lemma {:induction false} ReplaceShrinks(s: string, n: string, r: string)
    requires |r| < |n|
    ensures |ReplaceAll(s, n, r)| <= |s|
    ensures Contains(s, n) ==> |ReplaceAll(s, n, r)| < |s|
    decreases |s|
  {
    if |s| >= |n| {
      if n <= s {
        ReplaceShrinks(s[|n|..], n, r);
      } else {
        ReplaceShrinks(s[1..], n, r);
      }
    } else if Contains(s, n) {
      ContainsFits(s, n);
    }
  }

  /** `str_contains` with a one-character needle is membership. */
  lemma {:induction false} ContainsChar(s: string, c: char)
    ensures Contains(s, [c]) <==> c in s
    decreases |s|
  {
    if |s| > 0 {
      ContainsChar(s[1..], c);
      assert c in s <==> s[0] == c || c in s[1..] by {
        assert s == [s[0]] + s[1..];
      }
    }
  }

  /** A string holding the separator falls into at least two pieces. */
  lemma SplitHasTwo(s: string, sep: char)
    requires sep in s
    ensures |Split(s, sep)| >= 2
  {
    SplitLength(s, sep);
    OccurrencesPositive(s, sep);
  }

  lemma {:induction false} ContainsFits(s: string, n: string)
    requires Contains(s, n)
    ensures |n| <= |s|
    decreases |s|
  {
    if !(n <= s) {
      ContainsFits(s[1..], n);
    }
  }

  predicate NoDuplicates<T(==)>(s: seq<T>) {
    forall i, j :: 0 <= i < j < |s| ==> s[i] != s[j]
  }
}
