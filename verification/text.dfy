/** String primitives the source relies on: Python slicing, `str.split`,
    decimal rendering of integers, and the upper-case fold behind a
    case-insensitive prefix lookup. */
module Text {
  import opened Base

  /** Python's slice `s[:n]`: the first `n` characters, or all of `s`. */
  function Take(s: string, n: nat): (r: string)
    ensures r <= s
    ensures |r| == if |s| <= n then |s| else n
  {
    if |s| <= n then s else s[..n]
  }

  // ---------------------------------------------------------------------
  // Searching and splitting

  /** `sep` occurs in `s` starting at index `j`. */
  predicate OccursAt(s: string, sep: string, j: nat)
  {
    j + |sep| <= |s| && s[j..j + |sep|] == sep
  }

  ghost predicate Contains(s: string, sep: string)
  {
    exists j: nat :: OccursAt(s, sep, j)
  }

  /** The first index at or after `from` where `sep` occurs in `s`. */
  function IndexOfFrom(s: string, sep: string, from: nat): (r: Option<nat>)
    requires |sep| > 0
    ensures r.Some? ==> from <= r.value && OccursAt(s, sep, r.value)
    ensures r.Some? ==> forall j: nat :: from <= j < r.value ==> !OccursAt(s, sep, j)
    ensures r.None? ==> forall j: nat :: from <= j ==> !OccursAt(s, sep, j)
    decreases |s| - from
  {
    if from + |sep| > |s| then None
    else if s[from..from + |sep|] == sep then Some(from)
    else IndexOfFrom(s, sep, from + 1)
  }

  /** Python's `sep.join(parts)`. */
  function Join(parts: seq<string>, sep: string): string
  {
    if |parts| == 0 then ""
    else if |parts| == 1 then parts[0]
    else parts[0] + sep + Join(parts[1..], sep)
  }

  lemma PrefixBeforeFirstOccurrence(s: string, sep: string, i: nat)
    requires |sep| > 0 && i <= |s|
    requires forall j: nat :: j < i ==> !OccursAt(s, sep, j)
    ensures !Contains(s[..i], sep)
  {
    forall j: nat | OccursAt(s[..i], sep, j)
      ensures false
    {
      assert s[..i][j..j + |sep|] == s[j..j + |sep|];
      assert OccursAt(s, sep, j);
    }
  }

  /** Python's `s.split(sep)` for a non-empty separator: the pieces between
      successive non-overlapping occurrences, scanned left to right. Joining
      the pieces back with `sep` restores `s`, and no piece contains `sep`. */
  function Split(s: string, sep: string): (parts: seq<string>)
    requires |sep| > 0
    ensures |parts| >= 1
    ensures Join(parts, sep) == s
    ensures forall k :: 0 <= k < |parts| ==> !Contains(parts[k], sep)
    decreases |s|
  {
    match IndexOfFrom(s, sep, 0)
    case None =>
      [s]
    case Some(i) =>
      PrefixBeforeFirstOccurrence(s, sep, i);
      var rest := Split(s[i + |sep|..], sep);
      assert s == s[..i] + sep + s[i + |sep|..] by {
        assert s[i..i + |sep|] == sep;
      }
      [s[..i]] + rest
  }

  /** An occurrence starts with the separator's first character. */
  lemma OccursAtHead(s: string, sep: string, j: nat)
    requires |sep| > 0
    ensures OccursAt(s, sep, j) ==> j < |s| && s[j] == sep[0]
  {
    if OccursAt(s, sep, j) {
      assert s[j..j + |sep|][0] == s[j];
    }
  }

  /** When the first character of `sep` appears nowhere else, `a + sep + b`
      splits into exactly `[a, b]`. */
  lemma {:induction false} SplitAroundUniqueMarker(a: string, sep: string, b: string)
    requires |sep| > 0
    requires sep[0] !in a && sep[0] !in b && sep[0] !in sep[1..]
    ensures Split(a + sep + b, sep) == [a, b]
  {
    var s := a + sep + b;
    assert s[|a|..|a| + |sep|] == sep;
    assert OccursAt(s, sep, |a|);
    forall j: nat | j != |a|
      ensures !OccursAt(s, sep, j)
    {
      OccursAtHead(s, sep, j);
      if j < |a| {
        assert s[j] == a[j];
      } else if j < |a| + |sep| {
        assert s[j] == sep[1..][j - |a| - 1];
      } else if j < |s| {
        assert s[j] == b[j - |a| - |sep|];
      }
    }
    assert IndexOfFrom(s, sep, 0) == Some(|a|);
    assert s[..|a|] == a;
    assert s[|a| + |sep|..] == b;
    forall j: nat
      ensures !OccursAt(b, sep, j)
    {
      OccursAtHead(b, sep, j);
    }
    assert IndexOfFrom(b, sep, 0).None?;
  }

  /** The last piece of a join is a suffix of the joined text. */
  lemma {:induction false} JoinEndsWithLast(parts: seq<string>, sep: string)
    requires |parts| >= 1
    ensures |parts[|parts| - 1]| <= |Join(parts, sep)|
    ensures Join(parts, sep)[|Join(parts, sep)| - |parts[|parts| - 1]|..] == parts[|parts| - 1]
    decreases |parts|
  {
    if |parts| > 1 {
      JoinEndsWithLast(parts[1..], sep);
      assert parts[1..][|parts[1..]| - 1] == parts[|parts| - 1];
    }
  }

  // ---------------------------------------------------------------------
  // Decimal rendering

  predicate IsDigits(s: string)
  {
    forall k :: 0 <= k < |s| ==> '0' <= s[k] <= '9'
  }

  function DigitChar(d: nat): (c: char)
    requires d < 10
  {
    ('0' as int + d) as char
  }

  function DigitValue(c: char): nat
    requires '0' <= c <= '9'
  {
    c as int - '0' as int
  }

  /** Python's `str(n)` for a non-negative integer: decimal digits, most
      significant first, with no leading zero. */
  function Decimal(n: nat): (r: string)
    ensures |r| >= 1 && IsDigits(r)
    ensures r[0] == '0' ==> n == 0
    ensures |r| == 1 <==> n < 10
    decreases n
  {
    if n < 10 then [DigitChar(n)] else Decimal(n / 10) + [DigitChar(n % 10)]
  }

  /** Reading a digit string back as a number. */
  function ParseDecimal(s: string): nat
    requires IsDigits(s)
  {
    if |s| == 0 then 0 else ParseDecimal(s[..|s| - 1]) * 10 + DigitValue(s[|s| - 1])
  }

  /** Rendering a number and reading it back gives the number again. */
  lemma {:induction false} DecimalRoundTrip(n: nat)
    ensures ParseDecimal(Decimal(n)) == n
    decreases n
  {
    if n >= 10 {
      var d := Decimal(n / 10);
      assert (d + [DigitChar(n % 10)])[..|d|] == d;
      DecimalRoundTrip(n / 10);
    }
  }

  /** Python's `str(i)` for any integer: a minus sign before negative values. */
  function IntDecimal(i: int): (r: string)
    ensures i >= 0 ==> r == Decimal(i)
    ensures i < 0 ==> r == "-" + Decimal(-i)
  {
    if i < 0 then "-" + Decimal(-i) else Decimal(i)
  }

  // ---------------------------------------------------------------------
  // Whitespace trimming

  /** Python's `str.isspace` on one character: the characters `str.strip()`
      removes from both ends. */
  predicate IsSpace(c: char)
  {
    || c == ' ' || '\t' <= c <= '\r'
    || '\U{1C}' <= c <= '\U{1F}'
    || c == '\U{85}' || c == '\U{A0}' || c == '\U{1680}'
    || '\U{2000}' <= c <= '\U{200A}'
    || c == '\U{2028}' || c == '\U{2029}' || c == '\U{202F}' || c == '\U{205F}' || c == '\U{3000}'
  }

  /** How many whitespace characters open `s`. */
  function LeadingSpaces(s: string): (n: nat)
    ensures n <= |s|
    ensures forall k :: 0 <= k < n ==> IsSpace(s[k])
    ensures n < |s| ==> !IsSpace(s[n])
    decreases |s|
  {
    if |s| == 0 || !IsSpace(s[0]) then 0
    else
      var n := LeadingSpaces(s[1..]);
      assert forall k :: 1 <= k < n + 1 ==> s[k] == s[1..][k - 1];
      n + 1
  }

  /** How many whitespace characters close `s`. */
  function TrailingSpaces(s: string): (n: nat)
    ensures n <= |s|
    ensures forall k :: |s| - n <= k < |s| ==> IsSpace(s[k])
    ensures n < |s| ==> !IsSpace(s[|s| - n - 1])
    decreases |s|
  {
    if |s| == 0 || !IsSpace(s[|s| - 1]) then 0
    else
      var front := s[..|s| - 1];
      var n := TrailingSpaces(front);
      assert forall k :: |s| - n - 1 <= k < |s| - 1 ==> s[k] == front[k];
      n + 1
  }

  /** `r` sits in `s` at index `i` with only whitespace around it. */
  ghost predicate Padding(s: string, r: string, i: nat)
  {
    && i + |r| <= |s| && s[i..i + |r|] == r
    && (forall k :: 0 <= k < i ==> IsSpace(s[k]))
    && (forall k :: i + |r| <= k < |s| ==> IsSpace(s[k]))
  }

  /** Python's `str.strip()`: `s` without its leading and trailing
      whitespace. The result is empty exactly when `s` is all whitespace,
      and otherwise begins and ends with a non-space character. */
  function Trim(s: string): (r: string)
    ensures r == "" <==> forall k :: 0 <= k < |s| ==> IsSpace(s[k])
    ensures r != "" ==> !IsSpace(r[0]) && !IsSpace(r[|r| - 1])
    ensures exists i :: Padding(s, r, i)
  {
    var i := LeadingSpaces(s);
    if i == |s| then
      assert Padding(s, "", 0);
      ""
    else
      var t := TrailingSpaces(s);
      assert !IsSpace(s[i]);
      var r := s[i..|s| - t];
      assert r[0] == s[i] && r[|r| - 1] == s[|s| - t - 1];
      assert Padding(s, r, i);
      r
  }

  /** Trimming removes exactly the whitespace around a core that begins and
      ends with a non-space character. */
  lemma TrimPadded(pre: string, core: string, post: string)
    requires forall k :: 0 <= k < |pre| ==> IsSpace(pre[k])
    requires forall k :: 0 <= k < |post| ==> IsSpace(post[k])
    requires core != "" ==> !IsSpace(core[0]) && !IsSpace(core[|core| - 1])
    ensures Trim(pre + core + post) == core
  {
    var s := pre + core + post;
    assert s[|pre|..|pre| + |core|] == core;
    assert forall k :: 0 <= k < |pre| ==> s[k] == pre[k];
    assert forall k :: |pre| + |core| <= k < |s| ==> s[k] == post[k - |pre| - |core|];
    if core == "" {
      assert forall k :: 0 <= k < |s| ==> IsSpace(s[k]);
    } else {
      var r := Trim(s);
      assert !IsSpace(s[|pre|]);
      var i :| Padding(s, r, i);
      PaddingUnique(s, r, i, core, |pre|);
    }
  }

  /** Two non-empty cores with non-space ends and only whitespace around
      them are the same slice of `s`. */
  lemma PaddingUnique(s: string, r: string, i: nat, core: string, a: nat)
    requires Padding(s, r, i) && r != "" && !IsSpace(r[0]) && !IsSpace(r[|r| - 1])
    requires core != "" && !IsSpace(core[0]) && !IsSpace(core[|core| - 1])
    requires Padding(s, core, a)
    ensures r == core
  {
    assert s[i] == r[0] && s[i + |r| - 1] == r[|r| - 1];
    assert s[a] == core[0] && s[a + |core| - 1] == core[|core| - 1];
    assert i == a;
    assert |r| == |core|;
  }

  // ---------------------------------------------------------------------
  // Case-insensitive prefix match

  /** The database's upper-case mapping, modelled for ASCII and for the basic
      Cyrillic alphabet (the catalogue is in Russian). */
  function UpperChar(c: char): char
  {
    if 'a' <= c <= 'z' then (c as int - 32) as char
    else if 0x430 <= c as int <= 0x44F then (c as int - 0x20) as char
    else if c as int == 0x451 then 0x401 as char
    else c
  }

  function Upper(s: string): (r: string)
    ensures |r| == |s|
    ensures forall k :: 0 <= k < |s| ==> r[k] == UpperChar(s[k])
  {
    seq(|s|, k requires 0 <= k < |s| => UpperChar(s[k]))
  }

  lemma UpperIdempotent(s: string)
    ensures Upper(Upper(s)) == Upper(s)
  {
    forall k | 0 <= k < |s|
      ensures UpperChar(UpperChar(s[k])) == UpperChar(s[k])
    {
    }
  }

  lemma UpperPrefix(p: string, s: string)
    requires p <= s
    ensures Upper(p) <= Upper(s)
  {
  }

  /** Django's `istartswith`: `s` starts with `v`, ignoring letter case. */
  predicate IStartsWith(s: string, v: string)
  {
    Upper(v) <= Upper(s)
  }
}
