/**
 * The Python string operations that main.py is built from, stated on `seq<char>`:
 * `sep in s`, `s.startswith(p)`, `s.split(sep)`, `sep.join(parts)`, `s.strip()`
 * and `str(n)` for a natural number.
 */
module PyStrings {
  import opened Wrappers

  /** `sep` occurs in `s` starting at index `i`. */
  predicate OccursAt(s: string, sep: string, i: nat)
  {
    i + |sep| <= |s| && s[i..i + |sep|] == sep
  }

  /** Python's `sep in s`. */
  predicate Contains(s: string, sep: string)
  {
    exists i: nat :: i <= |s| && OccursAt(s, sep, i)
  }

  /** `i` is the leftmost occurrence of `sep` in `s`. */
  predicate FirstAt(s: string, sep: string, i: nat)
  {
    OccursAt(s, sep, i) && forall j: nat :: j < i ==> !OccursAt(s, sep, j)
  }

  /** Python's `s.startswith(p)`. */
  predicate StartsWith(s: string, p: string)
  {
    |p| <= |s| && s[..|p|] == p
  }

  /** The leftmost occurrence of `sep` in `s` at or after `k`, as `str.find` scans. */
  function IndexOfFrom(s: string, sep: string, k: nat): Option<nat>
    requires k <= |s|
    decreases |s| - k
  {
    if k + |sep| > |s| then None
    else if s[k..k + |sep|] == sep then Some(k)
    else IndexOfFrom(s, sep, k + 1)
  }

  /** The scan from `k` finds the first occurrence at or after `k`, or reports that there is none. */
  lemma {:induction false} IndexOfFromSpec(s: string, sep: string, k: nat)
    requires k <= |s|
    ensures var r := IndexOfFrom(s, sep, k);
      (r.Some? ==> k <= r.value && OccursAt(s, sep, r.value)) &&
      (r.Some? ==> forall j: nat :: k <= j < r.value ==> !OccursAt(s, sep, j)) &&
      (r.None? ==> forall j: nat :: k <= j ==> !OccursAt(s, sep, j))
    decreases |s| - k
  {
    if k + |sep| <= |s| && s[k..k + |sep|] != sep {
      IndexOfFromSpec(s, sep, k + 1);
    }
  }

  /** The leftmost occurrence of `sep` in `s`, if any. */
  function IndexOf(s: string, sep: string): Option<nat>
  {
    IndexOfFrom(s, sep, 0)
  }

  /** IndexOf finds the leftmost occurrence, and finds none exactly when `sep` does not occur. */
  lemma IndexOfSpec(s: string, sep: string)
    ensures IndexOf(s, sep).Some? ==> FirstAt(s, sep, IndexOf(s, sep).value)
    ensures IndexOf(s, sep).None? <==> !Contains(s, sep)
  {
    IndexOfFromSpec(s, sep, 0);
    if IndexOf(s, sep).Some? {
      assert IndexOf(s, sep).value <= |s|;
    }
  }

  /** The leftmost occurrence, once known, is what IndexOf finds. */
  lemma IndexOfFirst(s: string, sep: string, i: nat)
    requires FirstAt(s, sep, i)
    ensures IndexOf(s, sep) == Some(i)
  {
    IndexOfSpec(s, sep);
    assert i <= |s| && OccursAt(s, sep, i);
  }

  /**
   * Python's `s.split(sep)` for a non-empty separator: the pieces between the
   * leftmost non-overlapping occurrences of `sep`, always at least one piece.
   */
  function Split(s: string, sep: string): (parts: seq<string>)
    requires sep != []
    ensures |parts| >= 1
    decreases |s|
  {
    IndexOfSpec(s, sep);
    match IndexOf(s, sep)
    case None => [s]
    case Some(i) => [s[..i]] + Split(s[i + |sep|..], sep)
  }

  /** Python's `sep.join(parts)`. */
  function Join(parts: seq<string>, sep: string): string
    decreases |parts|
  {
    if |parts| == 0 then ""
    else if |parts| == 1 then parts[0]
    else parts[0] + sep + Join(parts[1..], sep)
  }

  /**
   * Splitting what was joined with a one-character separator gives back the
   * parts, provided no part holds that character.
   */
  lemma {:induction false} JoinSplit(parts: seq<string>, c: char)
    requires |parts| >= 1
    requires forall k, j :: 0 <= k < |parts| && 0 <= j < |parts[k]| ==> parts[k][j] != c
    ensures Split(Join(parts, [c]), [c]) == parts
    decreases |parts|
  {
    var head := parts[0];
    MissingFirstChar(head, [c]);
    if |parts| == 1 {
      SplitNone(head, [c]);
    } else {
      var tail := parts[1..];
      var text := Join(parts, [c]);
      assert text == head + [c] + Join(tail, [c]);
      assert text[|head|..|head| + 1] == [c];
      forall k | 0 <= k < |head|
        ensures text[k] != c
      {
        assert text[k] == head[k];
      }
      FirstByFirstChar(text, [c], |head|);
      SplitAt(text, [c], |head|);
      assert text[..|head|] == head;
      assert text[|head| + 1..] == Join(tail, [c]);
      forall k, j | 0 <= k < |tail| && 0 <= j < |tail[k]|
        ensures tail[k][j] != c
      {
        assert tail[k] == parts[k + 1];
      }
      JoinSplit(tail, c);
    }
  }

  /** Splitting at the leftmost occurrence: the first piece and the split of the rest. */
  lemma SplitAt(s: string, sep: string, i: nat)
    requires sep != [] && FirstAt(s, sep, i)
    ensures Split(s, sep) == [s[..i]] + Split(s[i + |sep|..], sep)
  {
    IndexOfFirst(s, sep, i);
  }

  /** With no occurrence of `sep`, the string is its own single piece. */
  lemma SplitNone(s: string, sep: string)
    requires sep != [] && !Contains(s, sep)
    ensures Split(s, sep) == [s]
  {
    IndexOfSpec(s, sep);
  }

  /** Joining the pieces with the separator gives back the string. */
  lemma {:induction false} SplitJoin(s: string, sep: string)
    requires sep != []
    ensures Join(Split(s, sep), sep) == s
    decreases |s|
  {
    IndexOfSpec(s, sep);
    match IndexOf(s, sep)
    case None =>
    case Some(i) =>
      var rest := s[i + |sep|..];
      var tail := Split(rest, sep);
      SplitJoin(rest, sep);
      assert Split(s, sep) == [s[..i]] + tail;
      assert ([s[..i]] + tail)[1..] == tail;
      assert s == s[..i] + sep + rest by {
        assert s[i..i + |sep|] == sep;
        assert s == s[..i] + s[i..i + |sep|] + s[i + |sep|..];
      }
  }

  /** No occurrence of `sep` before index `i` means none inside `s[..i]`. */
  lemma PrefixFree(s: string, sep: string, i: nat)
    requires sep != [] && i <= |s|
    requires forall j: nat :: j < i ==> !OccursAt(s, sep, j)
    ensures !Contains(s[..i], sep)
  {
    forall j: nat | j <= i
      ensures !OccursAt(s[..i], sep, j)
    {
      if j + |sep| <= i {
        assert s[..i][j..j + |sep|] == s[j..j + |sep|];
        assert !OccursAt(s, sep, j);
      }
    }
  }

  /** A prefix of a string free of `sep` is free of `sep`. */
  lemma PrefixOfFree(s: string, sep: string, n: nat)
    requires sep != [] && n <= |s| && !Contains(s, sep)
    ensures !Contains(s[..n], sep)
  {
    PrefixFree(s, sep, n);
  }

  /** No piece of a split contains the separator. */
  lemma {:induction false} SplitPartsFree(s: string, sep: string)
    requires sep != []
    ensures forall k :: 0 <= k < |Split(s, sep)| ==> !Contains(Split(s, sep)[k], sep)
    decreases |s|
  {
    IndexOfSpec(s, sep);
    match IndexOf(s, sep)
    case None =>
    case Some(i) =>
      var rest := s[i + |sep|..];
      var tail := Split(rest, sep);
      SplitPartsFree(rest, sep);
      PrefixFree(s, sep, i);
      var parts := [s[..i]] + tail;
      assert Split(s, sep) == parts;
      forall k | 0 < k < |parts|
        ensures !Contains(parts[k], sep)
      {
        assert parts[k] == tail[k - 1];
      }
  }

  /** There is more than one piece exactly when the separator occurs. */
  lemma SplitCount(s: string, sep: string)
    requires sep != []
    ensures |Split(s, sep)| >= 2 <==> Contains(s, sep)
  {
    IndexOfSpec(s, sep);
  }

  /**
   * The first piece of a split is a prefix free of `sep` that ends where the
   * string ends or where `sep` first occurs.
   */
  lemma SplitHead(s: string, sep: string)
    requires sep != []
    ensures var h := Split(s, sep)[0];
      |h| <= |s| && s[..|h|] == h && !Contains(h, sep) &&
      (|h| == |s| || FirstAt(s, sep, |h|))
  {
    IndexOfSpec(s, sep);
    match IndexOf(s, sep)
    case None =>
      assert Split(s, sep)[0] == s;
    case Some(j) =>
      assert Split(s, sep)[0] == s[..j];
      PrefixFree(s, sep, j);
  }

  /** A string none of whose characters starts `sep` does not contain `sep`. */
  lemma MissingFirstChar(s: string, sep: string)
    requires sep != []
    requires forall k :: 0 <= k < |s| ==> s[k] != sep[0]
    ensures !Contains(s, sep)
  {
    forall j: nat | j <= |s|
      ensures !OccursAt(s, sep, j)
    {
      if j + |sep| <= |s| {
        assert s[j..j + |sep|][0] == s[j];
      }
    }
  }

  /** An occurrence preceded by no character that starts `sep` is the leftmost one. */
  lemma FirstByFirstChar(s: string, sep: string, i: nat)
    requires sep != [] && OccursAt(s, sep, i)
    requires forall k :: 0 <= k < i ==> s[k] != sep[0]
    ensures FirstAt(s, sep, i)
  {
    forall j: nat | j < i
      ensures !OccursAt(s, sep, j)
    {
      if j + |sep| <= |s| {
        assert s[j..j + |sep|][0] == s[j];
      }
    }
  }

  // ---------------------------------------------------------------- strip

  /** Python's `str.isspace` for one character (what the argument-less `strip` removes). */
  predicate IsWhitespace(c: char)
  {
    ('\t' <= c <= '\r') || ('\U{1C}' <= c <= ' ') || c == '\U{85}' || c == '\U{A0}' ||
    c == '\U{1680}' || ('\U{2000}' <= c <= '\U{200A}') || c == '\U{2028}' ||
    c == '\U{2029}' || c == '\U{202F}' || c == '\U{205F}' || c == '\U{3000}'
  }

  /** Every character of `s` is whitespace (the empty string included). */
  predicate IsBlank(s: string)
  {
    forall k :: 0 <= k < |s| ==> IsWhitespace(s[k])
  }

  /** Python's `s.lstrip()`: drops the longest all-whitespace prefix. */
  function StripLeading(s: string): (r: string)
    ensures |r| <= |s| && r == s[|s| - |r|..]
    ensures IsBlank(s[..|s| - |r|])
    ensures r == [] || !IsWhitespace(r[0])
    decreases |s|
  {
    if |s| > 0 && IsWhitespace(s[0]) then
      var r := StripLeading(s[1..]);
      BlankCons(s, |s| - |r|);
      assert s[1..][|s| - 1 - |r|..] == s[|s| - |r|..];
      r
    else s
  }

  /** A blank text after a leading whitespace character is still blank. */
  lemma BlankCons(s: string, n: nat)
    requires 0 < n <= |s| && IsWhitespace(s[0]) && IsBlank(s[1..][..n - 1])
    ensures IsBlank(s[..n])
  {
    forall k | 0 < k < n
      ensures IsWhitespace(s[..n][k])
    {
      assert s[..n][k] == s[1..][..n - 1][k - 1];
    }
  }

  /** A blank text before a trailing whitespace character is still blank. */
  lemma BlankSnoc(s: string, n: nat)
    requires n < |s| && IsWhitespace(s[|s| - 1]) && IsBlank(s[..|s| - 1][n..])
    ensures IsBlank(s[n..])
  {
    forall k | 0 <= k < |s| - 1 - n
      ensures IsWhitespace(s[n..][k])
    {
      assert s[n..][k] == s[..|s| - 1][n..][k];
    }
  }

  /** Python's `s.rstrip()`: drops the longest all-whitespace suffix. */
  function StripTrailing(s: string): (r: string)
    ensures |r| <= |s| && r == s[..|r|]
    ensures IsBlank(s[|r|..])
    ensures r == [] || !IsWhitespace(r[|r| - 1])
    decreases |s|
  {
    if |s| > 0 && IsWhitespace(s[|s| - 1]) then
      var r := StripTrailing(s[..|s| - 1]);
      BlankSnoc(s, |r|);
      assert s[..|s| - 1][..|r|] == s[..|r|];
      r
    else s
  }

  /** Python's `s.strip()`. */
  function Strip(s: string): string
  {
    StripTrailing(StripLeading(s))
  }

  /** `s.strip() == ''` holds exactly for the blank strings. */
  lemma StripEmptyIffBlank(s: string)
    ensures Strip(s) == [] <==> IsBlank(s)
  {
    var t := StripLeading(s);
    assert s == s[..|s| - |t|] + t;
    if Strip(s) == [] {
      assert t[0..] == t;
    }
  }

  // ---------------------------------------------------------------- str(n)

  /** The decimal digit character for `d`. */
  function DigitChar(d: nat): (c: char)
    requires d < 10
    ensures '0' <= c <= '9' && (c as int) - ('0' as int) == d
  {
    (('0' as int) + d) as char
  }

  /** Python's `str(n)` for a natural number: decimal, no leading zeros. */
  function NatToString(n: nat): (r: string)
    ensures |r| >= 1
    ensures forall k :: 0 <= k < |r| ==> '0' <= r[k] <= '9'
    ensures r[0] == '0' ==> n == 0
    decreases n
  {
    if n < 10 then [DigitChar(n)] else NatToString(n / 10) + [DigitChar(n % 10)]
  }

  /** The value of a string of decimal digits. */
  function DecimalValue(s: string): nat
    requires forall k :: 0 <= k < |s| ==> '0' <= s[k] <= '9'
    decreases |s|
  {
    if s == [] then 0
    else DecimalValue(s[..|s| - 1]) * 10 + ((s[|s| - 1] as int) - ('0' as int))
  }

  /** Reading back `str(n)` gives `n`. */
  lemma {:induction false} DecimalValueOfNatToString(n: nat)
    ensures DecimalValue(NatToString(n)) == n
    decreases n
  {
    if n >= 10 {
      DecimalValueOfNatToString(n / 10);
      var r := NatToString(n);
      assert r[..|r| - 1] == NatToString(n / 10);
    }
  }

  /** Different numbers print differently. */
  lemma NatToStringInjective(a: nat, b: nat)
    requires NatToString(a) == NatToString(b)
    ensures a == b
  {
    DecimalValueOfNatToString(a);
    DecimalValueOfNatToString(b);
  }
}
