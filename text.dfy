/** Optional values: Python's `None` or a value. */
module Wrappers {
  datatype Option<+T> = None | Some(value: T)
}

/**
 * The few `str` operations the organizer relies on, as Python defines them:
 * `lower`, `strip`, `split(sep)`, `startswith`, `endswith`, the substring test
 * `sub in s`, and `str(n)` for a natural number.
 *
 * Case mapping and white space are those of ASCII; see the README for what is
 * left out of Unicode.
 */
module Text {
  import opened Wrappers

  /** Concatenation is associative: a helper that only serves as a hint in `calc` steps. */
  lemma AppendAssoc<T>(x: seq<T>, y: seq<T>, z: seq<T>)
    ensures (x + y) + z == x + (y + z)
  {
  }

  // ---------------------------------------------------------------------------
  // Case

  predicate IsUpper(c: char) {
    'A' <= c <= 'Z'
  }

  /** Lower-cases one ASCII letter; every other character is kept. */
  function LowerChar(c: char): (r: char)
    ensures !IsUpper(r)
    ensures IsUpper(c) ==> r as int == c as int + 32
    ensures !IsUpper(c) ==> r == c
  {
    if IsUpper(c) then (c as int + 32) as char else c
  }

  /**
   * `s.lower()`: the same length, no upper-case letter left, every other
   * character where it was, and each upper-case letter replaced by its lower-case one.
   */
  function Lower(s: string): (r: string)
    ensures |r| == |s|
    ensures forall i :: 0 <= i < |r| ==> !IsUpper(r[i])
    ensures forall i :: 0 <= i < |s| && !IsUpper(s[i]) ==> r[i] == s[i]
    ensures forall i :: 0 <= i < |s| && IsUpper(s[i]) ==> r[i] as int == s[i] as int + 32
  {
    seq(|s|, i requires 0 <= i < |s| => LowerChar(s[i]))
  }

  /** Lower-casing changes nothing exactly when there is no upper-case letter. */
  lemma LowerFixpoint(s: string)
    ensures Lower(s) == s <==> forall i :: 0 <= i < |s| ==> !IsUpper(s[i])
  {
    if forall i :: 0 <= i < |s| ==> !IsUpper(s[i]) {
      assert forall i :: 0 <= i < |s| ==> Lower(s)[i] == s[i];
    }
  }

  lemma LowerIdempotent(s: string)
    ensures Lower(Lower(s)) == Lower(s)
  {
  }

  lemma LowerEmpty(s: string)
    ensures Lower(s) == "" <==> s == ""
  {
  }

  // ---------------------------------------------------------------------------
  // White space

  /** The characters below 0x80 for which `str.isspace()` holds. */
  predicate IsSpace(c: char) {
    c == ' ' || 9 <= c as int <= 13 || 28 <= c as int <= 31
  }

  /** The number of white-space characters `s` starts with. */
  function LeadingSpaces(s: string): (n: nat)
    ensures n <= |s|
  {
    if s != [] && IsSpace(s[0]) then 1 + LeadingSpaces(s[1..]) else 0
  }

  /** The index at which the white space that `s` ends with begins. */
  function TrailingStart(s: string): (n: nat)
    ensures n <= |s|
  {
    if s != [] && IsSpace(s[|s| - 1]) then TrailingStart(s[..|s| - 1]) else |s|
  }

  /** `s.lstrip()`. */
  function StripStart(s: string): string {
    s[LeadingSpaces(s)..]
  }

  /** `s.rstrip()`. */
  function StripEnd(s: string): string {
    s[..TrailingStart(s)]
  }

  /** `s.strip()`. */
  function Strip(s: string): string {
    StripEnd(StripStart(s))
  }

  /** `lstrip` removes exactly the leading white space: all of it, and nothing after it. */
  lemma {:induction false} LeadingSpacesMeaning(s: string)
    ensures forall k :: 0 <= k < LeadingSpaces(s) ==> IsSpace(s[k])
    ensures LeadingSpaces(s) < |s| ==> !IsSpace(s[LeadingSpaces(s)])
  {
    if s != [] && IsSpace(s[0]) {
      var t := s[1..];
      LeadingSpacesMeaning(t);
      var n := LeadingSpaces(t);
      forall k | 0 <= k < n + 1
        ensures IsSpace(s[k])
      {
        if k > 0 {
          assert s[k] == t[k - 1];
        }
      }
      if n + 1 < |s| {
        assert s[n + 1] == t[n];
      }
    }
  }

  /** `rstrip` removes exactly the trailing white space: all of it, and nothing before it. */
  lemma {:induction false} TrailingStartMeaning(s: string)
    ensures forall k :: TrailingStart(s) <= k < |s| ==> IsSpace(s[k])
    ensures TrailingStart(s) > 0 ==> !IsSpace(s[TrailingStart(s) - 1])
  {
    if s != [] && IsSpace(s[|s| - 1]) {
      var t := s[..|s| - 1];
      TrailingStartMeaning(t);
      var n := TrailingStart(t);
      forall k | n <= k < |s|
        ensures IsSpace(s[k])
      {
        if k < |s| - 1 {
          assert s[k] == t[k];
        }
      }
      if n > 0 {
        assert s[n - 1] == t[n - 1];
      }
    }
  }

  /**
   * `s.strip()` is the slice `s[i..j]` that remains once all leading and all
   * trailing white space is removed.
   */
  lemma StripShape(s: string) returns (i: nat, j: nat)
    ensures i <= j <= |s| && Strip(s) == s[i..j]
    ensures forall k :: 0 <= k < i ==> IsSpace(s[k])
    ensures forall k :: j <= k < |s| ==> IsSpace(s[k])
    ensures i < j ==> !IsSpace(s[i]) && !IsSpace(s[j - 1])
  {
    var t := StripStart(s);
    i := LeadingSpaces(s);
    j := i + TrailingStart(t);
    LeadingSpacesMeaning(s);
    TrailingStartMeaning(t);
    assert Strip(s) == t[..j - i] == s[i..j];
    forall k | j <= k < |s|
      ensures IsSpace(s[k])
    {
      assert s[k] == t[k - i];
    }
    if i < j {
      assert s[j - 1] == t[j - 1 - i];
    }
  }

  /** `s.strip()` is empty exactly when `s` is all white space. */
  lemma StripBlank(s: string)
    ensures Strip(s) == "" <==> forall k :: 0 <= k < |s| ==> IsSpace(s[k])
  {
    var i, j := StripShape(s);
  }

  // ---------------------------------------------------------------------------
  // Splitting and joining at a separator

  /** `sep.join(parts)`. */
  function Join(parts: seq<string>, sep: char): string {
    if |parts| == 0 then ""
    else if |parts| == 1 then parts[0]
    else parts[0] + [sep] + Join(parts[1..], sep)
  }

  /** `s.find(c)`: the index of the first `c` in `s`, or -1 when there is none. */
  function IndexOf(s: string, c: char): (r: int)
    ensures -1 <= r < |s|
    ensures r >= 0 ==> s[r] == c
  {
    if s == [] then -1
    else if s[0] == c then 0
    else
      var r := IndexOf(s[1..], c);
      if r < 0 then -1 else r + 1
  }

  /** No `c` comes before the index found, and there is none at all when none is found. */
  lemma {:induction false} IndexOfFirst(s: string, c: char)
    ensures forall k :: 0 <= k < |s| && (IndexOf(s, c) < 0 || k < IndexOf(s, c)) ==> s[k] != c
  {
    if s != [] && s[0] != c {
      var t := s[1..];
      IndexOfFirst(t, c);
      forall k | 1 <= k < |s| && (IndexOf(s, c) < 0 || k < IndexOf(s, c))
        ensures s[k] != c
      {
        assert s[k] == t[k - 1];
      }
    }
  }

  /**
   * `s.split(sep)` for a one-character separator: the piece before the first
   * separator, then the pieces of the rest, so there is always one more piece
   * than separators.
   */
  function Split(s: string, sep: char): (r: seq<string>)
    ensures |r| >= 1
    decreases |s|
  {
    var i := IndexOf(s, sep);
    if i < 0 then [s]
    else [s[..i]] + Split(s[i + 1..], sep)
  }

  /** The first `c` of `s` is at `i` when `s[i]` is one and no earlier character is. */
  lemma IndexOfIs(s: string, c: char, i: nat)
    requires i < |s| && s[i] == c
    requires forall k :: 0 <= k < i ==> s[k] != c
    ensures IndexOf(s, c) == i
  {
    IndexOfFirst(s, c);
    var r := IndexOf(s, c);
    assert r >= 0;
    assert !(r < i);
  }

  /** Splitting at the first separator, at `i`. */
  lemma SplitAt(s: string, sep: char, i: nat)
    requires i < |s| && s[i] == sep
    requires forall k :: 0 <= k < i ==> s[k] != sep
    ensures Split(s, sep) == [s[..i]] + Split(s[i + 1..], sep)
  {
    IndexOfIs(s, sep, i);
  }

  /** No piece contains the separator. */
  lemma {:induction false} SplitPieces(s: string, sep: char)
    ensures forall k :: 0 <= k < |Split(s, sep)| ==> sep !in Split(s, sep)[k]
    decreases |s|
  {
    var i := IndexOf(s, sep);
    IndexOfFirst(s, sep);
    if i < 0 {
      assert Split(s, sep) == [s];
    } else {
      SplitPieces(s[i + 1..], sep);
      var head, rest := s[..i], Split(s[i + 1..], sep);
      forall j | 0 <= j < |head| ensures head[j] != sep {
        assert head[j] == s[j];
      }
      assert Split(s, sep) == [head] + rest;
    }
  }

  /** Joining the pieces gives back the string. */
  lemma {:induction false} JoinSplit(s: string, sep: char)
    ensures Join(Split(s, sep), sep) == s
    decreases |s|
  {
    var i := IndexOf(s, sep);
    if i >= 0 {
      JoinSplit(s[i + 1..], sep);
      var rest := Split(s[i + 1..], sep);
      assert ([s[..i]] + rest)[1..] == rest;
      assert s == s[..i] + [sep] + s[i + 1..];
    }
  }

  /** Splitting undoes joining whenever no part contains the separator. */
  lemma {:induction false} SplitJoin(parts: seq<string>, sep: char)
    requires |parts| >= 1
    requires forall k :: 0 <= k < |parts| ==> sep !in parts[k]
    ensures Split(Join(parts, sep), sep) == parts
  {
    if |parts| == 1 {
      SplitNoSeparator(parts[0], sep);
    } else {
      SplitJoin(parts[1..], sep);
      SplitConcat(parts[0], Join(parts[1..], sep), sep);
      SplitNoSeparator(parts[0], sep);
      assert parts == [parts[0]] + parts[1..];
    }
  }

  lemma SplitNoSeparator(s: string, sep: char)
    requires sep !in s
    ensures Split(s, sep) == [s]
  {
    assert IndexOf(s, sep) < 0;
  }

  /** When `a` has no separator, the one after it is the first of `a + sep + b`. */
  lemma SplitConcatFirst(a: string, b: string, sep: char)
    requires IndexOf(a, sep) < 0
    ensures Split(a + [sep] + b, sep) == [a] + Split(b, sep)
    ensures Split(a, sep) == [a]
  {
    var s := a + [sep] + b;
    IndexOfFirst(a, sep);
    forall k | 0 <= k < |a| ensures s[k] != sep {
      assert s[k] == a[k];
    }
    SplitAt(s, sep, |a|);
    assert s[..|a|] == a && s[|a| + 1..] == b;
  }

  /** When `a` has a separator, its first one is the first of `a + sep + b`. */
  lemma SplitConcatInner(a: string, b: string, sep: char, i: nat)
    requires i == IndexOf(a, sep)
    ensures Split(a + [sep] + b, sep) == [a[..i]] + Split(a[i + 1..] + [sep] + b, sep)
    ensures Split(a, sep) == [a[..i]] + Split(a[i + 1..], sep)
  {
    var s := a + [sep] + b;
    IndexOfFirst(a, sep);
    forall k | 0 <= k < i ensures s[k] != sep {
      assert s[k] == a[k];
    }
    SplitAt(a, sep, i);
    SplitAt(s, sep, i);
    assert s[..i] == a[..i] && s[i + 1..] == a[i + 1..] + [sep] + b;
  }

  /** One step of `SplitConcat`: the first piece of `a`, then what splitting its rest gives. */
  lemma SplitConcatStep(a: string, b: string, sep: char, i: nat)
    requires i == IndexOf(a, sep)
    requires Split(a[i + 1..] + [sep] + b, sep) == Split(a[i + 1..], sep) + Split(b, sep)
    ensures Split(a + [sep] + b, sep) == Split(a, sep) + Split(b, sep)
  {
    var x, y, z := [a[..i]], Split(a[i + 1..], sep), Split(b, sep);
    calc {
      Split(a + [sep] + b, sep);
      { SplitConcatInner(a, b, sep, i); }
      x + Split(a[i + 1..] + [sep] + b, sep);
      x + (y + z);
      { AppendAssoc(x, y, z); }
      (x + y) + z;
      { SplitConcatInner(a, b, sep, i); }
      Split(a, sep) + z;
    }
  }

  /** Splitting `a + sep + b` splits `a` and `b` separately. */
  lemma {:induction false} SplitConcat(a: string, b: string, sep: char)
    ensures Split(a + [sep] + b, sep) == Split(a, sep) + Split(b, sep)
    decreases |a|
  {
    var i := IndexOf(a, sep);
    if i < 0 {
      SplitConcatFirst(a, b, sep);
    } else {
      SplitConcat(a[i + 1..], b, sep);
      SplitConcatStep(a, b, sep, i);
    }
  }

  /** Joining a concatenation puts one separator between the two joins. */
  lemma {:induction false} JoinConcat(a: seq<string>, b: seq<string>, sep: char)
    requires |a| >= 1 && |b| >= 1
    ensures Join(a + b, sep) == Join(a, sep) + [sep] + Join(b, sep)
  {
    if |a| == 1 {
      assert (a + b)[1..] == b;
    } else {
      JoinConcat(a[1..], b, sep);
      assert (a + b)[1..] == a[1..] + b;
    }
  }

  // ---------------------------------------------------------------------------
  // Prefixes, suffixes and substrings

  /** `s.startswith(prefix)`. */
  predicate StartsWith(s: string, prefix: string) {
    |prefix| <= |s| && s[..|prefix|] == prefix
  }

  /** `s.endswith(suffix)`. */
  predicate EndsWith(s: string, suffix: string) {
    |suffix| <= |s| && s[|s| - |suffix|..] == suffix
  }

  /** `sub` occurs in `s` starting at index `i`. */
  ghost predicate OccursAt(s: string, sub: string, i: int) {
    0 <= i && i + |sub| <= |s| && s[i..i + |sub|] == sub
  }

  /** Python's `sub in s`: tries every start position from the left. */
  predicate Contains(s: string, sub: string)
    decreases |s|
  {
    StartsWith(s, sub) || (s != [] && Contains(s[1..], sub))
  }

  /** `sub in s` holds exactly when `sub` occurs at some position of `s`. */
  lemma {:induction false} ContainsOccurs(s: string, sub: string)
    ensures Contains(s, sub) <==> exists i :: OccursAt(s, sub, i)
    decreases |s|
  {
    if StartsWith(s, sub) {
      assert OccursAt(s, sub, 0);
    } else if s == [] {
    } else {
      ContainsOccurs(s[1..], sub);
      if exists i :: OccursAt(s[1..], sub, i) {
        var i :| OccursAt(s[1..], sub, i);
        assert s[i + 1..i + 1 + |sub|] == s[1..][i..i + |sub|];
        assert OccursAt(s, sub, i + 1);
      }
      if exists i :: OccursAt(s, sub, i) {
        var i :| OccursAt(s, sub, i);
        assert i != 0;
        assert s[1..][i - 1..i - 1 + |sub|] == s[i..i + |sub|];
        assert OccursAt(s[1..], sub, i - 1);
      }
    }
  }

  // ---------------------------------------------------------------------------
  // Decimal numerals

  function DigitChar(d: nat): (c: char)
    requires d < 10
    ensures '0' <= c <= '9'
  {
    ('0' as int + d) as char
  }

  /** `str(n)` for a natural number: its decimal numeral, without leading zeros. */
  function Decimal(n: nat): (r: string)
    ensures 1 <= |r|
    ensures forall k :: 0 <= k < |r| ==> '0' <= r[k] <= '9'
    ensures |r| > 1 ==> r[0] != '0'
  {
    if n < 10 then [DigitChar(n)] else Decimal(n / 10) + [DigitChar(n % 10)]
  }

  /** The value of a string of decimal digits. */
  function DecimalValue(s: string): nat
    requires forall k :: 0 <= k < |s| ==> '0' <= s[k] <= '9'
  {
    if s == [] then 0
    else DecimalValue(s[..|s| - 1]) * 10 + (s[|s| - 1] as int - '0' as int)
  }

  /** Reading back the numeral of `n` gives `n`. */
  lemma {:induction false} DecimalRoundTrip(n: nat)
    ensures DecimalValue(Decimal(n)) == n
  {
    if n >= 10 {
      DecimalRoundTrip(n / 10);
      var r := Decimal(n);
      assert r[..|r| - 1] == Decimal(n / 10);
    }
  }

  /** Distinct numbers have distinct numerals. */
  lemma DecimalInjective(m: nat, n: nat)
    requires Decimal(m) == Decimal(n)
    ensures m == n
  {
    DecimalRoundTrip(m);
    DecimalRoundTrip(n);
  }
}
