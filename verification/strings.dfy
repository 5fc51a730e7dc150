/**
 * The JavaScript string operations the locale bundle relies on, written out
 * exactly: `String.prototype.split` on a one-character separator,
 * `String.prototype.replace` with a string pattern (first occurrence only)
 * and a replacement that holds no `$`,
 * the "last space-separated token" rule used for composite language tags, and
 * the decimal rendering of a count inside a template literal.
 */
module Strings {

  // ---------------------------------------------------------------------------
  // split
  // ---------------------------------------------------------------------------

  /** The index of the first `c` in `s`, or `|s|` when there is none. */
  function FirstIndexOf(s: string, c: char): (i: nat)
    ensures i <= |s|
    decreases |s|
  {
    if |s| == 0 || s[0] == c then 0 else 1 + FirstIndexOf(s[1..], c)
  }

  /** No separator comes before the first index, and one sits at it unless it is the end. */
  lemma {:induction false} FirstIndexFacts(s: string, c: char)
    ensures forall j :: 0 <= j < FirstIndexOf(s, c) ==> s[j] != c
    ensures FirstIndexOf(s, c) < |s| ==> s[FirstIndexOf(s, c)] == c
    decreases |s|
  {
    if |s| > 0 && s[0] != c {
      FirstIndexFacts(s[1..], c);
      forall j | 0 <= j < FirstIndexOf(s, c) ensures s[j] != c {
        if j > 0 { assert s[j] == s[1..][j - 1]; }
      }
    }
  }

  /** The first index is the one with no separator before it and a separator at it (or the end). */
  lemma FirstIndexIs(s: string, c: char, i: nat)
    requires i <= |s|
    requires forall j :: 0 <= j < i ==> s[j] != c
    requires i < |s| ==> s[i] == c
    ensures FirstIndexOf(s, c) == i
  {
    FirstIndexFacts(s, c);
  }

  /** Appending text after the first separator does not move it; appending after a separator-free string finds the first separator of the appended text. */
  lemma FirstIndexAppend(a: string, t: string, c: char)
    ensures FirstIndexOf(a, c) < |a| ==> FirstIndexOf(a + t, c) == FirstIndexOf(a, c)
    ensures FirstIndexOf(a, c) == |a| ==> FirstIndexOf(a + t, c) == |a| + FirstIndexOf(t, c)
  {
    FirstIndexFacts(a, c);
    FirstIndexFacts(t, c);
    var i := FirstIndexOf(a, c);
    if i < |a| {
      FirstIndexIs(a + t, c, i);
    } else {
      var j := FirstIndexOf(t, c);
      assert forall k :: 0 <= k < |a| ==> (a + t)[k] == a[k];
      assert forall k :: |a| <= k < |a| + j ==> (a + t)[k] == t[k - |a|];
      FirstIndexIs(a + t, c, |a| + j);
    }
  }

  /** `s.split(c)`: the pieces between separators, empty pieces kept; at least one piece. */
  function Split(s: string, c: char): (parts: seq<string>)
    ensures |parts| >= 1
    decreases |s|
  {
    var i := FirstIndexOf(s, c);
    if i == |s| then [s] else [s[..i]] + Split(s[i + 1..], c)
  }

  /** `parts.join(c)`: the inverse of Split. */
  function Join(parts: seq<string>, c: char): string
    requires |parts| >= 1
    decreases |parts|
  {
    if |parts| == 1 then parts[0] else parts[0] + [c] + Join(parts[1..], c)
  }

  /** No piece produced by Split contains the separator. */
  lemma {:induction false} SplitPiecesFree(s: string, c: char)
    ensures forall k :: 0 <= k < |Split(s, c)| ==> c !in Split(s, c)[k]
    decreases |s|
  {
    FirstIndexFacts(s, c);
    var i := FirstIndexOf(s, c);
    if i < |s| {
      SplitPiecesFree(s[i + 1..], c);
      var rest := Split(s[i + 1..], c);
      forall k | 0 <= k < |Split(s, c)| ensures c !in Split(s, c)[k] {
        if k > 0 { assert Split(s, c)[k] == rest[k - 1]; }
      }
    }
  }

  /** Joining the pieces of a split gives the original string back. */
  lemma {:induction false} SplitJoin(s: string, c: char)
    ensures Join(Split(s, c), c) == s
    decreases |s|
  {
    FirstIndexFacts(s, c);
    var i := FirstIndexOf(s, c);
    if i < |s| {
      SplitJoin(s[i + 1..], c);
      var parts := Split(s, c);
      assert parts[1..] == Split(s[i + 1..], c);
      assert s == s[..i] + [c] + s[i + 1..];
    }
  }

  /** A string splits into one piece exactly when it holds no separator, and that piece is itself. */
  lemma SplitSingle(s: string, c: char)
    ensures |Split(s, c)| == 1 <==> c !in s
    ensures c !in s ==> Split(s, c) == [s]
  {
    FirstIndexFacts(s, c);
  }

  /** Splitting at a separator splits the two sides independently. */
  lemma {:induction false} SplitAround(a: string, b: string, c: char)
    ensures Split(a + [c] + b, c) == Split(a, c) + Split(b, c)
    decreases |a|
  {
    var i := FirstIndexOf(a, c);
    if i == |a| {
      SplitAroundFree(a, b, c);
    } else {
      SplitAroundStep(a, b, c);
      SplitAround(a[i + 1..], b, c);
    }
  }

  /** The first piece of `a + [c] + b` is `a` when `a` holds no separator. */
  lemma SplitAroundFree(a: string, b: string, c: char)
    requires FirstIndexOf(a, c) == |a|
    ensures Split(a + [c] + b, c) == [a] + Split(b, c)
  {
    var s := a + [c] + b;
    assert s == a + ([c] + b);
    FirstIndexAppend(a, [c] + b, c);
    assert s[..|a|] == a && s[|a| + 1..] == b;
  }

  /** When `a` holds a separator, `a` and `a + [c] + b` share their first piece. */
  lemma SplitAroundStep(a: string, b: string, c: char)
    requires FirstIndexOf(a, c) < |a|
    ensures var i := FirstIndexOf(a, c);
      && Split(a + [c] + b, c) == [a[..i]] + Split(a[i + 1..] + [c] + b, c)
      && Split(a, c) == [a[..i]] + Split(a[i + 1..], c)
  {
    var t := [c] + b;
    var i := FirstIndexOf(a, c);
    assert a + [c] + b == a + t;
    FirstIndexAppend(a, t, c);
    SliceAppend(a, t, i);
    assert a[i + 1..] + t == a[i + 1..] + [c] + b;
  }

  /** Cutting `a + t` around an index inside `a`. */
  lemma SliceAppend(a: string, t: string, i: nat)
    requires i < |a|
    ensures (a + t)[..i] == a[..i] && (a + t)[i + 1..] == a[i + 1..] + t
  {
  }

  // ---------------------------------------------------------------------------
  // Composite language tags
  // ---------------------------------------------------------------------------

  /** `s.split(' ')[s.split(' ').length - 1]`: the last space-separated token. */
  function LastToken(s: string): string {
    var parts := Split(s, ' ');
    parts[|parts| - 1]
  }

  /** The last token never holds a space, so a composite tag never reduces to itself. */
  lemma LastTokenHasNoSpace(s: string)
    ensures ' ' !in LastToken(s)
    ensures ' ' in s ==> LastToken(s) != s
  {
    SplitPiecesFree(s, ' ');
  }

  /** A tag without spaces is its own last token. */
  lemma LastTokenPlain(s: string)
    requires ' ' !in s
    ensures LastToken(s) == s
  {
    SplitSingle(s, ' ');
  }

  /** The last token is whatever follows the last space. */
  lemma LastTokenAfterSpace(a: string, b: string)
    requires ' ' !in b
    ensures LastToken(a + " " + b) == b
  {
    assert a + " " + b == a + [' '] + b;
    SplitAround(a, b, ' ');
    SplitSingle(b, ' ');
  }

  /** The last piece of a join is a suffix of the joined string. */
  lemma {:induction false} JoinEndsWithLast(parts: seq<string>, c: char)
    requires |parts| >= 1
    ensures |parts[|parts| - 1]| <= |Join(parts, c)|
    ensures Join(parts, c)[|Join(parts, c)| - |parts[|parts| - 1]|..] == parts[|parts| - 1]
    decreases |parts|
  {
    if |parts| > 1 {
      JoinEndsWithLast(parts[1..], c);
      var tail := Join(parts[1..], c);
      var last := parts[|parts| - 1];
      assert parts[1..][|parts[1..]| - 1] == last;
      var j := Join(parts, c);
      assert j == (parts[0] + [c]) + tail;
      assert j[|j| - |last|..] == tail[|tail| - |last|..];
    }
  }

  /** The last token is a suffix of the tag it came from. */
  lemma LastTokenIsSuffix(s: string)
    ensures |LastToken(s)| <= |s| && s[|s| - |LastToken(s)|..] == LastToken(s)
  {
    SplitJoin(s, ' ');
    JoinEndsWithLast(Split(s, ' '), ' ');
  }

  // ---------------------------------------------------------------------------
  // replace with a string pattern
  // ---------------------------------------------------------------------------

  /** `pat` occurs in `s` starting at index `i`. */
  predicate MatchesAt(s: string, pat: string, i: nat) {
    i <= |s| && pat <= s[i..]
  }

  /** `s.replace(pat, rep)` for a string `pat`: only the first occurrence is replaced. */
  function ReplaceFirst(s: string, pat: string, rep: string): string
    decreases |s|
  {
    if pat <= s then rep + s[|pat|..]
    else if |s| == 0 then s
    else [s[0]] + ReplaceFirst(s[1..], pat, rep)
  }

  /** Without an occurrence of the pattern the string is returned unchanged. */
  lemma {:induction false} ReplaceFirstAbsent(s: string, pat: string, rep: string)
    requires forall i :: 0 <= i <= |s| ==> !MatchesAt(s, pat, i)
    ensures ReplaceFirst(s, pat, rep) == s
    decreases |s|
  {
    assert !MatchesAt(s, pat, 0);
    assert s[0..] == s;
    if |s| > 0 {
      forall i | 0 <= i <= |s[1..]| ensures !MatchesAt(s[1..], pat, i) {
        assert s[1..][i..] == s[i + 1..];
        assert !MatchesAt(s, pat, i + 1);
      }
      ReplaceFirstAbsent(s[1..], pat, rep);
    }
  }

  /** When the first occurrence of the pattern starts right after `x`, exactly that one is replaced. */
  lemma {:induction false} ReplaceFirstAt(x: string, pat: string, y: string, rep: string)
    requires forall i :: 0 <= i < |x| ==> !MatchesAt(x + pat + y, pat, i)
    ensures ReplaceFirst(x + pat + y, pat, rep) == x + rep + y
    decreases |x|
  {
    var s := x + pat + y;
    if |x| == 0 {
      assert s == pat + y;
      assert s[|pat|..] == y;
    } else {
      assert !MatchesAt(s, pat, 0);
      assert s[0..] == s;
      var s' := x[1..] + pat + y;
      assert s[1..] == s';
      forall i | 0 <= i < |x[1..]| ensures !MatchesAt(s', pat, i) {
        assert s'[i..] == s[i + 1..];
        assert !MatchesAt(s, pat, i + 1);
      }
      ReplaceFirstAt(x[1..], pat, y, rep);
      assert ReplaceFirst(s, pat, rep) == [x[0]] + (x[1..] + rep + y);
      assert x == [x[0]] + x[1..];
    }
  }

  // ---------------------------------------------------------------------------
  // Decimal rendering of a count
  // ---------------------------------------------------------------------------

  predicate IsDigit(ch: char) {
    '0' <= ch <= '9'
  }

  function DigitChar(d: nat): (ch: char)
    requires d < 10
    ensures IsDigit(ch) && (ch as int) - ('0' as int) == d
  {
    (('0' as int) + d) as char
  }

  /** `${n}` for a non-negative integer: its decimal digits, no leading zeros. */
  function NatToString(n: nat): (s: string)
    ensures |s| >= 1
    ensures forall i :: 0 <= i < |s| ==> IsDigit(s[i])
    ensures |s| > 1 ==> s[0] != '0'
    decreases n
  {
    if n < 10 then [DigitChar(n)] else NatToString(n / 10) + [DigitChar(n % 10)]
  }

  /** Reading decimal digits back as a number. */
  function ParseDecimal(s: string): nat
    requires forall i :: 0 <= i < |s| ==> IsDigit(s[i])
    decreases |s|
  {
    if |s| == 0 then 0
    else
      assert IsDigit(s[|s| - 1]);
      ParseDecimal(s[..|s| - 1]) * 10 + ((s[|s| - 1] as int) - ('0' as int))
  }

  /** The rendering loses nothing: parsing it gives the count back. */
  lemma {:induction false} NatToStringRoundTrip(n: nat)
    ensures ParseDecimal(NatToString(n)) == n
    decreases n
  {
    var s := NatToString(n);
    if n >= 10 {
      NatToStringRoundTrip(n / 10);
      assert s[..|s| - 1] == NatToString(n / 10);
    } else {
      assert s[..0] == [];
    }
  }
}
