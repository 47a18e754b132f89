/**
 * Text helpers shared by every script model: the ASCII part of Python's
 * str methods (isspace, strip, lower, startswith, find, count, split, join),
 * decimal rendering of naturals, and Python slice semantics.
 *
 * Python's str methods are Unicode-aware; every model here restricts them
 * to ASCII (a character of code 128 or more is never whitespace, never a
 * letter and is not case-mapped).
 */
module Strings {

  datatype Option<T> = None | Some(value: T)

  /**
   * Python's str.isspace() on one ASCII character: tab, line feed, vertical
   * tab, form feed and carriage return (9-13), the separators 28-31, and space (32).
   */
  predicate IsSpace(c: char) {
    ('\t' <= c <= '\r') || ('\U{001C}' <= c <= ' ')
  }

  predicate IsDigit(c: char) { '0' <= c <= '9' }

  predicate IsLetter(c: char) { 'a' <= c <= 'z' || 'A' <= c <= 'Z' }

  predicate IsBlank(s: string) { forall i :: 0 <= i < |s| ==> IsSpace(s[i]) }

  predicate AllDigits(s: string) { forall i :: 0 <= i < |s| ==> IsDigit(s[i]) }

  predicate StartsWith(s: string, p: string) { |p| <= |s| && s[..|p|] == p }

  predicate EndsWith(s: string, p: string) { |p| <= |s| && s[|s| - |p|..] == p }

  /** `p` occurs in `s` starting at index `i`. */
  predicate OccursAt(s: string, p: string, i: nat) { i + |p| <= |s| && s[i..i + |p|] == p }

  /** Python's `p in s` for strings. */
  predicate Contains(s: string, p: string) { exists i: nat | i <= |s| :: OccursAt(s, p, i) }

  function LowerChar(c: char): (r: char)
    ensures 'A' <= c <= 'Z' ==> r as int == c as int + 32
    ensures !('A' <= c <= 'Z') ==> r == c
  {
    if 'A' <= c <= 'Z' then (c as int + 32) as char else c
  }

  function UpperChar(c: char): (r: char)
    ensures 'a' <= c <= 'z' ==> r as int == c as int - 32
    ensures !('a' <= c <= 'z') ==> r == c
  {
    if 'a' <= c <= 'z' then (c as int - 32) as char else c
  }

  /** Python's str.lower() on ASCII. */
  function Lower(s: string): (r: string)
    ensures |r| == |s|
    ensures forall i :: 0 <= i < |s| ==> r[i] == LowerChar(s[i])
  {
    if s == [] then [] else [LowerChar(s[0])] + Lower(s[1..])
  }

  /** The first position at or after `i` that does not hold whitespace, or the length. */
  function SkipSpace(s: string, i: nat): (r: nat)
    requires i <= |s|
    decreases |s| - i
    ensures i <= r <= |s|
    ensures r < |s| ==> !IsSpace(s[r])
  {
    if i < |s| && IsSpace(s[i]) then SkipSpace(s, i + 1) else i
  }

  /** The end of `s[..e]` once trailing whitespace is dropped. */
  function TrimEnd(s: string, e: nat): (r: nat)
    requires e <= |s|
    ensures r <= e
    ensures r > 0 ==> !IsSpace(s[r - 1])
  {
    if e > 0 && IsSpace(s[e - 1]) then TrimEnd(s, e - 1) else e
  }

  /** A stretch of whitespace characters, as a slice, is blank. */
  lemma BlankSlice(s: string, a: nat, b: nat)
    requires a <= b <= |s|
    requires forall k :: a <= k < b ==> IsSpace(s[k])
    ensures IsBlank(s[a..b])
  {
    forall j | 0 <= j < b - a
      ensures IsSpace(s[a..b][j])
    {
      assert s[a..b][j] == s[a + j];
    }
  }

  lemma {:induction false} SkipSpaceSpaces(s: string, i: nat)
    requires i <= |s|
    ensures forall k :: i <= k < SkipSpace(s, i) ==> IsSpace(s[k])
    decreases |s| - i
  {
    if i < |s| && IsSpace(s[i]) {
      SkipSpaceSpaces(s, i + 1);
    }
  }

  lemma SkipSpaceBlank(s: string, i: nat)
    requires i <= |s|
    ensures IsBlank(s[i..SkipSpace(s, i)])
  {
    SkipSpaceSpaces(s, i);
    BlankSlice(s, i, SkipSpace(s, i));
  }

  lemma {:induction false} TrimEndSpaces(s: string, e: nat)
    requires e <= |s|
    ensures forall k :: TrimEnd(s, e) <= k < e ==> IsSpace(s[k])
  {
    if e > 0 && IsSpace(s[e - 1]) {
      TrimEndSpaces(s, e - 1);
    }
  }

  lemma TrimEndBlank(s: string, e: nat)
    requires e <= |s|
    ensures IsBlank(s[TrimEnd(s, e)..e])
  {
    TrimEndSpaces(s, e);
    BlankSlice(s, TrimEnd(s, e), e);
  }

  lemma {:induction false} TrimEndAbove(s: string, e: nat, k: nat)
    requires k < e <= |s| && !IsSpace(s[k])
    ensures TrimEnd(s, e) > k
  {
    if e - 1 > k {
      TrimEndAbove(s, e - 1, k);
    }
  }

  /** A blank stretch followed by a non-space character is what SkipSpace skips. */
  lemma SkipSpaceAt(s: string, a: nat)
    requires a < |s| && IsBlank(s[..a]) && !IsSpace(s[a])
    ensures SkipSpace(s, 0) == a
  {
    SkipSpaceUpTo(s, 0, a);
  }

  lemma {:induction false} SkipSpaceUpTo(s: string, i: nat, a: nat)
    requires i <= a < |s| && IsBlank(s[..a]) && !IsSpace(s[a])
    ensures SkipSpace(s, i) == a
    decreases a - i
  {
    if i < a {
      assert s[..a][i] == s[i];
      SkipSpaceUpTo(s, i + 1, a);
    }
  }

  /** Python's str.lstrip(): drop leading whitespace. */
  function LStrip(s: string): string {
    s[SkipSpace(s, 0)..]
  }

  /** Python's str.rstrip(): drop trailing whitespace. */
  function RStrip(s: string): string {
    s[..TrimEnd(s, |s|)]
  }

  /** Python's str.strip(): the text between the leading and the trailing whitespace. */
  function Strip(s: string): string {
    var a := SkipSpace(s, 0);
    var b := TrimEnd(s, |s|);
    if b <= a then [] else s[a..b]
  }

  /** Stripping keeps exactly the middle of `s`, between blank stretches on either side. */
  lemma StripParts(s: string) returns (a: nat, b: nat)
    ensures a <= b <= |s| && Strip(s) == s[a..b]
    ensures IsBlank(s[..a]) && IsBlank(s[b..])
    ensures a < b ==> !IsSpace(s[a]) && !IsSpace(s[b - 1])
  {
    a := SkipSpace(s, 0);
    b := TrimEnd(s, |s|);
    SkipSpaceBlank(s, 0);
    TrimEndBlank(s, |s|);
    if b <= a {
      if a < |s| {
        TrimEndAbove(s, |s|, a);
      }
      b := a;
      assert s[..a] == s[0..a];
    } else {
      assert s[..a] == s[0..a];
      assert s[b..] == s[b..|s|];
    }
  }

  /** The stripped text is empty exactly when `s` is blank. */
  lemma StripEmpty(s: string)
    ensures Strip(s) == [] <==> IsBlank(s)
  {
    var a, b := StripParts(s);
    if Strip(s) == [] {
      assert s == s[..a] + s[a..];
      assert s[a..] == s[b..];
    }
  }

  /** The stripped text keeps any property every character of `s` has, and neither starts nor ends with whitespace. */
  lemma StripInside(s: string, P: char -> bool)
    requires forall k :: 0 <= k < |s| ==> P(s[k])
    ensures forall k :: 0 <= k < |Strip(s)| ==> P(Strip(s)[k])
    ensures Strip(s) != [] ==> !IsSpace(Strip(s)[0]) && !IsSpace(Strip(s)[|Strip(s)| - 1])
  {
    var a, b := StripParts(s);
    assert forall k :: 0 <= k < |Strip(s)| ==> Strip(s)[k] == s[a + k];
  }

  /** Stripping does nothing to text with no whitespace at either end. */
  lemma StripTrimmed(s: string)
    requires s != [] ==> !IsSpace(s[0]) && !IsSpace(s[|s| - 1])
    ensures Strip(s) == s
  {
  }

  /** Remove every trailing `c` (Python's str.rstrip(c) for one character). */
  function RStripChar(s: string, c: char): (r: string)
    ensures |r| <= |s| && r == s[..|r|]
    ensures forall i :: |r| <= i < |s| ==> s[i] == c
    ensures r == [] || r[|r| - 1] != c
  {
    if s != [] && s[|s| - 1] == c then RStripChar(s[..|s| - 1], c) else s
  }

  /** Remove every leading `c` (Python's str.lstrip(c) for one character). */
  function LStripChar(s: string, c: char): (r: string)
    ensures |r| <= |s| && r == s[|s| - |r|..]
    ensures forall i :: 0 <= i < |s| - |r| ==> s[i] == c
    ensures r == [] || r[0] != c
  {
    if s != [] && s[0] == c then LStripChar(s[1..], c) else s
  }

  /** Python's s.find(c, from): the first index at or after `from` holding `c`, or -1. */
  function IndexOfFrom(s: string, c: char, from: nat): (r: int)
    decreases |s| - from
    ensures r == -1 || (from <= r < |s| && s[r] == c)
    ensures forall k :: from <= k < |s| && (r == -1 || k < r) ==> s[k] != c
  {
    if from >= |s| then -1 else if s[from] == c then from else IndexOfFrom(s, c, from + 1)
  }

  /** The first `c` at or after `from` is at `at` when none comes before it. */
  lemma {:induction false} IndexFirst(s: string, c: char, from: nat, at: nat)
    requires from <= at < |s| && s[at] == c
    requires forall k :: from <= k < at ==> s[k] != c
    ensures IndexOfFrom(s, c, from) == at
    decreases at - from
  {
    if from < at {
      IndexFirst(s, c, from + 1, at);
    }
  }

  /** Python's s.rfind(c, 0, end): the last index below `end` holding `c`, or -1. */
  function LastIndexBefore(s: string, c: char, end: nat): (r: int)
    ensures r == -1 || (0 <= r < end && r < |s| && s[r] == c)
    ensures forall k :: r < k < end && k < |s| ==> s[k] != c
  {
    if end == 0 then -1
    else if end - 1 < |s| && s[end - 1] == c then end - 1
    else LastIndexBefore(s, c, end - 1)
  }

  /** Python's s.count(c) for one character. */
  function CountChar(s: string, c: char): (n: nat)
    ensures n <= |s|
    ensures n == 0 <==> forall i :: 0 <= i < |s| ==> s[i] != c
  {
    if s == [] then 0 else (if s[0] == c then 1 else 0) + CountChar(s[1..], c)
  }

  lemma {:induction false} CountCharAppend(a: string, b: string, c: char)
    ensures CountChar(a + b, c) == CountChar(a, c) + CountChar(b, c)
  {
    if a == [] {
      assert a + b == b;
    } else {
      assert (a + b)[1..] == a[1..] + b;
      CountCharAppend(a[1..], b, c);
    }
  }

  /** Python's s[a:b] for non-negative bounds: both ends are clamped to the length. */
  function PySlice<T>(s: seq<T>, a: nat, b: nat): (r: seq<T>)
    ensures a <= b <= |s| ==> r == s[a..b]
    ensures b <= a ==> r == []
    ensures |r| <= |s|
  {
    var hi := if b <= |s| then b else |s|;
    if a >= hi then [] else s[a..hi]
  }

  /** Python's s.split(c): the pieces between occurrences of `c`; never empty. */
  function Split(s: string, c: char): (r: seq<string>)
    ensures |r| >= 1
    ensures forall k, i :: 0 <= k < |r| && 0 <= i < |r[k]| ==> r[k][i] != c
    decreases |s|
  {
    var i := IndexOfFrom(s, c, 0);
    if i == -1 then [s] else [s[..i]] + Split(s[i + 1..], c)
  }

  /** Path.name for a `/`-separated path: its last segment. */
  function PathName(path: string): string {
    var parts := Split(path, '/');
    parts[|parts| - 1]
  }

  /** There is one more piece than there are separators. */
  lemma {:induction false} SplitCount(s: string, c: char)
    ensures |Split(s, c)| == CountChar(s, c) + 1
    decreases |s|
  {
    var i := IndexOfFrom(s, c, 0);
    if i != -1 {
      SplitCount(s[i + 1..], c);
      SplitUnfold(s, c, i);
      CountAround(s, c, i);
    }
  }

  /** The first occurrence of `c` counts once, before the rest. */
  lemma CountAround(s: string, c: char, i: nat)
    requires i < |s| && s[i] == c && forall k :: 0 <= k < i ==> s[k] != c
    ensures CountChar(s, c) == 1 + CountChar(s[i + 1..], c)
  {
    SliceAround(s, i);
    CountCharAppend(s[..i] + [s[i]], s[i + 1..], c);
    CountCharAppend(s[..i], [s[i]], c);
    assert CountChar(s[..i], c) == 0;
    assert CountChar([s[i]], c) == 1 + CountChar([s[i]][1..], c);
  }

  /** Python's sep.join(parts). */
  function Join(parts: seq<string>, sep: string): (r: string)
    ensures |parts| == 1 ==> r == parts[0]
    ensures parts == [] ==> r == []
  {
    if parts == [] then [] else if |parts| == 1 then parts[0] else parts[0] + sep + Join(parts[1..], sep)
  }

  lemma {:induction false} JoinSplit(s: string, c: char)
    ensures Join(Split(s, c), [c]) == s
    decreases |s|
  {
    var i := IndexOfFrom(s, c, 0);
    if i != -1 {
      JoinSplit(s[i + 1..], c);
      JoinSplitStep(s, c, i);
    }
  }

  /** One step of JoinSplit: the piece before the first separator, the separator, and the rest rejoined. */
  lemma JoinSplitStep(s: string, c: char, i: int)
    requires i == IndexOfFrom(s, c, 0) && i != -1
    requires Join(Split(s[i + 1..], c), [c]) == s[i + 1..]
    ensures Join(Split(s, c), [c]) == s
  {
    SplitUnfold(s, c, i);
    JoinCons(s[..i], Split(s[i + 1..], c), [c]);
    SliceAround(s, i);
  }

  lemma SplitUnfold(s: string, c: char, i: int)
    requires i == IndexOfFrom(s, c, 0) && i != -1
    ensures Split(s, c) == [s[..i]] + Split(s[i + 1..], c)
  {
  }

  lemma AppendAssoc<T>(a: seq<T>, b: seq<T>, c: seq<T>)
    ensures (a + b) + c == a + (b + c)
  {
  }

  lemma SliceAround<T>(s: seq<T>, i: nat)
    requires i < |s|
    ensures s == s[..i] + [s[i]] + s[i + 1..]
  {
  }

  lemma JoinCons(a: string, rest: seq<string>, sep: string)
    requires rest != []
    ensures Join([a] + rest, sep) == a + sep + Join(rest, sep)
  {
    assert ([a] + rest)[1..] == rest;
  }

  lemma {:induction false} JoinAppend(a: seq<string>, b: seq<string>, sep: string)
    requires a != [] && b != []
    ensures Join(a + b, sep) == Join(a, sep) + sep + Join(b, sep)
  {
    if |a| == 1 {
      assert (a + b)[1..] == b;
    } else {
      assert (a + b)[1..] == a[1..] + b;
      JoinAppend(a[1..], b, sep);
    }
  }

  /** Splitting at a separator distributes over the pieces on either side of it. */
  lemma {:induction false} SplitAround(a: string, b: string, c: char)
    requires forall i :: 0 <= i < |a| ==> a[i] != c
    ensures Split(a + [c] + b, c) == [a] + Split(b, c)
  {
    var s := a + [c] + b;
    assert s[|a|] == c;
    var i := IndexOfFrom(s, c, 0);
    assert i == |a|;
    assert s[..i] == a;
    assert s[i + 1..] == b;
  }

  /** Every piece of a split keeps any property every character of `s` has. */
  lemma {:induction false} SplitChars(s: string, c: char, P: char -> bool)
    requires forall i :: 0 <= i < |s| ==> P(s[i])
    ensures forall k, i :: 0 <= k < |Split(s, c)| && 0 <= i < |Split(s, c)[k]| ==> P(Split(s, c)[k][i])
    decreases |s|
  {
    var j := IndexOfFrom(s, c, 0);
    var r := Split(s, c);
    if j == -1 {
      assert r == [s];
    } else {
      var rest := Split(s[j + 1..], c);
      SplitChars(s[j + 1..], c, P);
      assert r == [s[..j]] + rest;
      forall k, i | 0 <= k < |r| && 0 <= i < |r[k]|
        ensures P(r[k][i])
      {
        if k == 0 {
          assert r[0][i] == s[i];
        } else {
          assert r[k] == rest[k - 1];
        }
      }
    }
  }

  /** A join keeps any property every character of the parts and of the separator has. */
  lemma {:induction false} JoinChars(parts: seq<string>, sep: string, P: char -> bool)
    requires forall k, i :: 0 <= k < |parts| && 0 <= i < |parts[k]| ==> P(parts[k][i])
    requires forall i :: 0 <= i < |sep| ==> P(sep[i])
    ensures forall i :: 0 <= i < |Join(parts, sep)| ==> P(Join(parts, sep)[i])
  {
    if |parts| > 1 {
      JoinChars(parts[1..], sep, P);
      var a := parts[0] + sep;
      var r := Join(parts, sep);
      assert r == a + Join(parts[1..], sep);
      assert forall i :: 0 <= i < |a| ==> P(a[i]);
    }
  }

  /** Splitting a joined list of lines gives back the lines. */
  lemma {:induction false} SplitJoin(parts: seq<string>, c: char)
    requires parts != []
    requires forall k, i :: 0 <= k < |parts| && 0 <= i < |parts[k]| ==> parts[k][i] != c
    ensures Split(Join(parts, [c]), c) == parts
  {
    if |parts| == 1 {
      assert IndexOfFrom(parts[0], c, 0) == -1;
    } else {
      SplitJoin(parts[1..], c);
      SplitAround(parts[0], Join(parts[1..], [c]), c);
      assert parts[0] + [c] + Join(parts[1..], [c]) == Join(parts, [c]);
    }
  }

  /** The end of the run of digits starting at `i`. */
  function DigitsEnd(s: string, i: nat): (r: nat)
    requires i <= |s|
    decreases |s| - i
    ensures i <= r <= |s| && (r < |s| ==> !IsDigit(s[r]))
    ensures forall k :: i <= k < r ==> IsDigit(s[k])
  {
    if i < |s| && IsDigit(s[i]) then DigitsEnd(s, i + 1) else i
  }

  /** A run of digits ending at `n` is where DigitsEnd stops. */
  lemma {:induction false} DigitsEndAt(s: string, i: nat, n: nat)
    requires i <= n <= |s|
    requires forall k :: i <= k < n ==> IsDigit(s[k])
    requires n < |s| ==> !IsDigit(s[n])
    ensures DigitsEnd(s, i) == n
    decreases n - i
  {
    if i < n {
      DigitsEndAt(s, i + 1, n);
    }
  }

  /** Decimal digits of `n`, as Python's str(n). */
  function NatToString(n: nat): (r: string)
    ensures r != [] && AllDigits(r)
    ensures |r| > 1 ==> r[0] != '0'
    decreases n
  {
    var d := ['0' + (n % 10) as char];
    if n < 10 then d else NatToString(n / 10) + d
  }

  /** The value of a string of decimal digits, as Python's int(s) on ASCII digits. */
  function DigitsValue(s: string): nat
    requires AllDigits(s)
  {
    if s == [] then 0 else DigitsValue(s[..|s| - 1]) * 10 + (s[|s| - 1] - '0') as nat
  }

  lemma {:induction false} DigitsOfNat(n: nat)
    ensures DigitsValue(NatToString(n)) == n
    decreases n
  {
    var r := NatToString(n);
    if n >= 10 {
      DigitsOfNat(n / 10);
      assert r[..|r| - 1] == NatToString(n / 10);
    }
  }
}
