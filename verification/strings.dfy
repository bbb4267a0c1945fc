/** String helpers: .NET's `String.Split(char)` and `String.Join`, and the
    decimal rendering of a whole number. Strings are `seq<char>`. */
module Strings {

  /** The directory separator (`Path.DirectorySeparatorChar`), fixed to '/'. */
  const PathSeparator: char := '/'

  /** Position of the first `c` in `s` (`IndexOf`). */
  function IndexOf(s: string, c: char): (i: nat)
    requires c in s
    ensures i < |s| && s[i] == c
    ensures c !in s[..i]
    decreases |s|
  {
    if s[0] == c then 0
    else
      assert c in s[1..] by { assert s == [s[0]] + s[1..]; }
      var j := IndexOf(s[1..], c);
      assert s[1..][..j] == s[1..j + 1];
      assert s[..j + 1] == [s[0]] + s[1..j + 1];
      j + 1
  }

  /** The first `c` is at `k` when `s[k]` is `c` and nothing before it is. */
  lemma IndexOfUnique(s: string, c: char, k: nat)
    requires k < |s| && s[k] == c && c !in s[..k]
    ensures IndexOf(s, c) == k
  {
    var i := IndexOf(s, c);
    assert forall j :: 0 <= j < k ==> s[..k][j] == s[j];
    assert forall j :: 0 <= j < i ==> s[..i][j] == s[j];
  }

  /** Position of the last `c` in `s` (`LastIndexOf`). */
  function LastIndexOf(s: string, c: char): (i: nat)
    requires c in s
    ensures i < |s| && s[i] == c
    ensures c !in s[i + 1..]
    decreases |s|
  {
    if s[|s| - 1] == c then |s| - 1
    else
      assert c in s[..|s| - 1] by { assert s == s[..|s| - 1] + [s[|s| - 1]]; }
      var j := LastIndexOf(s[..|s| - 1], c);
      assert s[j + 1..] == s[..|s| - 1][j + 1..] + [s[|s| - 1]];
      j
  }

  /** The last `c` is at `k` when `s[k]` is `c` and nothing after it is. */
  lemma LastIndexOfUnique(s: string, c: char, k: nat)
    requires k < |s| && s[k] == c && c !in s[k + 1..]
    ensures LastIndexOf(s, c) == k
  {
    var i := LastIndexOf(s, c);
    assert forall j :: k < j < |s| ==> s[k + 1..][j - k - 1] == s[j];
    assert forall j :: i < j < |s| ==> s[i + 1..][j - i - 1] == s[j];
  }

  /** `s.Split(c)`: the fragments between occurrences of `c`, empty ones included. */
  function Split(s: string, c: char): (r: seq<string>)
    ensures |r| >= 1
    ensures c !in s ==> r == [s]
    decreases |s|
  {
    if c !in s then [s]
    else
      var i := IndexOf(s, c);
      [s[..i]] + Split(s[i + 1..], c)
  }

  /** No fragment of a split contains the separator. */
  lemma {:induction false} SplitFragmentsFree(s: string, c: char)
    ensures forall i :: 0 <= i < |Split(s, c)| ==> c !in Split(s, c)[i]
    decreases |s|
  {
    if c in s {
      var i := IndexOf(s, c);
      SplitFragmentsFree(s[i + 1..], c);
      assert Split(s, c) == [s[..i]] + Split(s[i + 1..], c);
    }
  }

  /** `String.Join(c, fs)`: the fragments with `c` between neighbours. */
  function Join(fs: seq<string>, c: char): string
    decreases |fs|
  {
    if |fs| == 0 then ""
    else if |fs| == 1 then fs[0]
    else fs[0] + [c] + Join(fs[1..], c)
  }

  /** A string is what precedes position `i`, the character there, and what follows. */
  lemma Around(s: string, i: nat)
    requires i < |s|
    ensures s == s[..i] + [s[i]] + s[i + 1..]
  {
  }

  /** Joining the fragments of a split gives back the string. */
  lemma {:induction false} JoinSplit(s: string, c: char)
    ensures Join(Split(s, c), c) == s
    decreases |s|
  {
    if c in s {
      var i := IndexOf(s, c);
      var tail := s[i + 1..];
      var rest := Split(tail, c);
      JoinSplit(tail, c);
      var fs := Split(s, c);
      assert fs == [s[..i]] + rest;
      assert |fs| >= 2 && fs[0] == s[..i] && fs[1..] == rest;
      calc {
        Join(fs, c);
        fs[0] + [c] + Join(fs[1..], c);
        s[..i] + [c] + tail;
        { Around(s, i); }
        s;
      }
    }
  }

  /** Splitting a join of separator-free fragments gives back the fragments. */
  lemma {:induction false} SplitJoin(fs: seq<string>, c: char)
    requires |fs| >= 1
    requires forall i :: 0 <= i < |fs| ==> c !in fs[i]
    ensures Split(Join(fs, c), c) == fs
    decreases |fs|
  {
    if |fs| > 1 {
      var s := Join(fs, c);
      var tail := Join(fs[1..], c);
      assert s == fs[0] + [c] + tail;
      assert s[|fs[0]|] == c;
      assert s[..|fs[0]|] == fs[0];
      IndexOfUnique(s, c, |fs[0]|);
      assert s[|fs[0]| + 1..] == tail;
      SplitJoin(fs[1..], c);
      assert fs == [fs[0]] + fs[1..];
    }
  }

  /** Joining a fragment in front of at least one more puts a separator between. */
  lemma JoinCons(x: string, rest: seq<string>, c: char)
    requires |rest| >= 1
    ensures Join([x] + rest, c) == x + [c] + Join(rest, c)
  {
    assert ([x] + rest)[1..] == rest;
  }

  /** A join splits at any inner fragment boundary. */
  lemma {:induction false} JoinAt(fs: seq<string>, k: nat, c: char)
    requires 1 <= k < |fs|
    ensures Join(fs, c) == Join(fs[..k], c) + [c] + Join(fs[k..], c)
    decreases k
  {
    if k > 1 {
      JoinAt(fs[1..], k - 1, c);
      assert fs[..k][1..] == fs[1..][..k - 1];
      assert fs[1..][k - 1..] == fs[k..];
    }
  }

  /** The text before the first `c` (all of `s` when there is none). */
  function FirstSegment(s: string, c: char): (r: string)
    ensures c !in r && r <= s
    ensures c in s ==> |r| < |s| && s[|r|] == c
    ensures c !in s ==> r == s
  {
    if c in s then s[..IndexOf(s, c)] else s
  }

  /** The text after the last `c` (all of `s` when there is none). */
  function LastSegment(s: string, c: char): (r: string)
    ensures c !in r
    ensures |r| <= |s| && s[|s| - |r|..] == r
    ensures c in s ==> |r| < |s| && s[|s| - |r| - 1] == c
    ensures c !in s ==> r == s
  {
    if c in s then s[LastIndexOf(s, c) + 1..] else s
  }

  /** `FirstSegment` is `s.Split(c).First()`. */
  lemma FirstSegmentIsFirstFragment(s: string, c: char)
    ensures FirstSegment(s, c) == Split(s, c)[0]
  {
  }

  /** The last element of a non-empty sequence. */
  function Last<T>(xs: seq<T>): T
    requires |xs| > 0
  {
    xs[|xs| - 1]
  }

  /** `LastSegment` is `s.Split(c).Last()`. */
  lemma {:induction false} LastSegmentIsLastFragment(s: string, c: char)
    ensures LastSegment(s, c) == Last(Split(s, c))
    decreases |s|
  {
    if c in s {
      var i := IndexOf(s, c);
      LastSegmentIsLastFragment(s[i + 1..], c);
      LastFragmentOfTail(s, c, i);
      LastSegmentOfTail(s, c, i);
    }
  }

  /** Past the first `c`, the last fragment is that of the remainder. */
  lemma LastFragmentOfTail(s: string, c: char, i: nat)
    requires c in s && i == IndexOf(s, c)
    ensures Last(Split(s, c)) == Last(Split(s[i + 1..], c))
  {
    var fs := Split(s, c);
    var rest := Split(s[i + 1..], c);
    assert fs == [s[..i]] + rest;
    calc {
      Last(fs);
      Last([s[..i]] + rest);
      { LastOfCons(s[..i], rest); }
      Last(rest);
    }
  }

  lemma LastOfCons<T>(x: T, rest: seq<T>)
    requires |rest| > 0
    ensures Last([x] + rest) == Last(rest)
  {
  }

  /** Past a `c` at `i`, the text after the last `c` is that of the remainder. */
  lemma LastSegmentOfTail(s: string, c: char, i: nat)
    requires i < |s| && s[i] == c
    ensures LastSegment(s, c) == LastSegment(s[i + 1..], c)
  {
    var tail := s[i + 1..];
    if c in tail {
      var j := LastIndexOf(tail, c);
      assert s[i + 1 + j] == c;
      assert s[i + 1 + j + 1..] == tail[j + 1..];
      LastIndexOfUnique(s, c, i + 1 + j);
    } else {
      LastIndexOfUnique(s, c, i);
    }
  }

  /** The first segment of `t + [c] + rest`, when `t` is free of `c`, is `t`. */
  lemma FirstSegmentOf(t: string, c: char, rest: string)
    requires c !in t
    ensures FirstSegment(t + [c] + rest, c) == t
  {
    var s := t + [c] + rest;
    assert s[..|t|] == t;
    IndexOfUnique(s, c, |t|);
  }

  /** The last segment of `u + [c] + t`, when `t` is free of `c`, is `t`. */
  lemma LastSegmentOf(u: string, c: char, t: string)
    requires c !in t
    ensures LastSegment(u + [c] + t, c) == t
  {
    var s := u + [c] + t;
    assert s[|u| + 1..] == t;
    LastIndexOfUnique(s, c, |u|);
  }

  /** The character for a decimal digit. */
  function DigitChar(d: nat): (ch: char)
    requires d < 10
    ensures '0' <= ch <= '9'
  {
    ('0' as int + d) as char
  }

  /** The value of a decimal digit character. */
  function DigitValue(ch: char): (d: nat)
    requires '0' <= ch <= '9'
    ensures d < 10
  {
    ch as int - '0' as int
  }

  predicate IsDigits(s: string)
  {
    forall i :: 0 <= i < |s| ==> '0' <= s[i] <= '9'
  }

  /** The invariant-culture rendering of a whole number: its decimal digits,
      with no sign, no leading zero and no fraction part. */
  function DecimalString(n: nat): (s: string)
    ensures |s| >= 1 && IsDigits(s)
    ensures s[0] == '0' ==> n == 0
    ensures '\'' !in s && '\n' !in s
    decreases n
  {
    if n < 10 then [DigitChar(n)] else DecimalString(n / 10) + [DigitChar(n % 10)]
  }

  /** Reads a string of decimal digits back as a number. */
  function ParseDecimal(s: string): nat
    requires IsDigits(s)
    decreases |s|
  {
    if |s| == 0 then 0 else ParseDecimal(s[..|s| - 1]) * 10 + DigitValue(s[|s| - 1])
  }

  /** Reading back a rendered number gives the number. */
  lemma {:induction false} ParseDecimalString(n: nat)
    ensures ParseDecimal(DecimalString(n)) == n
    decreases n
  {
    if n >= 10 {
      var s := DecimalString(n);
      ParseDecimalString(n / 10);
      assert s[..|s| - 1] == DecimalString(n / 10);
    }
  }
}
