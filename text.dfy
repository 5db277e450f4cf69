/** The Python string built-ins the core relies on: `str.strip`, `in`,
    `str.split`, `str.join`, `str.rsplit`, `str(int)`, `str.zfill`, the
    `\d` and `\s` regular-expression classes, and prefix slicing `s[:k]`.
    Whitespace is the six characters of `string.whitespace`; digits are the
    ASCII ones. */
module Text {

  /** A whitespace character as `str.strip` and `\s` see it, restricted to
      the six characters of `string.whitespace`. */
  predicate IsSpace(c: char)
  {
    c == ' ' || c == '\t' || c == '\n' || c == '\r' || c == '\U{0B}' || c == '\U{0C}'
  }

  predicate IsDigit(c: char)
  {
    '0' <= c <= '9'
  }

  predicate AllSpace(s: string)
  {
    forall i :: 0 <= i < |s| ==> IsSpace(s[i])
  }

  predicate AllDigits(s: string)
  {
    forall i :: 0 <= i < |s| ==> IsDigit(s[i])
  }

  /** A string that `strip` leaves unchanged: no whitespace at either end. */
  predicate Stripped(s: string)
  {
    s == [] || (!IsSpace(s[0]) && !IsSpace(s[|s| - 1]))
  }

  /** The length of the longest all-whitespace prefix. */
  function LeadingSpaces(s: string): (k: nat)
    ensures k <= |s|
    ensures AllSpace(s[..k])
    ensures k < |s| ==> !IsSpace(s[k])
  {
    if s == [] || !IsSpace(s[0]) then 0
    else
      var k := 1 + LeadingSpaces(s[1..]);
      assert s[..k] == [s[0]] + s[1..][..k - 1];
      k
  }

  /** The length of the longest all-digit prefix (what `\d+` matches greedily). */
  function LeadingDigits(s: string): (k: nat)
    ensures k <= |s|
    ensures AllDigits(s[..k])
    ensures k < |s| ==> !IsDigit(s[k])
  {
    if s == [] || !IsDigit(s[0]) then 0
    else
      var k := 1 + LeadingDigits(s[1..]);
      assert s[..k] == [s[0]] + s[1..][..k - 1];
      k
  }

  /** `s.strip()`: whitespace is removed from the front, then from the back,
      one character at a time. */
  function Strip(s: string): (r: string)
    ensures |r| <= |s|
    ensures Stripped(r)
    ensures r == [] <==> AllSpace(s)
    decreases |s|
  {
    if s != [] && IsSpace(s[0]) then
      assert AllSpace(s) <==> AllSpace(s[1..]) by {
        assert forall i :: 1 <= i < |s| ==> s[i] == s[1..][i - 1];
      }
      Strip(s[1..])
    else if s != [] && IsSpace(s[|s| - 1]) then
      assert AllSpace(s) <==> AllSpace(s[..|s| - 1]) by {
        assert forall i :: 0 <= i < |s| - 1 ==> s[i] == s[..|s| - 1][i];
      }
      Strip(s[..|s| - 1])
    else
      assert s != [] ==> !AllSpace(s) by {
        if s != [] {
          assert !IsSpace(s[0]);
        }
      }
      s
  }

  /** Where the result of `strip` sits in its argument: right after the
      leading whitespace, and followed by whitespace only. */
  lemma {:induction false} StripShape(s: string)
    ensures LeadingSpaces(s) + |Strip(s)| <= |s|
    ensures Strip(s) == s[LeadingSpaces(s)..LeadingSpaces(s) + |Strip(s)|]
    ensures AllSpace(s[LeadingSpaces(s) + |Strip(s)|..])
    decreases |s|
  {
    if s != [] && IsSpace(s[0]) {
      StripShape(s[1..]);
      StripShapeFront(s);
    } else if s != [] && IsSpace(s[|s| - 1]) {
      StripShape(s[..|s| - 1]);
      StripShapeBack(s);
    } else {
      assert LeadingSpaces(s) == 0;
      assert s[|s|..] == [];
    }
  }

  /** `Strip(s)` is `s[a..a + m]`, followed by whitespace only. */
  ghost predicate StripSits(s: string, a: nat, m: nat)
  {
    a + m <= |s| && Strip(s) == s[a..a + m] && AllSpace(s[a + m..])
  }

  lemma {:induction false} StripShapeFront(s: string)
    requires s != [] && IsSpace(s[0])
    requires StripSits(s[1..], LeadingSpaces(s[1..]), |Strip(s[1..])|)
    ensures StripSits(s, LeadingSpaces(s), |Strip(s)|)
  {
    var t := s[1..];
    var a, m := LeadingSpaces(t), |Strip(t)|;
    assert Strip(s) == Strip(t);
    assert LeadingSpaces(s) == 1 + a;
    TailSlice(s, a, a + m, Strip(t));
  }

  /** A slice of the tail is a slice of the string, one position on. */
  lemma TailSlice(s: string, i: nat, j: nat, r: string)
    requires s != [] && i <= j <= |s| - 1
    requires r == s[1..][i..j] && AllSpace(s[1..][j..])
    ensures r == s[1 + i..1 + j] && AllSpace(s[1 + j..])
  {
    assert s[1..][j..] == s[1 + j..];
  }

  lemma {:induction false} StripShapeBack(s: string)
    requires s != [] && !IsSpace(s[0]) && IsSpace(s[|s| - 1])
    requires StripSits(s[..|s| - 1], LeadingSpaces(s[..|s| - 1]), |Strip(s[..|s| - 1])|)
    ensures StripSits(s, LeadingSpaces(s), |Strip(s)|)
  {
    var n := |s| - 1;
    var t := s[..n];
    var m := |Strip(t)|;
    assert Strip(s) == Strip(t);
    assert LeadingSpaces(s) == 0;
    assert t[0] == s[0];
    assert LeadingSpaces(t) == 0;
    assert t[..m] == s[..m];
    assert s[m..] == t[m..] + [s[n]];
  }

  /** `strip` removes whitespace only: every other character survives, and
      nothing is added. */
  lemma StripMembers(s: string)
    ensures forall c :: c in Strip(s) ==> c in s
    ensures forall c :: c in s && !IsSpace(c) ==> c in Strip(s)
  {
    StripShape(s);
    SliceMembers(s, LeadingSpaces(s), Strip(s));
  }

  /** A slice with only whitespace around it keeps every other character. */
  lemma SliceMembers(s: string, a: nat, r: string)
    requires a + |r| <= |s| && r == s[a..a + |r|]
    requires AllSpace(s[..a]) && AllSpace(s[a + |r|..])
    ensures forall c :: c in r ==> c in s
    ensures forall c :: c in s && !IsSpace(c) ==> c in r
  {
    forall c | c in r ensures c in s {
      var j :| 0 <= j < |r| && r[j] == c;
      assert s[a + j] == c;
    }
    forall j | 0 <= j < a ensures IsSpace(s[j]) {
      assert s[..a][j] == s[j];
    }
    forall j | a + |r| <= j < |s| ensures IsSpace(s[j]) {
      assert s[a + |r|..][j - a - |r|] == s[j];
    }
    forall c | c in s && !IsSpace(c) ensures c in r {
      var j :| 0 <= j < |s| && s[j] == c;
      assert r[j - a] == c;
    }
  }

  /** A string with a non-blank first character keeps it under `strip`. */
  lemma StripKeepsFirst(s: string)
    requires s != [] && !IsSpace(s[0])
    ensures Strip(s) != [] && Strip(s)[0] == s[0]
    ensures Strip(s) == s[..|Strip(s)|]
  {
    StripShape(s);
    assert LeadingSpaces(s) == 0;
  }

  /** A string with a non-blank last character keeps its whole tail under `strip`. */
  lemma StripKeepsLast(s: string)
    requires s != [] && !IsSpace(s[|s| - 1])
    ensures Strip(s) == s[LeadingSpaces(s)..]
  {
    StripShape(s);
  }

  /** `strip` is the identity on a string without surrounding whitespace. */
  lemma StripStripped(s: string)
    requires Stripped(s)
    ensures Strip(s) == s
  {
  }

  /** `strip` is idempotent. */
  lemma StripIdempotent(s: string)
    ensures Strip(Strip(s)) == Strip(s)
  {
    StripStripped(Strip(s));
  }

  /** A leading blank does not change the result of `strip`. */
  lemma StripLeadingBlank(s: string)
    ensures Strip([' '] + s) == Strip(s)
  {
    assert ([' '] + s)[1..] == s;
  }

  /** Whitespace in front does not change the result of `strip`. */
  lemma {:induction false} StripFront(w: string, x: string)
    requires AllSpace(w)
    ensures Strip(w + x) == Strip(x)
    decreases |w|
  {
    if w != [] {
      assert (w + x)[1..] == w[1..] + x;
      assert AllSpace(w[1..]) by {
        forall i | 0 <= i < |w| - 1 ensures IsSpace(w[1..][i]) {
          assert w[1..][i] == w[i + 1];
        }
      }
      StripFront(w[1..], x);
    } else {
      assert w + x == x;
    }
  }

  /** Whitespace behind does not change the result of `strip`. */
  lemma {:induction false} StripBack(x: string, w: string)
    requires AllSpace(w)
    ensures Strip(x + w) == Strip(x)
    decreases |x| + |w|
  {
    if w == [] {
      assert x + w == x;
    } else if IsSpace((x + w)[0]) {
      if x == [] {
        assert x + w == w;
      } else {
        assert (x + w)[1..] == x[1..] + w;
        StripBack(x[1..], w);
      }
    } else {
      var n := |w| - 1;
      assert IsSpace(w[n]);
      assert (x + w)[..|x + w| - 1] == x + w[..n];
      assert AllSpace(w[..n]) by {
        forall i | 0 <= i < n ensures IsSpace(w[..n][i]) {
          assert w[..n][i] == w[i];
        }
      }
      StripBack(x, w[..n]);
    }
  }

  /** Whitespace followed by a non-blank character: the leading whitespace
      run is exactly the first part. */
  lemma {:induction false} LeadingSpacesBefore(w: string, n: string)
    requires AllSpace(w)
    requires n == [] || !IsSpace(n[0])
    ensures LeadingSpaces(w + n) == |w|
    ensures (w + n)[|w|..] == n
    decreases |w|
  {
    if w == [] {
      assert w + n == n;
    } else {
      assert IsSpace(w[0]);
      assert (w + n)[1..] == w[1..] + n;
      assert AllSpace(w[1..]) by {
        forall i | 0 <= i < |w| - 1 ensures IsSpace(w[1..][i]) {
          assert w[1..][i] == w[i + 1];
        }
      }
      LeadingSpacesBefore(w[1..], n);
    }
  }

  /** Digits followed by a non-digit: the leading digit run is exactly the
      first part. */
  lemma {:induction false} LeadingDigitsBefore(d: string, r: string)
    requires AllDigits(d)
    requires r == [] || !IsDigit(r[0])
    ensures LeadingDigits(d + r) == |d|
    ensures (d + r)[..|d|] == d && (d + r)[|d|..] == r
    decreases |d|
  {
    if d == [] {
      assert d + r == r;
    } else {
      assert IsDigit(d[0]);
      assert (d + r)[1..] == d[1..] + r;
      assert AllDigits(d[1..]) by {
        forall i | 0 <= i < |d| - 1 ensures IsDigit(d[1..][i]) {
          assert d[1..][i] == d[i + 1];
        }
      }
      LeadingDigitsBefore(d[1..], r);
    }
  }

  /** The position of the first `c` in `s`, or `|s|` when there is none. */
  function IndexOf(s: string, c: char): (k: nat)
    ensures k <= |s|
    ensures c !in s[..k]
    ensures k < |s| ==> s[k] == c
    ensures k == |s| <==> c !in s
  {
    if s == [] then 0
    else if s[0] == c then 0
    else
      var k := 1 + IndexOf(s[1..], c);
      assert s[..k] == [s[0]] + s[1..][..k - 1];
      assert s == [s[0]] + s[1..];
      k
  }

  lemma IndexOfAfter(a: string, c: char, b: string)
    requires c !in a
    ensures IndexOf(a + [c] + b, c) == |a|
  {
    var s := a + [c] + b;
    assert s[..|a|] == a;
    assert s[|a|] == c;
  }

  /** The position of the last `c` in `s` (what `rsplit(c, 1)` splits at). */
  function LastIndexOf(s: string, c: char): (k: nat)
    requires c in s
    ensures k < |s| && s[k] == c
    ensures c !in s[k + 1..]
  {
    if s[|s| - 1] == c then |s| - 1
    else
      assert s == s[..|s| - 1] + [s[|s| - 1]];
      var k := LastIndexOf(s[..|s| - 1], c);
      assert s[k + 1..] == s[..|s| - 1][k + 1..] + [s[|s| - 1]];
      k
  }

  lemma {:induction false} LastIndexOfBefore(a: string, c: char, b: string)
    requires c !in b
    ensures LastIndexOf(a + [c] + b, c) == |a|
    decreases |b|
  {
    var s := a + [c] + b;
    if b != [] {
      assert s[..|s| - 1] == a + [c] + b[..|b| - 1];
      assert b[|b| - 1] in b;
      LastIndexOfBefore(a, c, b[..|b| - 1]);
    }
  }

  /** `s.split(sep)`: always at least one part, no part contains `sep`. */
  function Split(s: string, sep: char): (parts: seq<string>)
    ensures |parts| >= 1
    ensures forall p :: p in parts ==> sep !in p
    decreases |s|
  {
    var i := IndexOf(s, sep);
    if i == |s| then [s] else [s[..i]] + Split(s[i + 1..], sep)
  }

  /** `sep.join(parts)`. */
  function Join(parts: seq<string>, sep: char): string
  {
    if |parts| == 0 then ""
    else if |parts| == 1 then parts[0]
    else parts[0] + [sep] + Join(parts[1..], sep)
  }

  /** Joining the parts of a split gives the string back. */
  lemma {:induction false} JoinSplit(s: string, sep: char)
    ensures Join(Split(s, sep), sep) == s
    decreases |s|
  {
    var i := IndexOf(s, sep);
    if i < |s| {
      var head, tail := s[..i], s[i + 1..];
      var rest := Split(tail, sep);
      JoinSplit(tail, sep);
      assert Split(s, sep) == [head] + rest;
      assert ([head] + rest)[0] == head && ([head] + rest)[1..] == rest;
      assert Join([head] + rest, sep) == head + [sep] + Join(rest, sep);
      assert s == head + [sep] + tail;
    }
  }

  /** A part without the separator, the separator and a tail split as that
      part followed by the tail's parts. */
  lemma SplitCons(first: string, sep: char, tail: string)
    requires sep !in first
    ensures Split(first + [sep] + tail, sep) == [first] + Split(tail, sep)
  {
    var s := first + [sep] + tail;
    IndexOfAfter(first, sep, tail);
    assert s[..|first|] == first;
    assert s[|first| + 1..] == tail;
  }

  /** Splitting a join of separator-free parts gives the parts back. */
  lemma {:induction false} SplitJoin(parts: seq<string>, sep: char)
    requires |parts| >= 1
    requires forall p :: p in parts ==> sep !in p
    ensures Split(Join(parts, sep), sep) == parts
  {
    assert parts[0] in parts;
    if |parts| > 1 {
      assert forall p :: p in parts[1..] ==> p in parts;
      SplitJoin(parts[1..], sep);
      SplitJoinStep(parts, sep);
    }
  }

  lemma SplitJoinStep(parts: seq<string>, sep: char)
    requires |parts| > 1 && sep !in parts[0]
    requires Split(Join(parts[1..], sep), sep) == parts[1..]
    ensures Split(Join(parts, sep), sep) == parts
  {
    var first, rest := parts[0], parts[1..];
    assert Join(parts, sep) == first + [sep] + Join(rest, sep);
    SplitCons(first, sep, Join(rest, sep));
    assert parts == [first] + rest;
  }

  function DigitChar(d: nat): (c: char)
    requires d < 10
    ensures IsDigit(c)
  {
    ('0' as int + d) as char
  }

  /** The value of a run of decimal digits (leading zeros allowed). */
  function DigitsValue(s: string): nat
    requires AllDigits(s)
  {
    if s == [] then 0
    else DigitsValue(s[..|s| - 1]) * 10 + (s[|s| - 1] as int - '0' as int)
  }

  /** `str(n)` for a natural number: its decimal digits, without leading zeros. */
  function NatToString(n: nat): (r: string)
    ensures |r| >= 1 && AllDigits(r)
    ensures |r| > 1 ==> r[0] != '0'
  {
    if n < 10 then [DigitChar(n)] else NatToString(n / 10) + [DigitChar(n % 10)]
  }

  /** `str(i)` for any integer: a minus sign for negative numbers. */
  function IntToString(i: int): string
  {
    if i < 0 then "-" + NatToString(-i) else NatToString(i)
  }

  /** Reading back the digits of `str(n)` gives `n`. */
  lemma {:induction false} NatToStringValue(n: nat)
    ensures DigitsValue(NatToString(n)) == n
  {
    if n >= 10 {
      NatToStringValue(n / 10);
      var r := NatToString(n);
      assert r[..|r| - 1] == NatToString(n / 10);
    }
  }

  function Repeat(c: char, n: nat): (r: string)
    ensures |r| == n
    ensures forall i :: 0 <= i < n ==> r[i] == c
  {
    seq(n, _ => c)
  }

  /** Leading zeros do not change the value of a digit run. */
  lemma {:induction false} LeadingZerosValue(k: nat, s: string)
    requires AllDigits(s)
    ensures AllDigits(Repeat('0', k) + s)
    ensures DigitsValue(Repeat('0', k) + s) == DigitsValue(s)
    decreases |s|, k
  {
    var z := Repeat('0', k) + s;
    if s == [] {
      assert z == Repeat('0', k);
      if k > 0 {
        assert z[..|z| - 1] == Repeat('0', k - 1) + [];
        LeadingZerosValue(k - 1, []);
      }
    } else {
      assert z[..|z| - 1] == Repeat('0', k) + s[..|s| - 1];
      LeadingZerosValue(k, s[..|s| - 1]);
    }
  }

  function Min(a: int, b: int): int { if a <= b then a else b }
  function Max(a: int, b: int): int { if a >= b then a else b }

  /** Python's `s[:k]`: a negative `k` counts from the end. */
  function PyPrefix<T>(s: seq<T>, k: int): (r: seq<T>)
    ensures |r| == if k >= 0 then Min(k, |s|) else Max(0, |s| + k)
    ensures r == s[..|r|]
  {
    if k >= 0 then s[..Min(k, |s|)] else s[..Max(0, |s| + k)]
  }

  /** Two adjacent slices make up the longer prefix. */
  lemma ConcatSlices<T>(s: seq<T>, i: nat, j: nat)
    requires i <= j <= |s|
    ensures s[..i] + s[i..j] == s[..j]
  {
  }

  /** A prefix grows by its next element. */
  /** A prefix agrees with the whole sequence at each of its positions. */
  lemma PrefixAt<T>(a: seq<T>, b: seq<T>, k: nat)
    requires a <= b && k < |a|
    ensures b[k] == a[k]
  {
  }

  lemma PrefixStep<T>(s: seq<T>, k: nat)
    requires k < |s|
    ensures s[..k + 1] == s[..k] + [s[k]]
  {
  }

  /** A block placed after `a` in a prefix of `c` is the matching slice of `c`. */
  lemma SliceAfter<T>(a: seq<T>, b: seq<T>, c: seq<T>)
    requires a + b <= c
    ensures |a| + |b| <= |c| && c[|a|..|a| + |b|] == b
  {
    assert (a + b)[|a|..|a| + |b|] == b;
  }

  lemma MultisetConcat<T>(a: seq<T>, b: seq<T>, c: seq<T>)
    ensures multiset(a + b + c) == multiset(a) + multiset(b) + multiset(c)
  {
  }
}
