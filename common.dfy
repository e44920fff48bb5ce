/** Shared vocabulary for the model: optional values and results, the string
    operations the Python and TypeScript sources use (`str.join`, `str.split`,
    `str(int)`), and counting over sequences. */
module Common {

  datatype Option<+T> = None | Some(value: T)

  /** The outcome of an operation that the source can abort with an exception. */
  datatype Result<+T, +E> = Ok(value: T) | Err(error: E)

  // ---------------------------------------------------------------------------
  // Substrings

  predicate OccursAt(s: string, pat: string, i: nat)
  {
    i + |pat| <= |s| && s[i..i + |pat|] == pat
  }

  predicate Contains(s: string, pat: string)
  {
    exists i: nat :: i <= |s| && OccursAt(s, pat, i)
  }

  predicate StartsWith(s: string, pat: string)
  {
    |pat| <= |s| && s[..|pat|] == pat
  }

  /** The first occurrence of `pat` in `s` at or after `from`. */
  function IndexFrom(s: string, pat: string, from: nat): (r: Option<nat>)
    requires |pat| > 0
    ensures r.Some? ==> from <= r.value && OccursAt(s, pat, r.value)
    ensures r.Some? ==> forall j: nat :: from <= j < r.value ==> !OccursAt(s, pat, j)
    ensures r.None? ==> forall j: nat :: from <= j ==> !OccursAt(s, pat, j)
    decreases |s| - from
  {
    if from + |pat| > |s| then None
    else if s[from..from + |pat|] == pat then Some(from)
    else IndexFrom(s, pat, from + 1)
  }

  /** The first occurrence of `pat` in `s` (JavaScript `indexOf`, Python `find`). */
  function IndexOf(s: string, pat: string): (r: Option<nat>)
    requires |pat| > 0
    ensures r.Some? ==> OccursAt(s, pat, r.value) && forall j: nat :: j < r.value ==> !OccursAt(s, pat, j)
    ensures r.None? <==> !Contains(s, pat)
  {
    IndexFrom(s, pat, 0)
  }

  /** The last occurrence of `pat` in `s` (JavaScript `lastIndexOf`). */
  function LastIndexOf(s: string, pat: string): (r: Option<nat>)
    requires |pat| > 0
    ensures r.Some? ==> OccursAt(s, pat, r.value) && forall j: nat :: r.value < j ==> !OccursAt(s, pat, j)
    ensures r.None? <==> !Contains(s, pat)
    decreases |s|
  {
    if |s| < |pat| then None
    else if s[|s| - |pat|..] == pat then Some(|s| - |pat|)
    else
      var r := LastIndexOf(s[..|s| - 1], pat);
      assert forall j: nat :: OccursAt(s[..|s| - 1], pat, j) <==> OccursAt(s, pat, j) && j + |pat| < |s| by {
        forall j: nat ensures OccursAt(s[..|s| - 1], pat, j) <==> OccursAt(s, pat, j) && j + |pat| < |s| {
          if j + |pat| < |s| {
            assert s[..|s| - 1][j..j + |pat|] == s[j..j + |pat|];
          }
        }
      }
      assert !OccursAt(s, pat, |s| - |pat|);
      r
  }

  // ---------------------------------------------------------------------------
  // Join and split

  /** Python `sep.join(parts)`, JavaScript `parts.join(sep)`. */
  function Join(parts: seq<string>, sep: string): string
  {
    if |parts| == 0 then ""
    else if |parts| == 1 then parts[0]
    else parts[0] + sep + Join(parts[1..], sep)
  }

  /** Python `s.split(sep)` and JavaScript `s.split(sep)` for a non-empty
      separator: the pieces between successive leftmost occurrences. */
  function Split(s: string, sep: string): (parts: seq<string>)
    requires |sep| > 0
    ensures |parts| >= 1
    decreases |s|
  {
    match IndexOf(s, sep)
    case None => [s]
    case Some(i) => [s[..i]] + Split(s[i + |sep|..], sep)
  }

  /** Joining the pieces of a split gives back the text. */
  lemma {:induction false} JoinSplit(s: string, sep: string)
    requires |sep| > 0
    ensures Join(Split(s, sep), sep) == s
    decreases |s|
  {
    match IndexOf(s, sep)
    case None =>
    case Some(i) =>
      var rest := s[i + |sep|..];
      var tail := Split(rest, sep);
      JoinSplit(rest, sep);
      assert Split(s, sep) == [s[..i]] + tail;
      assert ([s[..i]] + tail)[1..] == tail;
      assert Join(Split(s, sep), sep) == s[..i] + sep + Join(tail, sep);
      assert s == s[..i] + sep + rest by {
        assert OccursAt(s, sep, i);
      }
  }

  /** No piece of a split contains the separator. */
  lemma {:induction false} SplitPiecesFree(s: string, sep: string)
    requires |sep| > 0
    ensures forall p :: p in Split(s, sep) ==> !Contains(p, sep)
    decreases |s|
  {
    match IndexOf(s, sep)
    case None =>
      assert Split(s, sep) == [s];
    case Some(i) =>
      var head, rest := SplitHead(s, sep, i);
      SplitPiecesFree(s[i + |sep|..], sep);
      forall p | p in Split(s, sep) ensures !Contains(p, sep) {
        if p != head {
          assert p in rest;
        }
      }
  }

  /** The first piece of a split, which holds no separator, and the rest. */
  lemma SplitHead(s: string, sep: string, i: nat) returns (head: string, rest: seq<string>)
    requires |sep| > 0 && IndexOf(s, sep) == Some(i)
    ensures head == s[..i] && rest == Split(s[i + |sep|..], sep)
    ensures Split(s, sep) == [head] + rest && !Contains(head, sep)
  {
    head, rest := s[..i], Split(s[i + |sep|..], sep);
    TextBeforeFirstOccurrence(s, sep, i);
  }

  /** The text before the first occurrence of `pat` does not contain it. */
  lemma TextBeforeFirstOccurrence(s: string, pat: string, i: nat)
    requires |pat| > 0 && OccursAt(s, pat, i)
    requires forall j: nat :: j < i ==> !OccursAt(s, pat, j)
    ensures !Contains(s[..i], pat)
  {
    var head := s[..i];
    forall j: nat | j + |pat| <= |head| ensures !OccursAt(head, pat, j) {
      assert head[j..j + |pat|] == s[j..j + |pat|];
      assert !OccursAt(s, pat, j);
    }
  }

  /** Splitting a joined list gives back the list, when the separator's first
      character occurs in no piece. */
  lemma {:induction false} SplitJoin(parts: seq<string>, sep: string)
    requires |sep| > 0 && |parts| >= 1
    requires forall p :: p in parts ==> sep[0] !in p
    ensures Split(Join(parts, sep), sep) == parts
    decreases |parts|
  {
    var s := Join(parts, sep);
    var h := parts[0];
    if |parts| == 1 {
      forall j: nat ensures !OccursAt(s, sep, j) {
        if j + |sep| <= |s| {
          assert s[j..j + |sep|][0] == s[j];
          assert s[j] in h;
        }
      }
      assert IndexOf(s, sep).None?;
    } else {
      var rest := Join(parts[1..], sep);
      assert s == h + sep + rest;
      assert OccursAt(s, sep, |h|) by { assert s[|h|..|h| + |sep|] == sep; }
      forall j: nat | j < |h| ensures !OccursAt(s, sep, j) {
        if j + |sep| <= |s| {
          assert s[j..j + |sep|][0] == s[j];
          assert s[j] == h[j] && h[j] in h;
        }
      }
      assert IndexOf(s, sep) == Some(|h|);
      assert s[|h| + |sep|..] == rest;
      assert s[..|h|] == h;
      assert Split(s, sep) == [h] + Split(rest, sep);
      SplitJoin(parts[1..], sep);
      assert parts == [h] + parts[1..];
    }
  }

  /** Splitting on a one-character separator gives one piece more than the
      number of occurrences of that character. */
  lemma {:induction false} SplitCountOneChar(s: string, c: char)
    ensures |Split(s, [c])| == Count(c, s) + 1
    decreases |s|
  {
    match IndexOf(s, [c])
    case None =>
      CountZeroNotIn(c, s);
      forall k | 0 <= k < |s| ensures s[k] != c {
        assert !OccursAt(s, [c], k);
        assert s[k..k + 1] == [s[k]];
      }
    case Some(i) =>
      var rest := s[i + 1..];
      SplitCountOneChar(rest, c);
      assert s == s[..i] + [c] + rest;
      CountAppend(c, s[..i] + [c], rest);
      CountAppend(c, s[..i], [c]);
      forall k | 0 <= k < i ensures s[..i][k] != c {
        assert !OccursAt(s, [c], k);
        assert s[k..k + 1] == [s[k]];
      }
      CountZeroNotIn(c, s[..i]);
      assert Count(c, [c]) == 1 by { assert [c][..0] == []; }
  }

  // ---------------------------------------------------------------------------
  // Decimal numerals (Python `str(n)` for n >= 0)

  predicate IsDigit(c: char)
  {
    '0' <= c <= '9'
  }

  function DigitChar(d: nat): (c: char)
    requires d < 10
    ensures IsDigit(c)
  {
    ('0' as int + d) as char
  }

  function NatToString(n: nat): (s: string)
    ensures |s| >= 1 && forall i :: 0 <= i < |s| ==> IsDigit(s[i])
  {
    if n < 10 then [DigitChar(n)] else NatToString(n / 10) + [DigitChar(n % 10)]
  }

  /** The value of a string of decimal digits. */
  function DigitsValue(s: string): nat
    requires forall i :: 0 <= i < |s| ==> IsDigit(s[i])
  {
    if s == [] then 0
    else
      var c := s[|s| - 1];
      assert IsDigit(c);
      DigitsValue(s[..|s| - 1]) * 10 + (c as int - '0' as int)
  }

  /** Reading back a printed number gives the number. */
  lemma {:induction false} DigitsValueOfNatToString(n: nat)
    ensures DigitsValue(NatToString(n)) == n
  {
    var s := NatToString(n);
    if n >= 10 {
      DigitsValueOfNatToString(n / 10);
      assert s[..|s| - 1] == NatToString(n / 10);
    }
  }

  lemma NatToStringInjective(a: nat, b: nat)
    requires NatToString(a) == NatToString(b)
    ensures a == b
  {
    DigitsValueOfNatToString(a);
    DigitsValueOfNatToString(b);
  }

  /** `p + str(i)` determines `i`. */
  lemma PrefixedNumberInjective(p: string, i: nat, j: nat)
    requires p + NatToString(i) == p + NatToString(j)
    ensures i == j
  {
    var si, sj := NatToString(i), NatToString(j);
    assert (p + si)[|p|..] == si;
    assert (p + sj)[|p|..] == sj;
    NatToStringInjective(i, j);
  }

  /** In `name + "_" + digits` no character after the underscore is one. */
  lemma DigitsAfterUnderscore(a: string, d: string)
    requires forall i :: 0 <= i < |d| ==> IsDigit(d[i])
    ensures (a + "_" + d)[|a|] == '_'
    ensures forall j :: |a| < j < |a| + 1 + |d| ==> (a + "_" + d)[j] != '_'
  {
    var s := a + "_" + d;
    forall j | |a| < j < |s| ensures s[j] != '_' {
      assert s[j] == d[j - |a| - 1];
    }
  }

  /** `name + "_" + str(k)` determines both `name` and `k`: the versioned names
      of the model never collide. */
  lemma SuffixedNameInjective(a: string, i: nat, b: string, j: nat)
    requires a + "_" + NatToString(i) == b + "_" + NatToString(j)
    ensures a == b && i == j
  {
    var di, dj := NatToString(i), NatToString(j);
    var s := a + "_" + di;
    DigitsAfterUnderscore(a, di);
    DigitsAfterUnderscore(b, dj);
    assert |a| == |b|;
    assert s[..|a|] == a;
    assert (b + "_" + dj)[..|b|] == b;
    assert s[|a| + 1..] == di;
    assert (b + "_" + dj)[|b| + 1..] == dj;
    NatToStringInjective(i, j);
  }

  /** Python `str(n)` for any integer. */
  function IntToString(n: int): (s: string)
    ensures |s| >= 1 && '_' !in s
  {
    var digits := NatToString(if n >= 0 then n else -n);
    assert forall i :: 0 <= i < |digits| ==> digits[i] != '_';
    if n >= 0 then digits else "-" + digits
  }

  lemma IntToStringInjective(a: int, b: int)
    requires IntToString(a) == IntToString(b)
    ensures a == b
  {
    assert IntToString(a)[0] == '-' <==> a < 0 by {
      assert a >= 0 ==> IsDigit(IntToString(a)[0]);
    }
    assert IntToString(b)[0] == '-' <==> b < 0 by {
      assert b >= 0 ==> IsDigit(IntToString(b)[0]);
    }
    if a >= 0 {
      NatToStringInjective(a, b);
    } else {
      assert IntToString(a)[1..] == NatToString(-a);
      assert IntToString(b)[1..] == NatToString(-b);
      NatToStringInjective(-a, -b);
    }
  }

  predicate AllDigits(s: string)
  {
    forall i :: 0 <= i < |s| ==> IsDigit(s[i])
  }

  /** Reads a decimal numeral, negative after a leading `-`; anything else
      reads as 0. */
  function IntValue(s: string): int
  {
    if |s| >= 1 && s[0] == '-' && AllDigits(s[1..]) then -(DigitsValue(s[1..]) as int)
    else if AllDigits(s) then DigitsValue(s)
    else 0
  }

  /** Reading back a printed integer gives the integer. */
  lemma IntValueOfIntToString(n: int)
    ensures IntValue(IntToString(n)) == n
  {
    var s := IntToString(n);
    if n >= 0 {
      assert IsDigit(s[0]);
      DigitsValueOfNatToString(n);
    } else {
      assert s[1..] == NatToString(-n);
      DigitsValueOfNatToString(-n);
    }
  }

  /** `name + "_" + suffix` determines both parts when the suffix has no
      underscore. */
  lemma UnderscoreSuffixInjective(a: string, da: string, b: string, db: string)
    requires '_' !in da && '_' !in db
    requires a + "_" + da == b + "_" + db
    ensures a == b && da == db
  {
    var s := a + "_" + da;
    forall j | |a| < j < |s| ensures s[j] != '_' {
      assert s[j] == da[j - |a| - 1];
    }
    forall j | |b| < j < |s| ensures s[j] != '_' {
      assert s[j] == db[j - |b| - 1];
    }
    assert s[|a|] == '_' && s[|b|] == '_';
    assert s[..|a|] == a;
    assert (b + "_" + db)[..|b|] == b;
    assert s[|a| + 1..] == da;
    assert (b + "_" + db)[|b| + 1..] == db;
  }

  // ---------------------------------------------------------------------------
  // Counting and flattening

  function Count<T(==)>(x: T, s: seq<T>): nat
  {
    if s == [] then 0 else Count(x, s[..|s| - 1]) + (if s[|s| - 1] == x then 1 else 0)
  }

  lemma {:induction false} CountAppend<T>(x: T, a: seq<T>, b: seq<T>)
    ensures Count(x, a + b) == Count(x, a) + Count(x, b)
    decreases |b|
  {
    if b != [] {
      assert (a + b)[..|a + b| - 1] == a + b[..|b| - 1];
      CountAppend(x, a, b[..|b| - 1]);
    } else {
      assert a + b == a;
    }
  }

  lemma {:induction false} CountZeroNotIn<T>(x: T, s: seq<T>)
    ensures Count(x, s) == 0 <==> x !in s
    decreases |s|
  {
    if s != [] {
      CountZeroNotIn(x, s[..|s| - 1]);
      assert s == s[..|s| - 1] + [s[|s| - 1]];
    }
  }

  /** Counting over a prefix never exceeds counting over the whole. */
  lemma CountPrefix<T>(x: T, s: seq<T>, k: nat)
    requires k <= |s|
    ensures Count(x, s[..k]) <= Count(x, s)
  {
    assert s == s[..k] + s[k..];
    CountAppend(x, s[..k], s[k..]);
  }

  function Flatten<T>(ss: seq<seq<T>>): seq<T>
  {
    if ss == [] then [] else Flatten(ss[..|ss| - 1]) + ss[|ss| - 1]
  }

  lemma {:induction false} FlattenMember<T>(ss: seq<seq<T>>, x: T)
    ensures x in Flatten(ss) <==> exists i :: 0 <= i < |ss| && x in ss[i]
    decreases |ss|
  {
    if ss != [] {
      FlattenMember(ss[..|ss| - 1], x);
      if x in Flatten(ss[..|ss| - 1]) {
        var i :| 0 <= i < |ss| - 1 && x in ss[..|ss| - 1][i];
        assert x in ss[i];
      }
      if exists i :: 0 <= i < |ss| && x in ss[i] {
        var i :| 0 <= i < |ss| && x in ss[i];
        if i < |ss| - 1 {
          assert x in ss[..|ss| - 1][i];
        }
      }
    }
  }

  /** `a` is `b` with some elements left out, the rest kept in order. */
  predicate IsSubsequence<T(==)>(a: seq<T>, b: seq<T>)
    decreases |b|
  {
    if a == [] then true
    else if b == [] then false
    else if a[|a| - 1] == b[|b| - 1] then IsSubsequence(a[..|a| - 1], b[..|b| - 1])
    else IsSubsequence(a, b[..|b| - 1])
  }

  predicate NoDuplicates<T(==)>(s: seq<T>)
  {
    forall i, j :: 0 <= i < j < |s| ==> s[i] != s[j]
  }

  function Repeat(s: string, n: nat): (r: string)
    ensures |r| == |s| * n
  {
    if n == 0 then "" else Repeat(s, n - 1) + s
  }

  function Elems<T>(s: seq<T>): set<T>
  {
    set x | x in s
  }

  lemma ElemsSnoc<T>(s: seq<T>, x: T)
    ensures Elems(s + [x]) == Elems(s) + {x}
  {
  }

  /** A sequence without duplicates whose elements all lie in `u` is no longer
      than `u` is large. */
  lemma {:induction false} DistinctWithin<T>(s: seq<T>, u: set<T>)
    requires NoDuplicates(s)
    requires forall x :: x in s ==> x in u
    ensures |s| <= |u|
    decreases |s|
  {
    if s != [] {
      var x := s[|s| - 1];
      var init := s[..|s| - 1];
      forall y | y in init ensures y in u - {x} {
        var i :| 0 <= i < |init| && init[i] == y;
        assert s[i] == y;
      }
      DistinctWithin(init, u - {x});
    }
  }

  /** Growing the searched set by an element of `u` shrinks what remains. */
  lemma RemainingShrinks<T>(u: set<T>, before: set<T>, after: set<T>, x: T)
    requires before <= after && x in u && x in after && x !in before
    ensures |u - after| < |u - before|
  {
    var rb, ra := u - before, u - after;
    assert ra <= rb - {x};
    assert x in rb;
    SubsetCard(ra, rb - {x});
  }

  lemma SubsetCard<T>(a: set<T>, b: set<T>)
    requires a <= b
    ensures |a| <= |b|
  {
    assert b == a + (b - a);
  }

  /** An occurrence of `x` at `j` is counted in the whole but not in the
      prefix before it. */
  lemma CountBeforeOccurrence<T>(x: T, s: seq<T>, j: nat)
    requires j < |s| && s[j] == x
    ensures Count(x, s[..j]) < Count(x, s)
  {
    assert s == s[..j] + s[j..];
    CountAppend(x, s[..j], s[j..]);
    CountZeroNotIn(x, s[j..]);
    assert s[j..][0] == x;
  }
}
