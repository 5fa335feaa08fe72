/**
  The handful of Python string operations the script relies on, with Python's
  semantics: `rfind`, slicing with negative and out-of-range bounds, the `in`
  substring test, `replace`, `translate` with a deletion table, `strip`,
  `lower` and `isdigit`.
*/
module PyStr {

  /** Python's normalisation of one slice bound against a length `n`. */
  function SliceBound(i: int, n: nat): (b: nat)
    ensures b <= n
  {
    if i < 0 then (if n + i < 0 then 0 else n + i) else if i > n then n else i
  }

  /** `s[i:j]`: bounds counted from the back when negative, clamped, empty when crossed. */
  function Slice<T>(s: seq<T>, i: int, j: int): (r: seq<T>)
    ensures |r| <= |s|
  {
    var a, b := SliceBound(i, |s|), SliceBound(j, |s|);
    if a < b then s[a..b] else []
  }

  lemma SliceInRange<T>(s: seq<T>, i: int, j: int)
    requires 0 <= i <= j <= |s|
    ensures Slice(s, i, j) == s[i..j]
  {
  }

  /** `s.rfind(x)`: the last index holding `x`, or -1 when there is none. */
  function RFind<T(==)>(s: seq<T>, x: T): (r: int)
    ensures -1 <= r < |s|
    ensures r >= 0 ==> s[r] == x
    ensures forall k :: r < k < |s| ==> s[k] != x
  {
    if |s| == 0 then -1
    else if s[|s| - 1] == x then |s| - 1
    else RFind(s[..|s| - 1], x)
  }

  /** `rfind` is determined by its contract: the last occurrence, or -1. */
  lemma RFindCharacterised<T>(s: seq<T>, x: T, r: int)
    requires -1 <= r < |s| && (r >= 0 ==> s[r] == x)
    requires forall k :: r < k < |s| ==> s[k] != x
    ensures RFind(s, x) == r
  {
  }

  lemma RFindAbsent<T>(s: seq<T>, x: T)
    ensures RFind(s, x) == -1 <==> x !in s
  {
  }

  /** Cut after `s` and at `d`, a sequence is its three parts; the middle holds no `x` when `x` is absent after `s`. */
  lemma ThreeParts<T>(u: seq<T>, s: int, d: int, x: T)
    requires -1 <= s < d <= |u|
    requires forall k :: s < k < |u| ==> u[k] != x
    ensures x !in u[s + 1..d]
    ensures u[..s + 1] + u[s + 1..d] + u[d..] == u
  {
    var mid := u[s + 1..d];
    forall k | 0 <= k < |mid| ensures mid[k] != x {
      assert mid[k] == u[s + 1 + k];
    }
  }

  /** `p` occurs in `s` at index `i`. */
  predicate OccursAt<T(==)>(s: seq<T>, i: int, p: seq<T>) {
    0 <= i && i + |p| <= |s| && s[i..i + |p|] == p
  }

  /** Python's `p in s` on strings. */
  function Contains<T(==)>(s: seq<T>, p: seq<T>): bool
    decreases |s|
  {
    if |s| < |p| then false else s[..|p|] == p || Contains(s[1..], p)
  }

  lemma {:induction false} ContainsIff<T>(s: seq<T>, p: seq<T>)
    ensures Contains(s, p) <==> exists i :: OccursAt(s, i, p)
    decreases |s|
  {
    if |s| < |p| {
    } else if s[..|p|] == p {
      assert OccursAt(s, 0, p);
    } else {
      ContainsIff(s[1..], p);
      if Contains(s[1..], p) {
        var i :| OccursAt(s[1..], i, p);
        assert s[1..][i..i + |p|] == s[i + 1..i + 1 + |p|];
        assert OccursAt(s, i + 1, p);
      } else {
        assert s[..|p|] == s[0..|p|];
        forall i | OccursAt(s, i, p) && i > 0 ensures OccursAt(s[1..], i - 1, p) {
          assert s[1..][i - 1..i - 1 + |p|] == s[i..i + |p|];
        }
      }
    }
  }

  /** An occurrence of `p` inside `s` is an occurrence inside any extension of `s`. */
  lemma ContainsWitness<T>(s: seq<T>, i: int, p: seq<T>)
    requires OccursAt(s, i, p)
    ensures Contains(s, p)
  {
    ContainsIff(s, p);
  }

  /** `s.replace(pat, rep)`: leftmost non-overlapping occurrences, scanned left to right. */
  function Replace<T(==)>(s: seq<T>, pat: seq<T>, rep: seq<T>): seq<T>
    requires |pat| > 0
    decreases |s|
  {
    if |s| < |pat| then s
    else if s[..|pat|] == pat then rep + Replace(s[|pat|..], pat, rep)
    else [s[0]] + Replace(s[1..], pat, rep)
  }

  /** Replacing a pattern that does not occur changes nothing. */
  lemma {:induction false} ReplaceAbsent<T>(s: seq<T>, pat: seq<T>, rep: seq<T>)
    requires |pat| > 0
    requires forall i :: !OccursAt(s, i, pat)
    ensures Replace(s, pat, rep) == s
    decreases |s|
  {
    if |s| >= |pat| {
      assert !OccursAt(s, 0, pat);
      assert s[..|pat|] == s[0..|pat|];
      forall i ensures !OccursAt(s[1..], i, pat) {
        if OccursAt(s[1..], i, pat) {
          assert s[1..][i..i + |pat|] == s[i + 1..i + 1 + |pat|];
          assert OccursAt(s, i + 1, pat);
        }
      }
      ReplaceAbsent(s[1..], pat, rep);
      assert [s[0]] + s[1..] == s;
    }
  }

  /** A prefix in which no occurrence starts is copied unchanged. */
  lemma {:induction false} ReplaceKeepsPrefix<T>(a: seq<T>, s: seq<T>, pat: seq<T>, rep: seq<T>)
    requires |pat| > 0
    requires forall i :: 0 <= i < |a| ==> !OccursAt(a + s, i, pat)
    ensures Replace(a + s, pat, rep) == a + Replace(s, pat, rep)
    decreases |a|
  {
    if a != [] {
      var t := a + s;
      assert t[1..] == a[1..] + s;
      forall i | 0 <= i < |a[1..]| ensures !OccursAt(t[1..], i, pat) {
        SuffixOccurrence(t, 1, i, pat);
      }
      ReplaceKeepsPrefix(a[1..], s, pat, rep);
      ReplaceNoMatchAtFront(t, pat, rep);
      assert [a[0]] + (a[1..] + Replace(s, pat, rep)) == a + Replace(s, pat, rep);
    } else {
      assert a + s == s;
    }
  }

  /** Where no occurrence starts at the front, the first element is copied and scanning moves on. */
  lemma ReplaceNoMatchAtFront<T>(t: seq<T>, pat: seq<T>, rep: seq<T>)
    requires |pat| > 0 && |t| > 0 && !OccursAt(t, 0, pat)
    ensures Replace(t, pat, rep) == [t[0]] + Replace(t[1..], pat, rep)
  {
    if |t| >= |pat| {
      assert t[..|pat|] == t[0..|pat|];
    } else {
      ReplaceShort(t[1..], pat, rep);
      assert [t[0]] + t[1..] == t;
    }
  }

  /** A sequence shorter than the pattern is left as it is. */
  lemma ReplaceShort<T>(t: seq<T>, pat: seq<T>, rep: seq<T>)
    requires |pat| > 0 && |t| < |pat|
    ensures Replace(t, pat, rep) == t
  {
  }

  /** An occurrence at the front is replaced and scanning resumes after it. */
  lemma ReplaceAtFront<T>(s: seq<T>, pat: seq<T>, rep: seq<T>)
    requires |pat| > 0
    ensures Replace(pat + s, pat, rep) == rep + Replace(s, pat, rep)
  {
    assert (pat + s)[..|pat|] == pat;
    assert (pat + s)[|pat|..] == s;
  }

  /** When `pat` occurs exactly once in `t`, `replace` substitutes that occurrence and nothing else. */
  lemma ReplaceSingle<T>(t: seq<T>, k: int, pat: seq<T>, rep: seq<T>)
    requires |pat| > 0
    requires OccursAt(t, k, pat)
    requires forall i :: i != k ==> !OccursAt(t, i, pat)
    ensures Replace(t, pat, rep) == t[..k] + rep + t[k + |pat|..]
  {
    var a, b := t[..k], t[k + |pat|..];
    assert t == a + (pat + b);
    forall i ensures !OccursAt(b, i, pat) {
      SuffixOccurrence(t, k + |pat|, i, pat);
    }
    ReplaceBetween(a, b, pat, rep);
  }

  /** The pattern between a prefix and a suffix in which it does not start is the one replaced. */
  lemma ReplaceBetween<T>(a: seq<T>, b: seq<T>, pat: seq<T>, rep: seq<T>)
    requires |pat| > 0
    requires forall i :: 0 <= i < |a| ==> !OccursAt(a + (pat + b), i, pat)
    requires forall i :: !OccursAt(b, i, pat)
    ensures Replace(a + (pat + b), pat, rep) == a + rep + b
  {
    ReplaceKeepsPrefix(a, pat + b, pat, rep);
    ReplaceAtFront(b, pat, rep);
    ReplaceAbsent(b, pat, rep);
  }

  /** An occurrence in a suffix is an occurrence in the whole, shifted by where the suffix starts. */
  lemma SuffixOccurrence<T>(t: seq<T>, m: int, i: int, pat: seq<T>)
    requires 0 <= m <= |t|
    ensures OccursAt(t[m..], i, pat) ==> OccursAt(t, m + i, pat)
  {
    if OccursAt(t[m..], i, pat) {
      assert t[m..][i..i + |pat|] == t[m + i..m + i + |pat|];
    }
  }

  /** An occurrence lying wholly inside the middle part of `x + m + y` is an occurrence in `m`. */
  lemma InnerOccurrence<T>(x: seq<T>, m: seq<T>, y: seq<T>, j: int, pat: seq<T>)
    requires 0 <= j && j + |pat| <= |m|
    ensures OccursAt(x + m + y, |x| + j, pat) ==> OccursAt(m, j, pat)
  {
    var t := x + m + y;
    assert t[|x| + j..|x| + j + |pat|] == m[j..j + |pat|];
  }

  /** An occurrence starts where the pattern's first element does; if that element sits only at `k`, `k` is the only occurrence. */
  lemma OnlyOccurrence<T>(t: seq<T>, k: int, pat: seq<T>)
    requires |pat| > 0
    requires forall j :: 0 <= j < |t| && t[j] == pat[0] ==> j == k
    ensures forall i :: i != k ==> !OccursAt(t, i, pat)
  {
    forall i | i != k ensures !OccursAt(t, i, pat) {
      if 0 <= i && i + |pat| <= |t| {
        assert t[i..i + |pat|][0] == t[i];
      }
    }
  }

  /** `s.translate(str.maketrans('', '', table))`: drops every character listed in `table`. */
  function Delete(s: string, table: string): (r: string)
    ensures forall i :: 0 <= i < |r| ==> r[i] !in table
  {
    if s == [] then []
    else if s[0] in table then Delete(s[1..], table)
    else [s[0]] + Delete(s[1..], table)
  }

  /** Every character outside the table survives as often as it occurs; none inside it does. */
  lemma {:induction false} DeleteCounts(s: string, table: string)
    ensures forall c :: c !in table ==> multiset(Delete(s, table))[c] == multiset(s)[c]
    ensures forall c :: c in table ==> multiset(Delete(s, table))[c] == 0
  {
    if s != [] {
      DeleteCounts(s[1..], table);
      assert s == [s[0]] + s[1..];
      assert multiset(s) == multiset{s[0]} + multiset(s[1..]);
    }
  }

  /** Deleting distributes over concatenation: the kept characters keep their order. */
  lemma {:induction false} DeleteConcat(a: string, b: string, table: string)
    ensures Delete(a + b, table) == Delete(a, table) + Delete(b, table)
  {
    if a != [] {
      assert (a + b)[0] == a[0] && (a + b)[1..] == a[1..] + b;
      DeleteConcat(a[1..], b, table);
      if a[0] !in table {
        assert [a[0]] + (Delete(a[1..], table) + Delete(b, table))
            == ([a[0]] + Delete(a[1..], table)) + Delete(b, table);
      }
    } else {
      assert a + b == b;
    }
  }

  /** A string with none of the table's characters is left as it is. */
  lemma {:induction false} DeleteNothing(s: string, table: string)
    requires forall i :: 0 <= i < |s| ==> s[i] !in table
    ensures Delete(s, table) == s
  {
    if s != [] {
      DeleteNothing(s[1..], table);
    }
  }

  lemma DeleteIdempotent(s: string, table: string)
    ensures Delete(Delete(s, table), table) == Delete(s, table)
  {
    DeleteNothing(Delete(s, table), table);
  }

  /** The characters Python's `str.isspace` accepts, which `strip()` removes. */
  predicate IsSpace(c: char) {
    || '\t' <= c <= '\r' || '\U{001C}' <= c <= '\U{001F}' || c == ' '
    || c == '\U{0085}' || c == '\U{00A0}' || c == '\U{1680}' || '\U{2000}' <= c <= '\U{200A}'
    || c == '\U{2028}' || c == '\U{2029}' || c == '\U{202F}' || c == '\U{205F}' || c == '\U{3000}'
  }

  /** The index of the first non-whitespace character at or after `i`, or `|s|`. */
  function SpanStart(s: string, i: int): (n: int)
    requires 0 <= i <= |s|
    ensures i <= n <= |s|
    ensures forall k :: i <= k < n ==> IsSpace(s[k])
    ensures n == |s| || !IsSpace(s[n])
    decreases |s| - i
  {
    if i < |s| && IsSpace(s[i]) then SpanStart(s, i + 1) else i
  }

  /** The index just after the last non-whitespace character before `j`, or 0. */
  function SpanEnd(s: string, j: int): (n: int)
    requires 0 <= j <= |s|
    ensures 0 <= n <= j
    ensures forall k :: n <= k < j ==> IsSpace(s[k])
    ensures n == 0 || !IsSpace(s[n - 1])
  {
    if j > 0 && IsSpace(s[j - 1]) then SpanEnd(s, j - 1) else j
  }

  /** `s.strip()`: `s` without its leading and trailing whitespace. */
  function Strip(s: string): string {
    var i, j := SpanStart(s, 0), SpanEnd(s, |s|);
    if i < j then s[i..j] else []
  }

  /** `strip()` returns a contiguous piece of `s`, cut only where `s` holds whitespace, and ends on no whitespace. */
  lemma StripBounds(s: string) returns (i: int, j: int)
    ensures 0 <= i <= j <= |s| && Strip(s) == s[i..j]
    ensures forall k :: 0 <= k < i ==> IsSpace(s[k])
    ensures forall k :: j <= k < |s| ==> IsSpace(s[k])
    ensures Strip(s) == [] || (!IsSpace(Strip(s)[0]) && !IsSpace(Strip(s)[|Strip(s)| - 1]))
  {
    i, j := SpanStart(s, 0), SpanEnd(s, |s|);
    if j <= i {
      j := i;
    }
  }

  /** A string with no whitespace at either end is its own `strip()`. */
  lemma StripTrimmed(t: string)
    requires t == [] || (!IsSpace(t[0]) && !IsSpace(t[|t| - 1]))
    ensures Strip(t) == t
  {
  }

  /** ASCII `lower()`. */
  function LowerChar(c: char): char {
    if 'A' <= c <= 'Z' then (c as int + 32) as char else c
  }

  function Lower(s: string): (r: string)
    ensures |r| == |s|
  {
    seq(|s|, i requires 0 <= i < |s| => LowerChar(s[i]))
  }

  /** ASCII `isdigit()`. */
  predicate IsDigit(c: char) {
    '0' <= c <= '9'
  }

  /** `''.join(c for c in s if c.isdigit())`. */
  function Digits(s: string): (r: string)
    ensures forall i :: 0 <= i < |r| ==> IsDigit(r[i])
  {
    if s == [] then []
    else if IsDigit(s[0]) then [s[0]] + Digits(s[1..])
    else Digits(s[1..])
  }

  /** The digit filter works piecewise: the digits of `a + b` are those of `a`, then those of `b`. */
  lemma {:induction false} DigitsConcat(a: string, b: string)
    ensures Digits(a + b) == Digits(a) + Digits(b)
    decreases |a|
  {
    if a == [] {
      assert a + b == b;
    } else {
      assert (a + b)[0] == a[0];
      assert (a + b)[1..] == a[1..] + b;
      DigitsConcat(a[1..], b);
    }
  }

  /** One character: a digit is kept, anything else is dropped. */
  lemma DigitsSingle(c: char)
    ensures IsDigit(c) ==> Digits([c]) == [c]
    ensures !IsDigit(c) ==> Digits([c]) == []
  {
    assert [c][1..] == [];
  }

  /** A string of digits is its own digit filter: every digit is kept, in order. */
  lemma {:induction false} DigitsOfDigits(s: string)
    requires forall i :: 0 <= i < |s| ==> IsDigit(s[i])
    ensures Digits(s) == s
    decreases |s|
  {
    if s != [] {
      DigitsOfDigits(s[1..]);
    }
  }
}
