/**
 * The Python string operations the core relies on: `strip`, `lower`,
 * `count`, `replace(c, '')`, `join`, `startswith`/`endswith` and the
 * decimal rendering of an `int` in an f-string.
 *
 * Whitespace is the set of ASCII characters for which `str.isspace` holds;
 * case folding is ASCII only.
 */
module Text {

  predicate IsSpace(c: char) {
    c == ' ' || c == '\t' || c == '\n' || c == '\r' || c == '\U{0B}' || c == '\U{0C}'
    || c == '\U{1C}' || c == '\U{1D}' || c == '\U{1E}' || c == '\U{1F}'
  }

  predicate AllSpace(s: string) {
    forall i :: 0 <= i < |s| ==> IsSpace(s[i])
  }

  /** Neither end of `s` is whitespace (the empty string qualifies). */
  predicate Trimmed(s: string) {
    s == [] || (!IsSpace(s[0]) && !IsSpace(s[|s| - 1]))
  }

  /** The number of whitespace characters at the start of `s`. */
  function LeadingSpaces(s: string): (n: nat)
    ensures n <= |s|
    ensures forall k :: 0 <= k < n ==> IsSpace(s[k])
    ensures n < |s| ==> !IsSpace(s[n])
    decreases |s|
  {
    if s != [] && IsSpace(s[0]) then 1 + LeadingSpaces(s[1..]) else 0
  }

  /** The length of `s` once whitespace at its end is removed. */
  function TrailingStart(s: string): (m: nat)
    ensures m <= |s|
    ensures forall k :: m <= k < |s| ==> IsSpace(s[k])
    ensures m > 0 ==> !IsSpace(s[m - 1])
    decreases |s|
  {
    if s != [] && IsSpace(s[|s| - 1]) then TrailingStart(s[..|s| - 1]) else |s|
  }

  /** Python `s.strip()`: whitespace removed at both ends. */
  function Strip(s: string): (r: string)
    ensures |r| <= |s|
    ensures Trimmed(r)
    ensures r == [] <==> AllSpace(s)
    ensures forall x :: x in r ==> x in s
  {
    var i := LeadingSpaces(s);
    var t := s[i..];
    var r := t[..TrailingStart(t)];
    assert r != [] ==> s[i] == r[0];
    r
  }

  /** What `strip` keeps is a slice of its input, and what it cuts off on either side is whitespace. */
  lemma StripSlice(s: string) returns (i: nat, j: nat)
    ensures i <= j <= |s| && Strip(s) == s[i..j]
    ensures AllSpace(s[..i]) && AllSpace(s[j..])
  {
    i := LeadingSpaces(s);
    var t := s[i..];
    var m := TrailingStart(t);
    j := i + m;
    assert s[j..] == t[m..];
  }

  /** Whitespace around a non-blank string with no whitespace at its ends is exactly what `strip` removes. */
  lemma StripAround(a: string, t: string, b: string)
    requires AllSpace(a) && AllSpace(b) && t != [] && Trimmed(t)
    ensures Strip(a + t + b) == t
  {
    var s := a + t + b;
    assert s[|a|] == t[0];
    assert forall k :: 0 <= k < |a| ==> s[k] == a[k];
    var n := LeadingSpaces(s);
    assert n == |a|;
    var u := s[n..];
    assert u == t + b;
    assert u[|t| - 1] == t[|t| - 1];
    assert forall k :: |t| <= k < |u| ==> u[k] == b[k - |t|];
    assert TrailingStart(u) == |t|;
    assert u[..|t|] == t;
  }

  /** Stripping a string whose ends are not whitespace changes nothing. */
  lemma {:induction false} StripTrimmed(s: string)
    requires Trimmed(s)
    ensures Strip(s) == s
  {
    if s != [] {
      assert LeadingSpaces(s) == 0;
      assert s[0..] == s;
      assert TrailingStart(s) == |s|;
    }
  }

  /** `strip` is idempotent. */
  lemma {:induction false} StripIdempotent(s: string)
    ensures Strip(Strip(s)) == Strip(s)
  {
    StripTrimmed(Strip(s));
  }

  /** Removing one trailing blank from a trimmed non-empty string. */
  lemma {:induction false} StripTrailingBlank(s: string)
    requires s != [] && Trimmed(s)
    ensures Strip(s + " ") == s
  {
    var t := s + " ";
    assert LeadingSpaces(t) == 0;
    assert t[0..] == t;
    assert t[..|t| - 1] == s;
    assert TrailingStart(s) == |s|;
    assert TrailingStart(t) == |s|;
  }

  function LowerChar(c: char): char {
    if 'A' <= c <= 'Z' then (c as int + 32) as char else c
  }

  /** Python `s.lower()` restricted to ASCII letters. */
  function Lower(s: string): (r: string)
    ensures |r| == |s|
    ensures forall i :: 0 <= i < |s| ==> r[i] == LowerChar(s[i])
  {
    seq(|s|, i requires 0 <= i < |s| => LowerChar(s[i]))
  }

  /** Python `s.replace(c, '')`. */
  function RemoveChar(s: string, c: char): (r: string)
    ensures c !in r
    ensures |r| <= |s|
    ensures forall x :: x in r ==> x in s
    decreases |s|
  {
    if s == [] then []
    else (if s[0] == c then [] else [s[0]]) + RemoveChar(s[1..], c)
  }

  lemma {:induction false} RemoveCharAbsent(s: string, c: char)
    requires c !in s
    ensures RemoveChar(s, c) == s
  {
    if s != [] {
      assert c !in s[1..];
      RemoveCharAbsent(s[1..], c);
      assert [s[0]] + s[1..] == s;
    }
  }

  /** Removing a character from a single character. */
  lemma RemoveCharOne(x: char, c: char)
    ensures RemoveChar([x], c) == if x == c then [] else [x]
  {
  }

  /** Removing a character works piece by piece: it distributes over concatenation. */
  lemma {:induction false} RemoveCharAppend(a: string, b: string, c: char)
    ensures RemoveChar(a + b, c) == RemoveChar(a, c) + RemoveChar(b, c)
    decreases |a|
  {
    if a != [] {
      assert (a + b)[1..] == a[1..] + b;
      RemoveCharAppend(a[1..], b, c);
    } else {
      assert a + b == b;
    }
  }

  /** `q` occurs in `t` at position `i`. */
  predicate OccursAt(t: string, q: string, i: int) {
    0 <= i && i + |q| <= |t| && t[i..i + |q|] == q
  }

  /** Python `q in t`. */
  predicate Contains(t: string, q: string) {
    exists i | 0 <= i <= |t| - |q| :: OccursAt(t, q, i)
  }

  /**
   * Python `t.count(q)`: the number of non-overlapping occurrences of `q` in `t`,
   * scanning left to right; an empty `q` is counted `len(t) + 1` times.
   */
  function CountOccurrences(t: string, q: string): (n: nat)
    ensures q != [] ==> n * |q| <= |t|
    decreases |t|
  {
    if q == [] then |t| + 1
    else if |t| < |q| then 0
    else if t[..|q|] == q then
      var m := CountOccurrences(t[|q|..], q);
      assert (1 + m) * |q| == |q| + m * |q|;
      1 + m
    else CountOccurrences(t[1..], q)
  }

  /** Occurrences do not overlap, and the empty string is counted between every two characters. */
  lemma CountExamples()
    ensures CountOccurrences("aaa", "aa") == 1
    ensures CountOccurrences("abab", "ab") == 2
    ensures CountOccurrences("ab", "") == 3
  {
    assert "aaa"[..2] == "aa" && "aaa"[2..] == "a";
    assert "abab"[..2] == "ab" && "abab"[2..] == "ab" && "ab"[..2] == "ab" && "ab"[2..] == [];
  }

  /** The count is positive exactly when the needle occurs somewhere in the text. */
  lemma {:induction false} CountPositiveIffContains(t: string, q: string)
    ensures CountOccurrences(t, q) > 0 <==> Contains(t, q)
    decreases |t|
  {
    if q == [] {
      assert OccursAt(t, q, 0);
    } else if |t| < |q| {
    } else if t[..|q|] == q {
      assert OccursAt(t, q, 0);
    } else {
      CountPositiveIffContains(t[1..], q);
      if Contains(t[1..], q) {
        var i :| 0 <= i <= |t[1..]| - |q| && OccursAt(t[1..], q, i);
        assert forall k :: 0 <= k < |q| ==> q[k] == t[i + 1 + k];
        assert t[i + 1..i + 1 + |q|] == q;
        assert OccursAt(t, q, i + 1);
      }
      if Contains(t, q) {
        var i :| 0 <= i <= |t| - |q| && OccursAt(t, q, i);
        assert i != 0;
        assert t[1..][i - 1..i - 1 + |q|] == t[i..i + |q|];
        assert OccursAt(t[1..], q, i - 1);
      }
    }
  }

  /**
   * Python `sep.join(xs)`. Written from the last element, so that appending one
   * more element appends `sep` and that element.
   */
  function JoinWith(sep: string, xs: seq<string>): string
    decreases |xs|
  {
    if |xs| == 0 then ""
    else if |xs| == 1 then xs[0]
    else JoinWith(sep, xs[..|xs| - 1]) + sep + xs[|xs| - 1]
  }

  /** Joining two non-empty lists puts one separator between their joins. */
  lemma {:induction false} JoinWithAppend(sep: string, xs: seq<string>, ys: seq<string>)
    requires xs != [] && ys != []
    ensures JoinWith(sep, xs + ys) == JoinWith(sep, xs) + sep + JoinWith(sep, ys)
    decreases |ys|
  {
    var zs := xs + ys;
    if |ys| == 1 {
      assert zs[..|zs| - 1] == xs;
    } else {
      var ys' := ys[..|ys| - 1];
      assert zs[..|zs| - 1] == xs + ys';
      JoinWithAppend(sep, xs, ys');
    }
  }

  /** Every joined element occurs in the joined string. */
  lemma {:induction false} JoinWithContains(sep: string, xs: seq<string>, k: nat)
    requires k < |xs|
    ensures Contains(JoinWith(sep, xs), xs[k])
    decreases |xs|
  {
    var j := JoinWith(sep, xs);
    if |xs| == 1 {
      assert OccursAt(j, xs[k], 0);
    } else if k == |xs| - 1 {
      var p := JoinWith(sep, xs[..|xs| - 1]) + sep;
      assert j == p + xs[k];
      assert OccursAt(j, xs[k], |p|);
    } else {
      var p := JoinWith(sep, xs[..|xs| - 1]);
      assert xs[..|xs| - 1][k] == xs[k];
      JoinWithContains(sep, xs[..|xs| - 1], k);
      var i :| 0 <= i <= |p| - |xs[k]| && OccursAt(p, xs[k], i);
      assert j == p + (sep + xs[|xs| - 1]);
      assert j[i..i + |xs[k]|] == p[i..i + |xs[k]|];
      assert OccursAt(j, xs[k], i);
    }
  }

  /** Text containing `s` contains it still when more text is put around it. */
  lemma ContainsInContext(a: string, s: string, b: string, q: string)
    requires Contains(s, q)
    ensures Contains(a + s + b, q)
  {
    var i :| 0 <= i <= |s| - |q| && OccursAt(s, q, i);
    assert (a + s + b)[|a| + i..|a| + i + |q|] == s[i..i + |q|];
    assert OccursAt(a + s + b, q, |a| + i);
  }

  /** An f-string with two fields: `f"{head}{x}{mid}{y}{tail}"` with the literal parts fixed. */
  function Fill(head: string, x: string, mid: string, y: string, tail: string): string {
    head + x + mid + y + tail
  }

  /** Anything occurring in the first field of a filled template occurs in it. */
  lemma FillContainsFirst(head: string, x: string, mid: string, y: string, tail: string, q: string)
    requires Contains(x, q)
    ensures Contains(Fill(head, x, mid, y, tail), q)
  {
    ContainsInContext(head, x, mid + y + tail, q);
    assert head + x + (mid + y + tail) == Fill(head, x, mid, y, tail);
  }

  /** The second field of a filled template occurs in it. */
  lemma FillContainsSecond(head: string, x: string, mid: string, y: string, tail: string)
    ensures Contains(Fill(head, x, mid, y, tail), y)
  {
    assert OccursAt(y, y, 0);
    ContainsInContext(head + x + mid, y, tail, y);
  }

  function DigitChar(d: nat): (c: char)
    requires d < 10
    ensures '0' <= c <= '9'
  {
    ('0' as int + d) as char
  }

  /** Decimal rendering of a natural number, as `str(n)` or `f"{n}"` gives it. */
  function NatToString(n: nat): (s: string)
    ensures s != []
    ensures forall i :: 0 <= i < |s| ==> '0' <= s[i] <= '9'
    ensures s[0] == '0' ==> n == 0
    decreases n
  {
    if n < 10 then [DigitChar(n)] else NatToString(n / 10) + [DigitChar(n % 10)]
  }

  /** The number a string of decimal digits denotes, as `int(s)` reads it. */
  function DigitsValue(s: string): nat
    requires forall i :: 0 <= i < |s| ==> '0' <= s[i] <= '9'
    decreases |s|
  {
    if s == [] then 0 else 10 * DigitsValue(s[..|s| - 1]) + (s[|s| - 1] as int - '0' as int)
  }

  /** Reading back the decimal rendering gives the number. */
  lemma {:induction false} NatToStringRoundTrip(n: nat)
    ensures DigitsValue(NatToString(n)) == n
    decreases n
  {
    var s := NatToString(n);
    if n >= 10 {
      NatToStringRoundTrip(n / 10);
      assert s[..|s| - 1] == NatToString(n / 10);
    }
  }

  /** Different numbers have different renderings. */
  lemma NatToStringInjective(m: nat, n: nat)
    requires NatToString(m) == NatToString(n)
    ensures m == n
  {
    NatToStringRoundTrip(m);
    NatToStringRoundTrip(n);
  }
}
