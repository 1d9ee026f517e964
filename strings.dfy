/** String helpers shared by the formula scanner, the normaliser and the
    placeholder code: ECMAScript whitespace, trimming, `indexOf`, the
    one-shot `String.prototype.replace` with a string pattern, and decimal
    rendering of indices. */
module Strings {

  datatype Option<T> = None | Some(value: T)

  /** The characters matched by `\s` in an ECMAScript regular expression and
      removed by `String.prototype.trim`: WhiteSpace (tab, vertical tab, form
      feed, space, no-break space, zero-width no-break space and the Unicode
      space separators) and LineTerminator (line feed, carriage return, line
      and paragraph separators). Both sets are the same in ECMA-262. */
  predicate IsSpace(c: char) {
    c == ' ' || c == '\t' || c == '\n' || c == '\U{000B}' || c == '\U{000C}' || c == '\r'
    || c == '\U{00A0}' || c == '\U{1680}' || ('\U{2000}' <= c <= '\U{200A}')
    || c == '\U{2028}' || c == '\U{2029}' || c == '\U{202F}' || c == '\U{205F}'
    || c == '\U{3000}' || c == '\U{FEFF}'
  }

  /** The end of the run of whitespace that starts at `i`. */
  function SkipSpaces(s: string, i: nat): (j: nat)
    requires i <= |s|
    ensures i <= j <= |s|
    ensures forall k :: i <= k < j ==> IsSpace(s[k])
    ensures j == |s| || !IsSpace(s[j])
    decreases |s| - i
  {
    if i < |s| && IsSpace(s[i]) then SkipSpaces(s, i + 1) else i
  }

  /** The start of the run of whitespace that ends at `j`. */
  function BackSpaces(s: string, j: nat): (i: nat)
    requires j <= |s|
    ensures i <= j
    ensures forall k :: i <= k < j ==> IsSpace(s[k])
    ensures i == 0 || !IsSpace(s[i - 1])
  {
    if j > 0 && IsSpace(s[j - 1]) then BackSpaces(s, j - 1) else j
  }

  /** `String.prototype.trim`. */
  function Trim(s: string): (r: string)
  {
    var t := s[SkipSpaces(s, 0)..];
    t[..BackSpaces(t, |t|)]
  }

  /** What `trim` returns: the slice of `s` between its leading and its
      trailing whitespace, which therefore neither starts nor ends with
      whitespace. */
  lemma TrimSlice(s: string) returns (i: nat, j: nat)
    ensures i <= j <= |s| && Trim(s) == s[i..j]
    ensures forall k :: 0 <= k < i ==> IsSpace(s[k])
    ensures forall k :: j <= k < |s| ==> IsSpace(s[k])
    ensures Trim(s) == [] || (!IsSpace(Trim(s)[0]) && !IsSpace(Trim(s)[|Trim(s)| - 1]))
  {
    i := SkipSpaces(s, 0);
    var t := s[i..];
    var b := BackSpaces(t, |t|);
    j := i + b;
    assert t[..b] == s[i..j];
    forall k | j <= k < |s| ensures IsSpace(s[k]) {
      assert s[k] == t[k - i];
    }
    if b > 0 {
      assert t[0] == s[i];
      assert !IsSpace(t[0]) by {
        assert i < |s|;
      }
    }
  }

  /** `trim` leaves a string alone that neither starts nor ends with whitespace. */
  lemma TrimUnchanged(s: string)
    requires s == [] || (!IsSpace(s[0]) && !IsSpace(s[|s| - 1]))
    ensures Trim(s) == s
  {
    assert SkipSpaces(s, 0) == 0;
    assert s[0..] == s;
    assert BackSpaces(s, |s|) == |s|;
  }

  predicate OccursAt(s: string, pat: string, k: nat) {
    k + |pat| <= |s| && s[k..k + |pat|] == pat
  }

  /** `s.indexOf(pat, from)`: the first position at or after `from` where
      `pat` occurs, or `None` (JavaScript's -1). */
  function IndexOf(s: string, pat: string, from: nat): (r: Option<nat>)
    ensures r.Some? ==> from <= r.value && OccursAt(s, pat, r.value)
    ensures r.Some? ==> forall k :: from <= k < r.value ==> !OccursAt(s, pat, k)
    ensures r.None? ==> forall k :: from <= k ==> !OccursAt(s, pat, k)
    decreases |s| - from
  {
    if |s| < from + |pat| then None
    else if OccursAt(s, pat, from) then Some(from)
    else IndexOf(s, pat, from + 1)
  }

  /** `s.replace(pat, rep)` with a string pattern and a replacement holding no
      `$`: only the first occurrence of `pat` is replaced, and a string in
      which `pat` does not occur is returned unchanged. */
  function ReplaceFirst(s: string, pat: string, rep: string): (r: string)
    ensures (forall k: nat :: !OccursAt(s, pat, k)) ==> r == s
    ensures forall k: nat :: OccursAt(s, pat, k) && (forall k': nat :: k' < k ==> !OccursAt(s, pat, k')) ==>
              r == s[..k] + rep + s[k + |pat|..]
  {
    match IndexOf(s, pat, 0)
    case None => s
    case Some(k) => s[..k] + rep + s[k + |pat|..]
  }

  function Digit(d: nat): (c: char)
    requires d < 10
    ensures '0' <= c <= '9'
  {
    ('0' as int + d) as char
  }

  function DigitValue(c: char): nat {
    if '0' <= c <= '9' then (c as int - '0' as int) as nat else 0
  }

  /** JavaScript's rendering of a non-negative integer in a template literal
      or `"..." + i`: its decimal digits, without leading zeros. */
  function Decimal(n: nat): (r: string)
    ensures |r| >= 1
    ensures forall k :: 0 <= k < |r| ==> '0' <= r[k] <= '9'
  {
    if n < 10 then [Digit(n)] else Decimal(n / 10) + [Digit(n % 10)]
  }

  /** The value of a string of decimal digits. */
  function DecimalValue(s: string): nat {
    if s == [] then 0
    else 10 * DecimalValue(s[..|s| - 1]) + DigitValue(s[|s| - 1])
  }

  lemma {:induction false} DecimalRoundTrip(n: nat)
    ensures DecimalValue(Decimal(n)) == n
  {
    if n < 10 {
      assert Decimal(n) == [Digit(n)];
      assert DigitValue(Digit(n)) == n;
    } else {
      var q, d := n / 10, n % 10;
      DecimalRoundTrip(q);
      var r := Decimal(n);
      assert r == Decimal(q) + [Digit(d)];
      assert r[..|r| - 1] == Decimal(q);
      assert r[|r| - 1] == Digit(d);
      assert DigitValue(Digit(d)) == d;
      calc {
        DecimalValue(r);
        10 * DecimalValue(Decimal(q)) + DigitValue(Digit(d));
        10 * q + d;
        n;
      }
    }
  }

  /** Different numbers are rendered differently. */
  lemma DecimalInjective(i: nat, j: nat)
    requires Decimal(i) == Decimal(j)
    ensures i == j
  {
    DecimalRoundTrip(i);
    DecimalRoundTrip(j);
  }

  /** Concatenation is associative. */
  lemma Associate<T>(a: seq<T>, b: seq<T>, c: seq<T>)
    ensures a + b + c == a + (b + c)
  {
  }

  /** Concatenation regrouped, stated once for four parts. */
  lemma Regroup(a: string, b: string, c: string, d: string)
    ensures a + (b + c + d) == a + b + c + d
  {
  }

  // Occurrences inside concatenations and slices.

  lemma OccursChar(w: string, f: string, k: nat, t: nat)
    requires OccursAt(w, f, k) && t < |f|
    ensures w[k + t] == f[t]
  {
    assert w[k..k + |f|][t] == w[k + t];
  }

  /** An occurrence wholly inside the right operand of `a + b`. */
  lemma OccursRight(a: string, b: string, f: string, k: nat)
    ensures OccursAt(a + b, f, k) && |a| <= k ==> OccursAt(b, f, k - |a|)
  {
    if OccursAt(a + b, f, k) && |a| <= k {
      assert (a + b)[k..k + |f|] == b[k - |a|..k - |a| + |f|];
    }
  }

  /** An occurrence wholly inside the left operand of `a + b`. */
  lemma OccursLeft(a: string, b: string, f: string, k: nat)
    ensures OccursAt(a + b, f, k) && k + |f| <= |a| ==> OccursAt(a, f, k)
  {
    if OccursAt(a + b, f, k) && k + |f| <= |a| {
      assert (a + b)[k..k + |f|] == a[k..k + |f|];
    }
  }

  /** An occurrence in a slice is an occurrence in the whole. */
  lemma OccursInSlice(s: string, i: nat, j: nat, f: string, k: nat)
    requires i <= j <= |s| && OccursAt(s[i..j], f, k)
    ensures OccursAt(s, f, i + k)
  {
    forall t | 0 <= t < |f| ensures s[i + k + t] == f[t] {
      OccursChar(s[i..j], f, k, t);
    }
    assert s[i + k..i + k + |f|] == f;
  }

  /** An occurrence starts with the pattern's first character and ends with
      its last. */
  lemma OccursEnds(w: string, f: string, k: nat)
    requires |f| > 0
    ensures OccursAt(w, f, k) ==> w[k] == f[0] && w[k + |f| - 1] == f[|f| - 1]
  {
    if OccursAt(w, f, k) {
      OccursChar(w, f, k, 0);
      OccursChar(w, f, k, |f| - 1);
    }
  }

  /** An occurrence of `f` in `a + g + y` that lies within `g` is one in
      `g`. */
  lemma OccursInside(a: string, g: string, y: string, f: string, k: nat)
    ensures OccursAt(a + g + y, f, k) && |a| <= k && k + |f| <= |a| + |g| ==> OccursAt(g, f, k - |a|)
  {
    if OccursAt(a + g + y, f, k) && |a| <= k && k + |f| <= |a| + |g| {
      assert a + g + y == a + (g + y);
      OccursRight(a, g + y, f, k);
      OccursLeft(g, y, f, k - |a|);
    }
  }

  /** When an occurrence of `f` at `k` covers an occurrence of `p` at `b`,
      `p` occurs in `f`. */
  lemma OccursCovering(w: string, f: string, k: nat, p: string, b: nat)
    ensures OccursAt(w, f, k) && k <= b && b + |p| <= k + |f| && OccursAt(w, p, b) ==> OccursAt(f, p, b - k)
  {
    if OccursAt(w, f, k) && k <= b && b + |p| <= k + |f| && OccursAt(w, p, b) {
      forall u | 0 <= u < |p| ensures f[b - k + u] == p[u] {
        OccursChar(w, f, k, b - k + u);
        OccursChar(w, p, b, u);
      }
      assert f[b - k..b - k + |p|] == p;
    }
  }

  /** `indexOf` from 0 finds an occurrence exactly when it is the first. */
  lemma IndexOfFirst(s: string, pat: string, k: nat)
    requires OccursAt(s, pat, k)
    requires forall k': nat :: k' < k ==> !OccursAt(s, pat, k')
    ensures IndexOf(s, pat, 0) == Some(k)
  {
  }
}
