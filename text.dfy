/** JavaScript string primitives the application code relies on, stated on `seq<char>`:
    the `\s` / `trim()` whitespace set, ASCII case folding as the `/i` flag applies it,
    `startsWith`, `substring` with its index clamping, substring search, and the decimal
    rendering of a status code inside a template literal. */
module Text {

  /** `\s` in a JavaScript regular expression, and the set `String.prototype.trim` removes:
      the WhiteSpace and LineTerminator code points of ECMAScript. */
  predicate IsJsSpace(c: char) {
    c == '\t' || c == '\n' || c == '\U{000B}' || c == '\U{000C}' || c == '\r' || c == ' ' ||
    c == '\U{00A0}' || c == '\U{1680}' || ('\U{2000}' <= c <= '\U{200A}') ||
    c == '\U{2028}' || c == '\U{2029}' || c == '\U{202F}' || c == '\U{205F}' || c == '\U{3000}' ||
    c == '\U{FEFF}'
  }

  predicate AllSpace(s: string) {
    forall i :: 0 <= i < |s| ==> IsJsSpace(s[i])
  }

  /** `/i` on a pattern without the `u` flag folds only ASCII letters for the letters used here. */
  function Lower(c: char): char {
    if 'A' <= c <= 'Z' then (c as int + 32) as char else c
  }

  predicate SameLetter(a: char, b: char) {
    Lower(a) == Lower(b)
  }

  function LowerString(s: string): (r: string)
    ensures |r| == |s|
    ensures forall i :: 0 <= i < |s| ==> r[i] == Lower(s[i])
  {
    if s == [] then [] else [Lower(s[0])] + LowerString(s[1..])
  }

  /** `s.startsWith(p)`. */
  predicate StartsWith(s: string, p: string) {
    |p| <= |s| && s[..|p|] == p
  }

  /** `pat` occurs in `s` starting at index `i`. */
  predicate OccursAt(s: string, pat: string, i: nat) {
    i + |pat| <= |s| && s[i..i + |pat|] == pat
  }

  /** `s.includes(pat)`, and `/pat/.test(s)` for a pattern of plain characters. */
  predicate Contains(s: string, pat: string) {
    exists i: nat :: i <= |s| && OccursAt(s, pat, i)
  }

  lemma ContainsInPrefix(a: string, b: string, pat: string, i: nat)
    requires OccursAt(a, pat, i)
    ensures Contains(a + b, pat)
  {
    assert (a + b)[i..i + |pat|] == a[i..i + |pat|];
    assert OccursAt(a + b, pat, i);
  }

  /** `s.substring(0, n)`: the first `n` characters, or all of them when `s` is shorter. */
  function Prefix(s: string, n: nat): (r: string)
    ensures |r| <= n && |r| <= |s|
    ensures StartsWith(s, r)
    ensures |s| <= n ==> r == s
    ensures |s| > n ==> |r| == n
  {
    if |s| <= n then s else s[..n]
  }

  /** `s.substring(k)`: everything from index `k` on, or `''` when `s` is shorter. */
  function DropPrefix(s: string, k: nat): (r: string)
    ensures |s| >= k ==> s == s[..k] + r
    ensures |s| < k ==> r == ""
  {
    if |s| >= k then s[k..] else ""
  }

  /** `startsWith(p)` holds exactly when the text is `p` followed by what `substring(|p|)`
      leaves, so cutting a known prefix gives back the rest. */
  lemma StartsWithSplits(s: string, p: string)
    ensures StartsWith(s, p) <==> s == p + DropPrefix(s, |p|)
  {
    if s == p + DropPrefix(s, |p|) {
      assert s[..|p|] == p;
    }
  }

  /** `substring(k)` of a text that opens with `k` known characters is the rest. */
  lemma DropPrefixConcat(p: string, s: string)
    ensures DropPrefix(p + s, |p|) == s
  {
    assert (p + s)[|p|..] == s;
  }

  /** Concatenation regroups freely. */
  lemma ConcatAssoc(x: string, y: string, z: string)
    ensures (x + y) + z == x + (y + z)
  {
  }

  /** Lower-casing twice is lower-casing once. */
  lemma LowerStringIdempotent(s: string)
    ensures LowerString(LowerString(s)) == LowerString(s)
  {
    var l := LowerString(s);
    forall i | 0 <= i < |s| ensures LowerString(l)[i] == l[i] {
      assert Lower(Lower(s[i])) == Lower(s[i]);
    }
  }

  /** The end of the run of whitespace that starts at `i`: the index of the first
      non-whitespace character at or after `i`, or `|s|`. */
  function SpacesEnd(s: string, i: nat): (a: nat)
    requires i <= |s|
    ensures i <= a <= |s|
    ensures forall k :: i <= k < a ==> IsJsSpace(s[k])
    ensures a == |s| || !IsJsSpace(s[a])
    decreases |s| - i
  {
    if i < |s| && IsJsSpace(s[i]) then SpacesEnd(s, i + 1) else i
  }

  /** The index just past the last non-whitespace character before `j`, or `lo`. */
  function SpacesBefore(s: string, lo: nat, j: nat): (b: nat)
    requires lo <= j <= |s|
    ensures lo <= b <= j
    ensures forall k :: b <= k < j ==> IsJsSpace(s[k])
    ensures b == lo || !IsJsSpace(s[b - 1])
    decreases j
  {
    if j > lo && IsJsSpace(s[j - 1]) then SpacesBefore(s, lo, j - 1) else j
  }

  /** How many whitespace characters `trimStart()` removes. */
  function LeadingSpaces(s: string): (a: nat)
    ensures a <= |s| && AllSpace(s[..a])
    ensures a == |s| || !IsJsSpace(s[a])
  {
    var a := SpacesEnd(s, 0);
    assert forall k :: 0 <= k < a ==> s[..a][k] == s[k];
    a
  }

  /** `trim()`: the longest infix of `s` that starts and ends with a non-whitespace
      character, with only whitespace cut on either side. */
  function Trim(s: string): (r: string)
    ensures LeadingSpaces(s) + |r| <= |s|
    ensures r == s[LeadingSpaces(s)..LeadingSpaces(s) + |r|]
    ensures forall k :: LeadingSpaces(s) + |r| <= k < |s| ==> IsJsSpace(s[k])
    ensures r == [] || (!IsJsSpace(r[0]) && !IsJsSpace(r[|r| - 1]))
    ensures r == [] <==> AllSpace(s)
  {
    var a := LeadingSpaces(s);
    var b := SpacesBefore(s, a, |s|);
    assert a < |s| ==> b > a;
    assert AllSpace(s) ==> a == |s|;
    assert a == |s| ==> forall k :: 0 <= k < |s| ==> s[..a][k] == s[k];
    s[a..b]
  }

  /** Trimming a trimmed text changes nothing. */
  lemma TrimIdempotent(s: string)
    ensures Trim(Trim(s)) == Trim(s)
  {
    var r := Trim(s);
    if r != [] {
      assert LeadingSpaces(r) == 0;
      assert SpacesBefore(r, 0, |r|) == |r|;
      assert r[0..|r|] == r;
    }
  }

  /** Decimal digits of a non-negative integer, as a template literal prints it: no
      leading zero except in `0` itself. */
  function NatToString(n: nat): (r: string)
    ensures Canonical(r)
    ensures DigitsValue(r) == n
    decreases n
  {
    var d := [(('0' as int) + n % 10) as char];
    if n < 10 then d
    else
      var p := NatToString(n / 10);
      assert (p + d)[..|p + d| - 1] == p;
      p + d
  }

  /** A non-empty string of decimal digits without a superfluous leading zero. */
  predicate Canonical(s: string) {
    |s| >= 1 && (forall i :: 0 <= i < |s| ==> '0' <= s[i] <= '9') && (s[0] == '0' ==> s == "0")
  }

  /** A digit string that starts with a non-zero digit denotes a positive number. */
  lemma {:induction false} LeadingDigitPositive(s: string)
    requires |s| >= 1 && forall i :: 0 <= i < |s| ==> '0' <= s[i] <= '9'
    requires s[0] != '0'
    ensures DigitsValue(s) > 0
    decreases |s|
  {
    if |s| > 1 {
      var p := s[..|s| - 1];
      assert p[0] == s[0];
      LeadingDigitPositive(p);
    }
  }

  /** Two canonical digit strings with the same value are the same string, so
      `NatToString` gives the one decimal rendering of its argument. */
  lemma {:induction false} CanonicalUnique(a: string, b: string)
    requires Canonical(a) && Canonical(b) && DigitsValue(a) == DigitsValue(b)
    ensures a == b
    decreases |a|
  {
    var a', b' := a[..|a| - 1], b[..|b| - 1];
    assert DigitsValue(a') == DigitsValue(b') && a[|a| - 1] == b[|b| - 1];
    if |a| == 1 && |b| == 1 {
    } else if |a| == 1 {
      assert b'[0] == b[0] != '0';
      LeadingDigitPositive(b');
    } else if |b| == 1 {
      assert a'[0] == a[0] != '0';
      LeadingDigitPositive(a');
    } else {
      assert a'[0] == a[0] && b'[0] == b[0];
      CanonicalUnique(a', b');
      assert a == a' + [a[|a| - 1]] && b == b' + [b[|b| - 1]];
    }
  }

  /** `${n}` renders a number as the only canonical digit string that denotes it. */
  lemma NatToStringIsTheRendering(n: nat, s: string)
    requires Canonical(s) && DigitsValue(s) == n
    ensures NatToString(n) == s
  {
    CanonicalUnique(NatToString(n), s);
  }

  /** The number a string of decimal digits denotes, most significant first. */
  function DigitsValue(s: string): nat
    requires forall i :: 0 <= i < |s| ==> '0' <= s[i] <= '9'
  {
    if s == [] then 0 else 10 * DigitsValue(s[..|s| - 1]) + (s[|s| - 1] as int - '0' as int)
  }

  /** The concatenation of a sequence of chunks, in order. */
  function Concat(chunks: seq<string>): (r: string)
  {
    if chunks == [] then "" else Concat(chunks[..|chunks| - 1]) + chunks[|chunks| - 1]
  }

  /** Concatenating two runs of chunks is concatenating their concatenations: the
      accumulation keeps the chunks' order. */
  lemma {:induction false} ConcatAppend(a: seq<string>, b: seq<string>)
    ensures Concat(a + b) == Concat(a) + Concat(b)
    decreases |b|
  {
    if b == [] {
      assert a + b == a;
    } else {
      var b', last := b[..|b| - 1], b[|b| - 1];
      assert a + b == (a + b') + [last] && b == b' + [last];
      ConcatAppend(a, b');
      ConcatSnoc(a + b', last);
      ConcatSnoc(b', last);
      ConcatAssoc(Concat(a), Concat(b'), last);
    }
  }

  lemma ConcatSnoc(chunks: seq<string>, last: string)
    ensures Concat(chunks + [last]) == Concat(chunks) + last
  {
    assert (chunks + [last])[..|chunks|] == chunks;
  }
}
