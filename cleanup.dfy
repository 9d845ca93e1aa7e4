/** What the cleanup of `sanitizeLatex` leaves behind. A global replacement by a comment
    removes every match of its pattern for good: the comments hold no backslash, every
    pattern starts with one, and the scan resumes after each replacement, so neither the
    comments nor the text around them can form a new match. The same holds for the later
    replacements, which never bring back an `\input`/`\include`, and for the final
    `trim()`. The `inputenc` pattern needs one more step: its optional `[…]` group runs to
    the first `]`, which may lie past a replaced match, so the proof follows that `]`
    through the replacement. */
module Cleanup {
  import opened Wrappers
  import opened Text
  import opened Sanitize

  // ---------------------------------------------------------------------------------
  // Matching after a prefix
  // ---------------------------------------------------------------------------------

  function Shift(o: Option<nat>, d: nat): Option<nat> {
    if o.None? then None else Some(o.value + d)
  }

  lemma LitAtPrepend(a: string, t: string, w: string, k: nat)
    ensures LitAt(a + t, w, |a| + k) == LitAt(t, w, k)
  {
    if k + |w| <= |t| {
      forall m | 0 <= m < |w| ensures SameLetter((a + t)[|a| + k + m], w[m]) == SameLetter(t[k + m], w[m]) {
        assert (a + t)[|a| + k + m] == t[k + m];
      }
    }
  }

  lemma {:induction false} SpacesEndPrepend(a: string, t: string, k: nat)
    requires k <= |t|
    ensures SpacesEnd(a + t, |a| + k) == |a| + SpacesEnd(t, k)
    decreases |t| - k
  {
    if k < |t| {
      assert (a + t)[|a| + k] == t[k];
      if IsJsSpace(t[k]) {
        SpacesEndPrepend(a, t, k + 1);
      }
    }
  }

  lemma {:induction false} FindCharPrepend(a: string, t: string, c: char, k: nat)
    requires k <= |t|
    ensures FindChar(a + t, c, |a| + k) == Shift(FindChar(t, c, k), |a|)
    decreases |t| - k
  {
    if k < |t| {
      assert (a + t)[|a| + k] == t[k];
      if t[k] != c {
        FindCharPrepend(a, t, c, k + 1);
      }
    }
  }

  lemma StepPrepend(p: Piece, a: string, t: string, k: nat)
    requires k <= |t|
    ensures Step(p, a + t, |a| + k) == Shift(Step(p, t, k), |a|)
  {
    match p
    case Lit(w) => LitAtPrepend(a, t, w, k);
    case AltLit(w1, w2) => LitAtPrepend(a, t, w1, k); LitAtPrepend(a, t, w2, k);
    case Spaces => SpacesEndPrepend(a, t, k);
    case OptLetter(c) =>
      if k < |t| {
        assert (a + t)[|a| + k] == t[k];
      }
    case UpTo(stop, nonEmpty) => FindCharPrepend(a, t, stop, k);
    case OptBracket =>
      if k < |t| {
        assert (a + t)[|a| + k] == t[k];
        FindCharPrepend(a, t, ']', k + 1);
      }
  }

  /** What a pattern does at an index depends only on the text from that index on. */
  lemma {:induction false} MatchAtPrepend(ps: seq<Piece>, a: string, t: string, k: nat)
    requires k <= |t|
    ensures MatchAt(ps, a + t, |a| + k) == Shift(MatchAt(ps, t, k), |a|)
    decreases |ps|
  {
    if ps != [] {
      StepPrepend(ps[0], a, t, k);
      match Step(ps[0], t, k)
      case None =>
      case Some(j) => MatchAtPrepend(ps[1..], a, t, j);
    }
  }

  /** Running two patterns one after the other is running their concatenation. */
  lemma {:induction false} MatchAtConcat(a: seq<Piece>, b: seq<Piece>, s: string, k: nat)
    requires k <= |s|
    ensures MatchAt(a + b, s, k) ==
      match MatchAt(a, s, k)
      case None => None
      case Some(m) => MatchAt(b, s, m)
    decreases |a|
  {
    if a != [] {
      assert (a + b)[0] == a[0] && (a + b)[1..] == a[1..] + b;
      match Step(a[0], s, k)
      case None =>
      case Some(j) => MatchAtConcat(a[1..], b, s, j);
    } else {
      assert a + b == b;
    }
  }

  // ---------------------------------------------------------------------------------
  // Two texts that agree up to the backslash a replacement turned into `%`
  // ---------------------------------------------------------------------------------

  /** `s` and `v` agree before index `j`, where `s` has the backslash that opens a match
      and `v` the `%` that opens the comment replacing it. */
  predicate Diverge(s: string, v: string, j: nat) {
    j < |s| && j < |v| && s[j] == '\\' && v[j] == '%' &&
    forall x :: 0 <= x < j ==> s[x] == v[x]
  }

  /** A pattern character that neither `\` nor `%` matches, case folded. */
  predicate NotStop(c: char) {
    !SameLetter('\\', c) && !SameLetter('%', c)
  }

  /** Every character of `w` from index `m` on is a `NotStop` character. */
  predicate PlainFrom(w: string, m: int) {
    forall n :: 0 <= n < |w| && m <= n ==> NotStop(w[n])
  }

  /** A piece that reads only up to the first `\` or `%` it meets. */
  predicate LocalPiece(p: Piece) {
    match p
    case Lit(w) => PlainFrom(w, 0)
    case AltLit(w1, w2) => PlainFrom(w1, 0) && PlainFrom(w2, 0)
    case Spaces => true
    case OptLetter(c) => NotStop(c)
    case UpTo(_, _) => false
    case OptBracket => false
  }

  predicate AllLocal(ps: seq<Piece>) {
    forall n :: 0 <= n < |ps| ==> LocalPiece(ps[n])
  }

  lemma LitAgree(s: string, v: string, j: nat, w: string, k: nat)
    requires Diverge(s, v, j) && k <= j && PlainFrom(w, j - k)
    ensures LitAt(s, w, k) == LitAt(v, w, k)
    ensures LitAt(s, w, k) ==> k + |w| <= j
  {
    if k + |w| <= j {
      forall n | 0 <= n < |w| ensures SameLetter(s[k + n], w[n]) == SameLetter(v[k + n], w[n]) {
        assert s[k + n] == v[k + n];
      }
    } else {
      var n := j - k;
      assert NotStop(w[n]);
      assert !SameLetter(s[k + n], w[n]) && !SameLetter(v[k + n], w[n]);
    }
  }

  lemma {:induction false} SpacesAgree(s: string, v: string, j: nat, k: nat)
    requires Diverge(s, v, j) && k <= j
    ensures SpacesEnd(s, k) == SpacesEnd(v, k) <= j
    decreases j - k
  {
    if k < j {
      assert s[k] == v[k];
      if IsJsSpace(s[k]) {
        SpacesAgree(s, v, j, k + 1);
      }
    }
  }

  lemma StepAgree(p: Piece, s: string, v: string, j: nat, k: nat)
    requires LocalPiece(p) && Diverge(s, v, j) && k <= j
    ensures Step(p, s, k) == Step(p, v, k)
    ensures Step(p, s, k).Some? ==> Step(p, s, k).value <= j
  {
    match p
    case Lit(w) => LitAgree(s, v, j, w, k);
    case AltLit(w1, w2) => LitAgree(s, v, j, w1, k); LitAgree(s, v, j, w2, k);
    case Spaces => SpacesAgree(s, v, j, k);
    case OptLetter(c) =>
      if k < j {
        assert s[k] == v[k];
      }
  }

  /** Pieces that stop at a backslash or a `%` run alike on the two texts. */
  lemma {:induction false} MatchAtAgree(ps: seq<Piece>, s: string, v: string, j: nat, k: nat)
    requires AllLocal(ps) && Diverge(s, v, j) && k <= j
    ensures MatchAt(ps, s, k) == MatchAt(ps, v, k)
    ensures MatchAt(ps, s, k).Some? ==> MatchAt(ps, s, k).value <= j
    decreases |ps|
  {
    if ps != [] {
      assert LocalPiece(ps[0]);
      StepAgree(ps[0], s, v, j, k);
      match Step(ps[0], s, k)
      case None =>
      case Some(m) =>
        assert AllLocal(ps[1..]) by {
          forall n | 0 <= n < |ps[1..]| ensures LocalPiece(ps[1..][n]) {
            assert ps[1..][n] == ps[1 + n];
          }
        }
        MatchAtAgree(ps[1..], s, v, j, m);
    }
  }

  /** A pattern that opens with a literal starting with a backslash, goes on with pieces
      that stop at a backslash or a `%`, and may close with `[^}]+\}`. */
  function Shape(w0: string, body: seq<Piece>, braced: bool): seq<Piece> {
    [Lit(w0)] + body + (if braced then [UpTo('}', true)] else [])
  }

  predicate ShapeOk(w0: string, body: seq<Piece>) {
    |w0| > 0 && w0[0] == '\\' && PlainFrom(w0, 1) && AllLocal(body)
  }

  /** A pattern whose matches start with a backslash. */
  predicate Backslashed(q: seq<Piece>) {
    Anchored(q) && q[0].w[0] == '\\'
  }

  /** A pattern whose matches start with a backslash and end with `}`. */
  predicate Closes(q: seq<Piece>) {
    Backslashed(q) && (q[|q| - 1] == Lit("}") || q[|q| - 1] == UpTo('}', true))
  }

  /** Where such a pattern fails on `s`, it fails on `v` too. */
  lemma CruxShape(w0: string, body: seq<Piece>, braced: bool, s: string, v: string, i: nat, j: nat)
    requires ShapeOk(w0, body) && Diverge(s, v, j) && i < j
    requires braced ==> FindChar(s, '}', j).Some?
    requires MatchAt(Shape(w0, body, braced), s, i).None?
    ensures MatchAt(Shape(w0, body, braced), v, i).None?
  {
    var tail: seq<Piece> := if braced then [UpTo('}', true)] else [];
    var head := [Lit(w0)] + body;
    assert Shape(w0, body, braced) == head + tail;
    MatchAtConcat(head, tail, s, i);
    MatchAtConcat(head, tail, v, i);
    MatchAtConcat([Lit(w0)], body, s, i);
    MatchAtConcat([Lit(w0)], body, v, i);
    LitAgree(s, v, j, w0, i);
    if LitAt(s, w0, i) {
      MatchAtAgree(body, s, v, j, i + |w0|);
      if braced && MatchAt(body, s, i + |w0|).Some? {
        var k := MatchAt(body, s, i + |w0|).value;
        var b := FindChar(s, '}', j).value;
        assert s[b] == '}' && k <= b;
        var c := FindChar(s, '}', k).value;
        assert c == k && s[k] == '}' && k < j;
        assert v[k] == '}';
      }
    }
  }

  // ---------------------------------------------------------------------------------
  // Replacement by a comment
  // ---------------------------------------------------------------------------------

  /** A replacement text that opens with `%` and holds no backslash. */
  predicate CommentOk(r: string) {
    Inert(r) && r[0] == '%'
  }

  /** A pattern whose matches start with a backslash matches nowhere else. */
  lemma NoMatchAtOtherChar(p: seq<Piece>, t: string, x: nat)
    requires Backslashed(p) && x < |t| && t[x] != '\\'
    ensures MatchAt(p, t, x).None?
  {
    assert !SameLetter(t[x + 0], p[0].w[0]);
  }

  /** A match of a closing pattern runs from a backslash to a `}`. */
  lemma ClosingMatch(q: seq<Piece>, s: string, x: nat)
    requires Closes(q) && x <= |s| && MatchAt(q, s, x).Some?
    ensures x < |s| && s[x] == '\\' && FindChar(s, '}', x).Some?
  {
    assert SameLetter(s[x + 0], q[0].w[0]);
    var n := |q| - 1;
    assert q[..n] + [q[n]] == q;
    MatchAtConcat(q[..n], [q[n]], s, x);
    var m := MatchAt(q[..n], s, x).value;
    var y: nat := if q[n].Lit? then m else FindChar(s, '}', m).value;
    if q[n].Lit? {
      assert SameLetter(s[m + 0], "}"[0]);
    }
    assert x <= y < |s| && s[y] == '}';
  }

  /** The leftmost match of `q` at or after `i`. */
  function NextMatch(q: seq<Piece>, s: string, i: nat): (j: Option<nat>)
    requires i <= |s|
    ensures j.Some? ==> i <= j.value < |s| && MatchAt(q, s, j.value).Some?
    ensures j.Some? ==> forall x :: i <= x < j.value ==> MatchAt(q, s, x).None?
    ensures j.None? ==> NoMatchFrom(q, s, i)
    decreases |s| - i
  {
    if i == |s| then None else if MatchAt(q, s, i).Some? then Some(i) else NextMatch(q, s, i + 1)
  }

  /** Up to the next match, replacement copies the text. */
  lemma {:induction false} ReplaceUpTo(q: seq<Piece>, s: string, r: string, i: nat, j: nat)
    requires Anchored(q) && i <= j <= |s|
    requires forall x :: i <= x < j ==> MatchAt(q, s, x).None?
    ensures ReplaceFrom(q, s, r, i) == s[i..j] + ReplaceFrom(q, s, r, j)
    decreases j - i
  {
    if i < j {
      assert MatchAt(q, s, i).None?;
      ReplaceStepCopy(q, s, r, i);
      ReplaceUpTo(q, s, r, i + 1, j);
      SliceCons(s, i, j, ReplaceFrom(q, s, r, i + 1), ReplaceFrom(q, s, r, j));
    }
  }

  /** A character put in front of the rest of a slice extends the slice. */
  lemma SliceCons(s: string, i: nat, j: nat, rest: string, tail: string)
    requires i < j <= |s| && rest == s[i + 1..j] + tail
    ensures [s[i]] + rest == s[i..j] + tail
  {
    assert s[i..j] == [s[i]] + s[i + 1..j];
  }

  /** A comment followed by a text without matches leaves no match after the prefix. */
  lemma CommentThenClean(p: seq<Piece>, a: string, r: string, b: string, t: string)
    requires Backslashed(p) && Inert(r) && NoMatchFrom(p, b + t, |b|)
    ensures NoMatchFrom(p, a + r + t, |a|)
  {
    var v := a + r + t;
    forall x | |a| <= x < |v| ensures MatchAt(p, v, x).None? {
      if x < |a| + |r| {
        assert v[x] == r[x - |a|];
        NoMatchAtOtherChar(p, v, x);
      } else {
        var y := x - |a| - |r|;
        MatchAtPrepend(p, a + r, t, y);
        MatchAtPrepend(p, b, t, y);
        assert MatchAt(p, b + t, |b| + y).None?;
      }
    }
  }

  /** Where `q` does not match at `x`, so that replacement copies `s[x]`, `p` fails at `x`
      on the text it produces. */
  predicate CopyKeeps(p: seq<Piece>, q: seq<Piece>, s: string, r: string, x: nat)
    requires Anchored(q) && x < |s|
  {
    MatchAt(q, s, x).None? ==> MatchAt(p, s[..x + 1] + ReplaceFrom(q, s, r, x + 1), x).None?
  }

  /** One replaced match: the comment and what follows it hold no match. */
  lemma ReplacedStep(p: seq<Piece>, q: seq<Piece>, s: string, r: string, i: nat, e: nat)
    requires Backslashed(p) && Anchored(q) && CommentOk(r) && i < |s|
    requires MatchAt(q, s, i) == Some(e)
    requires NoMatchFrom(p, s[..e] + ReplaceFrom(q, s, r, e), e)
    ensures NoMatchFrom(p, s[..i] + ReplaceFrom(q, s, r, i), i)
  {
    var t := ReplaceFrom(q, s, r, e);
    assert ReplaceFrom(q, s, r, i) == r + t;
    CommentThenClean(p, s[..i], r, s[..e], t);
    assert s[..i] + ReplaceFrom(q, s, r, i) == s[..i] + r + t;
  }

  lemma CopyUnfold(q: seq<Piece>, s: string, r: string, i: nat)
    requires Anchored(q) && i < |s| && MatchAt(q, s, i).None?
    ensures s[..i] + ReplaceFrom(q, s, r, i) == s[..i + 1] + ReplaceFrom(q, s, r, i + 1)
  {
    ReplaceStepCopy(q, s, r, i);
    PrefixCons(s, i, ReplaceFrom(q, s, r, i + 1));
  }

  lemma PrefixCons(s: string, i: nat, t: string)
    requires i < |s|
    ensures s[..i] + ([s[i]] + t) == s[..i + 1] + t
  {
    assert s[..i + 1] == s[..i] + [s[i]];
  }

  lemma NoMatchBack(p: seq<Piece>, v: string, i: nat)
    requires i < |v| && NoMatchFrom(p, v, i + 1) && MatchAt(p, v, i).None?
    ensures NoMatchFrom(p, v, i)
  {
  }

  /** One copied character. */
  lemma CopiedStep(p: seq<Piece>, q: seq<Piece>, s: string, r: string, i: nat)
    requires Anchored(q) && i < |s| && MatchAt(q, s, i).None? && CopyKeeps(p, q, s, r, i)
    requires NoMatchFrom(p, s[..i + 1] + ReplaceFrom(q, s, r, i + 1), i + 1)
    ensures NoMatchFrom(p, s[..i] + ReplaceFrom(q, s, r, i), i)
  {
    CopyUnfold(q, s, r, i);
    var v := s[..i + 1] + ReplaceFrom(q, s, r, i + 1);
    NoMatchBack(p, v, i);
  }

  /** The common induction: if `p` keeps failing wherever `q` copies a character it fails
      on, replacing the matches of `q` by a comment leaves no match of `p`. */
  lemma {:induction false} ReplaceLeavesNoMatch(p: seq<Piece>, q: seq<Piece>, s: string, r: string, i: nat)
    requires Backslashed(p) && Anchored(q) && CommentOk(r) && i <= |s|
    requires forall x :: i <= x < |s| ==> CopyKeeps(p, q, s, r, x)
    ensures NoMatchFrom(p, s[..i] + ReplaceFrom(q, s, r, i), i)
    decreases |s| - i
  {
    if i < |s| {
      match MatchAt(q, s, i)
      case Some(e) =>
        ReplaceLeavesNoMatch(p, q, s, r, e);
        ReplacedStep(p, q, s, r, i, e);
      case None =>
        ReplaceLeavesNoMatch(p, q, s, r, i + 1);
        CopiedStep(p, q, s, r, i);
    }
  }

  /** Copying up to the next match `j` and putting a comment there makes the texts
      diverge at `j`. */
  lemma DivergeAtMatch(s: string, r: string, t: string, x: nat, j: nat)
    requires x < j < |s| && s[j] == '\\' && CommentOk(r)
    ensures Diverge(s, s[..x + 1] + s[x + 1..j] + (r + t), j)
  {
    assert s[..x + 1] + s[x + 1..j] == s[..j];
  }

  /** The copied stretch ends at the next match `j` of `q`. */
  lemma ShapeCopyUpToMatch(w0: string, body: seq<Piece>, braced: bool, q: seq<Piece>,
                           s: string, r: string, x: nat, j: nat)
    requires ShapeOk(w0, body) && Closes(q) && CommentOk(r) && x < j < |s|
    requires MatchAt(q, s, j).Some? && MatchAt(Shape(w0, body, braced), s, x).None?
    requires ReplaceFrom(q, s, r, x + 1) == s[x + 1..j] + ReplaceFrom(q, s, r, j)
    ensures MatchAt(Shape(w0, body, braced), s[..x + 1] + ReplaceFrom(q, s, r, x + 1), x).None?
  {
    CopyLayout(q, s, r, x, j);
    ClosingMatch(q, s, j);
    CruxShape(w0, body, braced, s, s[..x + 1] + ReplaceFrom(q, s, r, x + 1), x, j);
  }

  /** Where `q` copies a character, a shaped pattern failing there keeps failing. */
  lemma ShapeCopyKeepsFailing(w0: string, body: seq<Piece>, braced: bool, q: seq<Piece>,
                              s: string, r: string, x: nat)
    requires ShapeOk(w0, body) && Closes(q) && CommentOk(r) && x < |s|
    requires MatchAt(Shape(w0, body, braced), s, x).None?
    ensures CopyKeeps(Shape(w0, body, braced), q, s, r, x)
  {
    if MatchAt(q, s, x).None? {
      match NextMatch(q, s, x + 1)
      case None =>
        CopyWithoutLaterMatch(Shape(w0, body, braced), q, s, r, x);
      case Some(j) =>
        ShapeCopyUpToNext(w0, body, braced, q, s, r, x, j);
    }
  }

  /** With no match of `q` after `x`, the text after `x` is copied as it is. */
  lemma CopyWithoutLaterMatch(p: seq<Piece>, q: seq<Piece>, s: string, r: string, x: nat)
    requires Anchored(q) && x < |s| && NoMatchFrom(q, s, x + 1) && MatchAt(p, s, x).None?
    ensures MatchAt(p, s[..x + 1] + ReplaceFrom(q, s, r, x + 1), x).None?
  {
    ReplaceWithoutMatch(q, s, r, x + 1);
    assert s[..x + 1] + s[x + 1..] == s;
  }

  lemma ShapeCopyUpToNext(w0: string, body: seq<Piece>, braced: bool, q: seq<Piece>,
                          s: string, r: string, x: nat, j: nat)
    requires ShapeOk(w0, body) && Closes(q) && CommentOk(r) && x < j < |s|
    requires MatchAt(Shape(w0, body, braced), s, x).None?
    requires MatchAt(q, s, j).Some? && forall y :: x + 1 <= y < j ==> MatchAt(q, s, y).None?
    ensures MatchAt(Shape(w0, body, braced), s[..x + 1] + ReplaceFrom(q, s, r, x + 1), x).None?
  {
    ReplaceUpTo(q, s, r, x + 1, j);
    ShapeCopyUpToMatch(w0, body, braced, q, s, r, x, j);
  }

  /** Replacing the matches of a closing pattern `q` leaves a shaped pattern without a
      match: none of its own (`q` itself) and none from before. */
  lemma ShapeAfterReplace(w0: string, body: seq<Piece>, braced: bool, q: seq<Piece>, s: string, r: string)
    requires ShapeOk(w0, body) && Closes(q) && CommentOk(r)
    requires q == Shape(w0, body, braced) || NoMatchFrom(Shape(w0, body, braced), s, 0)
    ensures NoMatchFrom(Shape(w0, body, braced), ReplaceAll(q, s, r), 0)
  {
    var p := Shape(w0, body, braced);
    assert Backslashed(p);
    forall x | 0 <= x < |s| ensures CopyKeeps(p, q, s, r, x) {
      if MatchAt(q, s, x).None? {
        ShapeCopyKeepsFailing(w0, body, braced, q, s, r, x);
      }
    }
    ReplaceLeavesNoMatch(p, q, s, r, 0);
    assert s[..0] + ReplaceFrom(q, s, r, 0) == ReplaceAll(q, s, r);
  }

  // ---------------------------------------------------------------------------------
  // The final trim
  // ---------------------------------------------------------------------------------

  /** A character that no whitespace character equals, case folded. */
  predicate NonSpaceLetter(c: char) {
    !IsJsSpace(Lower(c))
  }

  /** A piece that no whitespace can satisfy where it needs a character. */
  predicate SpaceFree(p: Piece) {
    match p
    case AltLit(w1, w2) => forall n :: 0 <= n < |w1| ==> NonSpaceLetter(w1[n])
    case OptLetter(c) => NonSpaceLetter(c)
    case _ => true
  }

  predicate AllSpaceFree(ps: seq<Piece>) {
    forall n :: 0 <= n < |ps| ==> SpaceFree(ps[n])
  }

  /** `z` is `y` without a trailing run of whitespace, and `kz` and `ky` are positions the
      two texts reach alike: the same, or the end of `z` and somewhere in the run. */
  predicate Related(y: string, z: string, kz: nat, ky: nat) {
    |z| <= |y| && z == y[..|z|] && (forall m :: |z| <= m < |y| ==> IsJsSpace(y[m])) &&
    kz <= |z| && ky <= |y| && (kz == ky || (kz == |z| && |z| <= ky))
  }

  lemma LitNeedsLetter(y: string, w: string, k: nat, m: nat)
    requires k <= m < k + |w| && m < |y| && IsJsSpace(y[m]) && NonSpaceLetter(w[m - k])
    ensures !LitAt(y, w, k)
  {
  }

  lemma LitInPrefix(y: string, z: string, w: string, k: nat)
    requires |z| <= |y| && z == y[..|z|] && LitAt(z, w, k)
    ensures LitAt(y, w, k)
  {
    forall m | 0 <= m < |w| ensures SameLetter(y[k + m], w[m]) {
      assert SameLetter(z[k + m], w[m]) && z[k + m] == y[k + m];
    }
  }

  /** An alternative the prefix rejects at `k`, the whole text rejects too. */
  lemma LitRejectedInPrefix(y: string, z: string, w: string, kz: nat, ky: nat)
    requires Related(y, z, kz, ky) && !LitAt(z, w, kz)
    requires forall n :: 0 <= n < |w| ==> NonSpaceLetter(w[n])
    ensures !LitAt(y, w, ky)
  {
    var b := |z|;
    if kz < b {
      if kz + |w| <= b {
        var m :| 0 <= m < |w| && !SameLetter(z[kz + m], w[m]);
        assert z[kz + m] == y[kz + m];
      } else if kz + |w| <= |y| {
        LitNeedsLetter(y, w, kz, b);
      }
    } else if ky + |w| <= |y| && |w| > 0 {
      LitNeedsLetter(y, w, ky, ky);
    }
  }

  lemma {:induction false} SpacesEndInPrefix(y: string, z: string, k: nat)
    requires |z| <= |y| && z == y[..|z|] && k <= |z| && SpacesEnd(z, k) < |z|
    ensures SpacesEnd(y, k) == SpacesEnd(z, k)
    decreases |z| - k
  {
    assert z[k] == y[k];
    if IsJsSpace(z[k]) {
      SpacesEndInPrefix(y, z, k + 1);
    }
  }

  lemma {:induction false} FindCharInPrefix(y: string, z: string, c: char, k: nat)
    requires |z| <= |y| && z == y[..|z|] && k <= |z| && FindChar(z, c, k).Some?
    ensures FindChar(y, c, k) == FindChar(z, c, k)
    decreases |z| - k
  {
    assert z[k] == y[k];
    if z[k] != c {
      FindCharInPrefix(y, z, c, k + 1);
    }
  }

  lemma StepTrimmed(p: Piece, y: string, z: string, kz: nat, ky: nat)
    requires SpaceFree(p) && Related(y, z, kz, ky) && Step(p, z, kz).Some?
    ensures Step(p, y, ky).Some? && Related(y, z, Step(p, z, kz).value, Step(p, y, ky).value)
  {
    var b := |z|;
    match p
    case Lit(w) =>
      LitInPrefix(y, z, w, kz);
    case AltLit(w1, w2) =>
      if LitAt(z, w1, kz) {
        LitInPrefix(y, z, w1, kz);
      } else {
        LitRejectedInPrefix(y, z, w1, kz, ky);
        LitInPrefix(y, z, w2, kz);
      }
    case Spaces =>
      if SpacesEnd(z, kz) < b {
        SpacesEndInPrefix(y, z, kz);
      } else if kz < b {
        assert forall m :: kz <= m < b ==> z[m] == y[m];
        SpacesEndCovers(y, kz, b);
      }
    case OptLetter(c) =>
      if kz < b {
        assert z[kz] == y[kz];
      } else if ky < |y| {
        assert IsJsSpace(y[ky]) && Lower(y[ky]) == y[ky];
      }
    case UpTo(stop, nonEmpty) =>
      FindCharInPrefix(y, z, stop, kz);
    case OptBracket =>
      if kz < b {
        assert z[kz] == y[kz];
        if z[kz] == '[' {
          if FindChar(z, ']', kz + 1).Some? {
            FindCharInPrefix(y, z, ']', kz + 1);
          } else if FindChar(y, ']', kz + 1).Some? {
            var f := FindChar(y, ']', kz + 1).value;
            if f < b {
              assert z[f] == y[f];
            } else {
              assert IsJsSpace(y[f]);
            }
          }
        }
      } else if ky < |y| {
        assert IsJsSpace(y[ky]);
      }
  }

  lemma {:induction false} MatchTrimmed(ps: seq<Piece>, y: string, z: string, kz: nat, ky: nat)
    requires AllSpaceFree(ps) && Related(y, z, kz, ky) && MatchAt(ps, z, kz).Some?
    ensures MatchAt(ps, y, ky).Some?
    decreases |ps|
  {
    if ps != [] {
      assert SpaceFree(ps[0]);
      StepTrimmed(ps[0], y, z, kz, ky);
      assert AllSpaceFree(ps[1..]) by {
        forall n | 0 <= n < |ps[1..]| ensures SpaceFree(ps[1..][n]) {
          assert ps[1..][n] == ps[1 + n];
        }
      }
      MatchTrimmed(ps[1..], y, z, Step(ps[0], z, kz).value, Step(ps[0], y, ky).value);
    }
  }

  /** Trimming a text without a match of a pattern leaves none. */
  lemma TrimKeepsNoMatch(ps: seq<Piece>, x: string)
    requires AllSpaceFree(ps) && NoMatchFrom(ps, x, 0)
    ensures NoMatchFrom(ps, Trim(x), 0)
  {
    var a := LeadingSpaces(x);
    var z := Trim(x);
    var y := x[a..];
    assert x == x[..a] + y;
    assert z == y[..|z|];
    forall k | 0 <= k < |z| ensures MatchAt(ps, z, k).None? {
      MatchAtPrepend(ps, x[..a], y, k);
      assert MatchAt(ps, x, a + k).None?;
      if MatchAt(ps, z, k).Some? {
        assert Related(y, z, k, k);
        MatchTrimmed(ps, y, z, k, k);
      }
    }
  }

  // ---------------------------------------------------------------------------------
  // The inputenc pattern: `\usepackage\s*`, an optional `[…]`, then `\s*\{\s*inputenc\s*\}`
  // ---------------------------------------------------------------------------------

  const UsepackageHead: seq<Piece> := [Lit("\\usepackage"), Spaces]
  const InputencTail: seq<Piece> := [Spaces, Lit("{"), Spaces, Lit("inputenc"), Spaces, Lit("}")]

  lemma InputencSplit(t: string, i: nat)
    requires i <= |t|
    ensures MatchAt(InputencPackage, t, i) ==
      match MatchAt(UsepackageHead, t, i)
      case None => None
      case Some(k) => MatchAt(InputencTail, t, Step(OptBracket, t, k).value)
  {
    assert InputencPackage == UsepackageHead + ([OptBracket] + InputencTail);
    MatchAtConcat(UsepackageHead, [OptBracket] + InputencTail, t, i);
    match MatchAt(UsepackageHead, t, i)
    case None =>
    case Some(k) => MatchAtConcat([OptBracket], InputencTail, t, k);
  }

  /** A piece whose matched text never holds a `]`. */
  predicate AvoidsClose(p: Piece) {
    (p.Lit? && forall n :: 0 <= n < |p.w| ==> p.w[n] != ']') || p.Spaces?
  }

  lemma {:induction false} MatchAvoidsClose(ps: seq<Piece>, t: string, m: nat)
    requires m <= |t| && MatchAt(ps, t, m).Some?
    requires NoCloseIn(ps)
    ensures forall y :: m <= y < MatchAt(ps, t, m).value ==> t[y] != ']'
    decreases |ps|
  {
    if ps != [] {
      assert AvoidsClose(ps[0]);
      var k := Step(ps[0], t, m).value;
      forall y | m <= y < k ensures t[y] != ']' {
        if ps[0].Lit? {
          assert SameLetter(t[m + (y - m)], ps[0].w[y - m]);
        }
      }
      assert forall n :: 0 <= n < |ps[1..]| ==> ps[1..][n] == ps[1 + n];
      MatchAvoidsClose(ps[1..], t, k);
    }
  }

  lemma HeadAndTailAvoidClose()
    ensures NoCloseIn(UsepackageHead) && NoCloseIn(InputencTail)
    ensures AllLocal(InputencTail) && PlainFrom("\\usepackage", 1)
  {
  }

  lemma InputencAvoidsClose()
    ensures NoCloseIn(UsepackageHead) && NoCloseIn(InputencTail)
  {
  }

  lemma InputencShape()
    ensures InputencPackage == UsepackageHead + ([OptBracket] + InputencTail)
  {
  }

  lemma TailFailsAtClose(t: string, k: nat)
    requires k < |t| && t[k] == ']'
    ensures MatchAt(InputencTail, t, k).None?
  {
    TailFailsAt(t, k);
  }

  /** The tail needs a `{` after optional whitespace. */
  lemma TailFailsAt(t: string, k: nat)
    requires k < |t| && !IsJsSpace(t[k]) && t[k] != '{'
    ensures MatchAt(InputencTail, t, k).None?
  {
    assert !SameLetter(t[k + 0], "{"[0]);
  }

  lemma FindCharFirst(t: string, c: char, k: nat, f: nat)
    requires k <= f < |t| && t[f] == c && forall y :: k <= y < f ==> t[y] != c
    ensures FindChar(t, c, k) == Some(f)
  {
  }

  lemma {:induction false} ReplaceKeepsOutFrom(q: seq<Piece>, s: string, r: string, i: nat, c: char)
    requires Anchored(q) && i <= |s|
    requires (forall y :: i <= y < |s| ==> s[y] != c) && c !in r
    ensures c !in ReplaceFrom(q, s, r, i)
    decreases |s| - i
  {
    if i < |s| {
      match MatchAt(q, s, i)
      case Some(e) => ReplaceKeepsOutFrom(q, s, r, e, c);
      case None => ReplaceKeepsOutFrom(q, s, r, i + 1, c);
    }
  }

  lemma InputencHeadAgree(s: string, v: string, j: nat, x: nat)
    requires Diverge(s, v, j) && x < j
    ensures MatchAt(UsepackageHead, s, x) == MatchAt(UsepackageHead, v, x)
    ensures MatchAt(UsepackageHead, s, x).Some? ==> MatchAt(UsepackageHead, s, x).value <= j
  {
    HeadAndTailAvoidClose();
    LitAgree(s, v, j, "\\usepackage", x);
    if LitAt(s, "\\usepackage", x) {
      SpacesAgree(s, v, j, x + 11);
    }
  }

  /** Where the inputenc pattern fails at the bracket it meets first at `b`, no match of
      it starting before `b` in a stretch without `]` can reach past `b`. */
  lemma NoCrossing(s: string, b: nat, m: nat)
    requires b < |s| && s[b] == ']' && MatchAt(InputencTail, s, b + 1).None?
    requires m <= b && forall y :: m <= y < b ==> s[y] != ']'
    requires MatchAt(InputencPackage, s, m).Some?
    ensures MatchAt(InputencPackage, s, m).value <= b
  {
    InputencShape();
    InputencAvoidsClose();
    TailFailsAtClose(s, b);
    NoCrossingIn(InputencPackage, UsepackageHead, InputencTail, s, b, m);
  }

  lemma NoCrossingIn(ps: seq<Piece>, head: seq<Piece>, tail: seq<Piece>, s: string, b: nat, m: nat)
    requires ps == head + ([OptBracket] + tail) && NoCloseIn(head) && NoCloseIn(tail)
    requires b < |s| && s[b] == ']' && MatchAt(tail, s, b).None? && MatchAt(tail, s, b + 1).None?
    requires m <= b && forall y :: m <= y < b ==> s[y] != ']'
    requires MatchAt(ps, s, m).Some?
    ensures MatchAt(ps, s, m).value <= b
  {
    MatchAtConcat(head, [OptBracket] + tail, s, m);
    var km := MatchAt(head, s, m).value;
    MatchAtConcat([OptBracket], tail, s, km);
    NoCrossingOf(head, tail, s, b, m);
  }

  /** The same for any head and tail free of `]` around an optional bracket. */
  lemma NoCrossingOf(head: seq<Piece>, tail: seq<Piece>, s: string, b: nat, m: nat)
    requires NoCloseIn(head) && NoCloseIn(tail)
    requires b < |s| && s[b] == ']' && MatchAt(tail, s, b).None? && MatchAt(tail, s, b + 1).None?
    requires m <= b && forall y :: m <= y < b ==> s[y] != ']'
    requires MatchAt(head, s, m).Some?
    requires MatchAt(tail, s, Step(OptBracket, s, MatchAt(head, s, m).value).value).Some?
    ensures MatchAt(tail, s, Step(OptBracket, s, MatchAt(head, s, m).value).value).value <= b
  {
    var km := MatchAt(head, s, m).value;
    MatchAvoidsClose(head, s, m);
    ClosedBefore(s, m, km, b);
    TailStopsAt(tail, s, b, km);
  }

  /** After the head, the optional bracket and the tail stop at the `]` at `b`. */
  lemma TailStopsAt(tail: seq<Piece>, s: string, b: nat, km: nat)
    requires NoCloseIn(tail) && km <= b < |s| && s[b] == ']'
    requires forall y :: km <= y < b ==> s[y] != ']'
    requires MatchAt(tail, s, b).None? && MatchAt(tail, s, b + 1).None?
    requires MatchAt(tail, s, Step(OptBracket, s, km).value).Some?
    ensures MatchAt(tail, s, Step(OptBracket, s, km).value).value <= b
  {
    OptBracketBeforeClose(s, km, b);
    if Step(OptBracket, s, km) == Some(km) && km < b {
      MatchAvoidsClose(tail, s, km);
      ClosedBefore(s, km, MatchAt(tail, s, km).value, b);
    }
  }

  /** A stretch from `m` without `]` ends at or before a `]` at `b`. */
  lemma ClosedBefore(s: string, m: nat, k: nat, b: nat)
    requires m <= b < |s| && k <= |s| && s[b] == ']' && forall y :: m <= y < k ==> s[y] != ']'
    ensures k <= b
  {
  }

  /** Before the first `]`, an optional bracket either stops where it starts, or is
      opened and closes at that `]`. */
  lemma OptBracketBeforeClose(s: string, k: nat, b: nat)
    requires k <= b < |s| && s[b] == ']' && forall y :: k <= y < b ==> s[y] != ']'
    ensures Step(OptBracket, s, k) == Some(k) || Step(OptBracket, s, k) == Some(b + 1)
  {
    if s[k] == '[' {
      FindCharFirst(s, ']', k + 1, b);
    }
  }

  lemma ReplaceStepMatch(q: seq<Piece>, s: string, r: string, i: nat)
    requires Anchored(q) && i < |s| && MatchAt(q, s, i).Some?
    ensures ReplaceFrom(q, s, r, i) == r + ReplaceFrom(q, s, r, MatchAt(q, s, i).value)
  {
  }

  lemma ReplaceStepCopy(q: seq<Piece>, s: string, r: string, i: nat)
    requires Anchored(q) && i < |s| && MatchAt(q, s, i).None?
    ensures ReplaceFrom(q, s, r, i) == [s[i]] + ReplaceFrom(q, s, r, i + 1)
  {
  }

  /** Two emitted stretches without `]` chain into one. */
  lemma ChainEmitted(a: string, rest: string, x: string, mid: string, tail: string)
    requires x == a + mid && mid == rest + tail && ']' !in a && ']' !in rest
    ensures x == (a + rest) + tail && ']' !in a + rest
  {
  }

  /** Up to a `]` at `b` that no match reaches past, replacement emits text without `]`
      and arrives at `b` itself. */
  lemma {:induction false} ReplaceReaches(q: seq<Piece>, s: string, r: string, i: nat, b: nat)
    returns (y: string)
    requires Anchored(q) && i <= b < |s|
    requires forall m :: i <= m < b ==> s[m] != ']'
    requires forall m :: i <= m < b && MatchAt(q, s, m).Some? ==> MatchAt(q, s, m).value <= b
    requires ']' !in r
    ensures ReplaceFrom(q, s, r, i) == y + ReplaceFrom(q, s, r, b)
    ensures ']' !in y
    decreases b - i
  {
    if i == b {
      y := "";
    } else if MatchAt(q, s, i).Some? {
      var n := MatchAt(q, s, i).value;
      ReplaceStepMatch(q, s, r, i);
      var rest := ReplaceReaches(q, s, r, n, b);
      ChainEmitted(r, rest, ReplaceFrom(q, s, r, i), ReplaceFrom(q, s, r, n), ReplaceFrom(q, s, r, b));
      y := r + rest;
    } else {
      ReplaceStepCopy(q, s, r, i);
      var rest := ReplaceReaches(q, s, r, i + 1, b);
      ChainEmitted([s[i]], rest, ReplaceFrom(q, s, r, i), ReplaceFrom(q, s, r, i + 1), ReplaceFrom(q, s, r, b));
      y := [s[i]] + rest;
    }
  }

  lemma DivergeSuffix(s: string, r: string, t: string, c: nat, j: nat)
    requires c <= j < |s| && s[j] == '\\' && CommentOk(r)
    ensures Diverge(s[c..], s[c..j] + (r + t), j - c)
  {
  }

  /** Local pieces read the replaced text as they read the original. */
  lemma LocalAgreeAfter(ps: seq<Piece>, q: seq<Piece>, s: string, r: string, c: nat)
    requires AllLocal(ps) && Closes(q) && c <= |s| && CommentOk(r)
    ensures MatchAt(ps, s[c..], 0) == MatchAt(ps, ReplaceFrom(q, s, r, c), 0)
  {
    match NextMatch(q, s, c)
    case None =>
      ReplaceWithoutMatch(q, s, r, c);
    case Some(j) =>
      ReplaceUpTo(q, s, r, c, j);
      var e := MatchAt(q, s, j).value;
      ClosingMatch(q, s, j);
      var t := ReplaceFrom(q, s, r, e);
      assert ReplaceFrom(q, s, r, j) == r + t;
      DivergeSuffix(s, r, t, c, j);
      MatchAtAgree(ps, s[c..], s[c..j] + (r + t), j - c, 0);
  }

  /** The stretch of `v` from `k + 1` holds no `]` up to `f`, where it holds one. */
  lemma BracketInReplaced(s: string, r: string, y: string, u: string, v: string, j: nat, k: nat)
    requires k < j <= |s| && (forall m :: k + 1 <= m < j ==> s[m] != ']')
    requires ']' !in r && ']' !in y && v == s[..j] + r + y + "]" + u
    ensures FindChar(v, ']', k + 1) == Some(j + |r| + |y|)
  {
    var f := j + |r| + |y|;
    forall m | k + 1 <= m < f ensures v[m] != ']' {
      if m < j {
        assert v[m] == s[m];
      } else if m < j + |r| {
        assert v[m] == r[m - j];
      } else {
        assert v[m] == y[m - j - |r|];
      }
    }
    FindCharFirst(v, ']', k + 1, f);
  }

  /** None of `v` from `k + 1` holds a `]`. */
  lemma NoBracketInReplaced(s: string, r: string, t: string, v: string, j: nat, k: nat)
    requires k < j <= |s| && (forall m :: k + 1 <= m < j ==> s[m] != ']')
    requires ']' !in r && ']' !in t && v == s[..j] + (r + t)
    ensures FindChar(v, ']', k + 1).None?
  {
    forall m | k + 1 <= m < |v| ensures v[m] != ']' {
      if m < j {
        assert v[m] == s[m];
      } else if m < j + |r| {
        assert v[m] == r[m - j];
      } else {
        assert v[m] == t[m - j - |r|];
      }
    }
  }

  /** The part of the inputenc match at `j` before its tail holds no `]`, and the match
      skips no bracket. */
  predicate NoCloseIn(ps: seq<Piece>) {
    forall n :: 0 <= n < |ps| ==> AvoidsClose(ps[n])
  }

  /** Two brackets opened with no `]` between them close at the same `]`. */
  lemma SameClosingBracket(s: string, k: nat, kj: nat)
    requires k < kj < |s| && s[k] == '[' && s[kj] == '[' && FindChar(s, ']', kj + 1).Some?
    requires forall m :: k + 1 <= m < kj ==> s[m] != ']'
    ensures Step(OptBracket, s, k) == Step(OptBracket, s, kj)
  {
    var bj := FindChar(s, ']', kj + 1).value;
    assert forall m :: k + 1 <= m < bj ==> s[m] != ']';
    FindCharFirst(s, ']', k + 1, bj);
  }

  /** A match of `head`, an optional bracket and `tail` at `j`, where `tail` fails after
      the bracket opened at `k`: nothing from `k + 1` to the end of the match is `]`. */
  lemma SplitMatchHasNoBracket(head: seq<Piece>, tail: seq<Piece>, s: string, k: nat, j: nat, e: nat)
    requires k < j < |s| && s[k] == '[' && (forall m :: k + 1 <= m < j ==> s[m] != ']')
    requires NoCloseIn(head) && NoCloseIn(tail)
    requires MatchAt(tail, s, Step(OptBracket, s, k).value).None?
    requires MatchAt(head, s, j).Some?
    requires MatchAt(tail, s, Step(OptBracket, s, MatchAt(head, s, j).value).value) == Some(e)
    ensures forall m :: k + 1 <= m < e ==> s[m] != ']'
  {
    var kj := MatchAt(head, s, j).value;
    MatchAvoidsClose(head, s, j);
    assert forall m :: k + 1 <= m < kj ==> s[m] != ']';
    if kj < |s| && s[kj] == '[' && FindChar(s, ']', kj + 1).Some? {
      SameClosingBracket(s, k, kj);
    } else {
      assert Step(OptBracket, s, kj) == Some(kj);
      MatchAvoidsClose(tail, s, kj);
    }
  }

  lemma MatchAtDivergenceHasNoBracket(s: string, k: nat, j: nat, e: nat)
    requires k < j < |s| && s[k] == '[' && (forall m :: k + 1 <= m < j ==> s[m] != ']')
    requires MatchAt(InputencTail, s, Step(OptBracket, s, k).value).None?
    requires MatchAt(InputencPackage, s, j) == Some(e)
    ensures j < e && forall m :: k + 1 <= m < e ==> s[m] != ']'
  {
    InputencSplit(s, j);
    HeadAndTailAvoidClose();
    SplitMatchHasNoBracket(UsepackageHead, InputencTail, s, k, j, e);
    InputencCloses();
  }

  lemma ChainReplaced(v: string, sj: string, r: string, t: string, y: string, w: string, u: string)
    requires v == sj + (r + t) && t == y + w && w == "]" + u
    ensures v == sj + r + y + "]" + u
  {
  }

  lemma BracketStep(v: string, k: nat, f: nat)
    requires k < |v| && v[k] == '[' && FindChar(v, ']', k + 1) == Some(f)
    ensures Step(OptBracket, v, k) == Some(f + 1)
  {
  }

  /** After the bracket, `tail` reads `v` as it reads `s` after the bracket. */
  lemma TailAfterClose(tail: seq<Piece>, q: seq<Piece>, s: string, r: string, v: string, a: string, b: nat)
    requires AllLocal(tail) && Closes(q) && CommentOk(r) && b < |s|
    requires v == a + ReplaceFrom(q, s, r, b + 1) && MatchAt(tail, s, b + 1).None?
    ensures MatchAt(tail, v, |a|).None?
  {
    var w := s[b + 1..];
    var u := ReplaceFrom(q, s, r, b + 1);
    LocalAgreeAfter(tail, q, s, r, b + 1);
    assert s == s[..b + 1] + w;
    MatchAtPrepend(tail, s[..b + 1], w, 0);
    MatchAtPrepend(tail, a, u, 0);
  }

  /** When the bracket is closed after the match at `j`, `v` is a stretch ending in the
      first `]` after `k`, followed by the replacement of what follows that `]` in `s`. */
  lemma ClosedLayout(s: string, v: string, r: string, j: nat, k: nat, e: nat, b: nat) returns (a: string)
    requires k < j < |s| && s[k] == '[' && CommentOk(r) && ']' !in r
    requires j < e <= b && FindChar(s, ']', k + 1) == Some(b)
    requires forall m :: k + 1 <= m < e ==> s[m] != ']'
    requires MatchAt(InputencTail, s, b + 1).None?
    requires v == s[..j] + (r + ReplaceFrom(InputencPackage, s, r, e))
    ensures v == a + ReplaceFrom(InputencPackage, s, r, b + 1)
    ensures |a| >= 1 && FindChar(v, ']', k + 1) == Some(|a| - 1)
    ensures k < |v| && v[k] == '['
  {
    InputencStopsAt(s, e, b);
    InputencCloses();
    a := ClosedLayoutOf(InputencPackage, s, v, r, j, k, e, b);
  }

  /** No inputenc match that starts before a `]` whose tail fails runs past it. */
  lemma InputencStopsAt(s: string, e: nat, b: nat)
    requires e <= b < |s| && s[b] == ']' && MatchAt(InputencTail, s, b + 1).None?
    requires forall m :: e <= m < b ==> s[m] != ']'
    ensures forall m :: e <= m < b && MatchAt(InputencPackage, s, m).Some? ==> MatchAt(InputencPackage, s, m).value <= b
  {
    forall m | e <= m < b && MatchAt(InputencPackage, s, m).Some?
      ensures MatchAt(InputencPackage, s, m).value <= b
    {
      NoCrossing(s, b, m);
    }
  }

  /** The layout of `v` for any backslash-led pattern whose matches after `e` stop at `b`. */
  lemma ClosedLayoutOf(q: seq<Piece>, s: string, v: string, r: string, j: nat, k: nat, e: nat, b: nat)
    returns (a: string)
    requires Backslashed(q) && k < j < |s| && s[k] == '[' && CommentOk(r) && ']' !in r
    requires j < e <= b && FindChar(s, ']', k + 1) == Some(b)
    requires forall m :: k + 1 <= m < e ==> s[m] != ']'
    requires forall m :: e <= m < b && MatchAt(q, s, m).Some? ==> MatchAt(q, s, m).value <= b
    requires v == s[..j] + (r + ReplaceFrom(q, s, r, e))
    ensures v == a + ReplaceFrom(q, s, r, b + 1)
    ensures |a| >= 1 && FindChar(v, ']', k + 1) == Some(|a| - 1)
    ensures k < |v| && v[k] == '['
  {
    var y := ReplacedUpToBracket(q, s, v, r, j, e, b);
    BracketInReplaced(s, r, y, ReplaceFrom(q, s, r, b + 1), v, j, k);
    a := s[..j] + r + y + "]";
    assert |a| - 1 == j + |r| + |y|;
  }

  /** Up to the `]` at `b`, the replacement emits a stretch without `]`, then that `]`. */
  lemma ReplacedUpToBracket(q: seq<Piece>, s: string, v: string, r: string, j: nat, e: nat, b: nat)
    returns (y: string)
    requires Backslashed(q) && j < e <= b < |s| && s[b] == ']' && ']' !in r
    requires forall m :: e <= m < b ==> s[m] != ']'
    requires forall m :: e <= m < b && MatchAt(q, s, m).Some? ==> MatchAt(q, s, m).value <= b
    requires v == s[..j] + (r + ReplaceFrom(q, s, r, e))
    ensures v == s[..j] + r + y + "]" + ReplaceFrom(q, s, r, b + 1) && ']' !in y
  {
    y := ReplaceReaches(q, s, r, e, b);
    NoMatchAtOtherChar(q, s, b);
    ReplaceStepCopy(q, s, r, b);
    ChainReplaced(v, s[..j], r, ReplaceFrom(q, s, r, e), y, ReplaceFrom(q, s, r, b), ReplaceFrom(q, s, r, b + 1));
  }

  /** The hard case when the bracket is closed after the match at `j`. */
  lemma HardCaseClosed(s: string, v: string, r: string, j: nat, k: nat, e: nat, b: nat)
    requires k < j < |s| && s[k] == '[' && CommentOk(r) && ']' !in r
    requires j < e <= b && FindChar(s, ']', k + 1) == Some(b)
    requires forall m :: k + 1 <= m < e ==> s[m] != ']'
    requires MatchAt(InputencTail, s, b + 1).None?
    requires v == s[..j] + (r + ReplaceFrom(InputencPackage, s, r, e))
    ensures MatchAt(InputencTail, v, Step(OptBracket, v, k).value).None?
  {
    var a := ClosedLayout(s, v, r, j, k, e, b);
    HeadAndTailAvoidClose();
    InputencCloses();
    ClosedTail(InputencTail, InputencPackage, s, r, v, a, k, b);
  }

  lemma ClosedTail(tail: seq<Piece>, q: seq<Piece>, s: string, r: string, v: string, a: string, k: nat, b: nat)
    requires AllLocal(tail) && Closes(q) && CommentOk(r) && b < |s| && MatchAt(tail, s, b + 1).None?
    requires k < |v| && v[k] == '[' && |a| >= 1 && FindChar(v, ']', k + 1) == Some(|a| - 1)
    requires v == a + ReplaceFrom(q, s, r, b + 1)
    ensures MatchAt(tail, v, Step(OptBracket, v, k).value).None?
  {
    BracketStep(v, k, |a| - 1);
    TailAfterClose(tail, q, s, r, v, a, b);
  }

  /** The hard case: the bracket opened before the divergence is not closed before it. */
  lemma HardCase(s: string, v: string, r: string, j: nat, k: nat, e: nat)
    requires k < j < |s| && s[k] == '[' && CommentOk(r) && ']' !in r
    requires forall m :: k + 1 <= m < j ==> s[m] != ']'
    requires MatchAt(InputencTail, s, Step(OptBracket, s, k).value).None?
    requires MatchAt(InputencPackage, s, j) == Some(e)
    requires v == s[..j] + (r + ReplaceFrom(InputencPackage, s, r, e))
    ensures MatchAt(InputencTail, v, Step(OptBracket, v, k).value).None?
  {
    if FindChar(s, ']', k + 1).None? {
      HardCaseOpen(InputencPackage, s, v, r, j, k, e);
    } else {
      HardCaseFound(s, v, r, j, k, e, FindChar(s, ']', k + 1).value);
    }
  }

  /** The hard case when a `]` follows the bracket somewhere in `s`. */
  lemma HardCaseFound(s: string, v: string, r: string, j: nat, k: nat, e: nat, b: nat)
    requires k < j < |s| && s[k] == '[' && CommentOk(r) && ']' !in r
    requires forall m :: k + 1 <= m < j ==> s[m] != ']'
    requires MatchAt(InputencTail, s, Step(OptBracket, s, k).value).None?
    requires MatchAt(InputencPackage, s, j) == Some(e) && FindChar(s, ']', k + 1) == Some(b)
    requires v == s[..j] + (r + ReplaceFrom(InputencPackage, s, r, e))
    ensures MatchAt(InputencTail, v, Step(OptBracket, v, k).value).None?
  {
    FoundBracketFacts(s, j, k, e, b);
    HardCaseClosed(s, v, r, j, k, e, b);
  }

  /** The `]` found after the bracket lies at or after the end of the match at `j`, and
      the tail fails after it. */
  lemma FoundBracketFacts(s: string, j: nat, k: nat, e: nat, b: nat)
    requires k < j < |s| && s[k] == '['
    requires forall m :: k + 1 <= m < j ==> s[m] != ']'
    requires MatchAt(InputencTail, s, Step(OptBracket, s, k).value).None?
    requires MatchAt(InputencPackage, s, j) == Some(e) && FindChar(s, ']', k + 1) == Some(b)
    ensures j < e <= b && MatchAt(InputencTail, s, b + 1).None?
    ensures forall m :: k + 1 <= m < e ==> s[m] != ']'
  {
    MatchAtDivergenceHasNoBracket(s, k, j, e);
    BracketTail(InputencTail, s, k, b);
    ClosedAfter(s, k, e, b);
  }

  lemma BracketTail(tail: seq<Piece>, s: string, k: nat, b: nat)
    requires k < |s| && s[k] == '[' && FindChar(s, ']', k + 1) == Some(b)
    requires MatchAt(tail, s, Step(OptBracket, s, k).value).None?
    ensures MatchAt(tail, s, b + 1).None?
  {
    BracketStep(s, k, b);
  }

  lemma ClosedAfter(s: string, k: nat, e: nat, b: nat)
    requires k < |s| && e <= |s| && FindChar(s, ']', k + 1) == Some(b)
    requires forall m :: k + 1 <= m < e ==> s[m] != ']'
    ensures e <= b
  {
  }

  /** The hard case when the bracket is never closed: neither is it in `v`. */
  lemma HardCaseOpen(q: seq<Piece>, s: string, v: string, r: string, j: nat, k: nat, e: nat)
    requires Anchored(q) && k < j <= e <= |s| && s[k] == '[' && ']' !in r
    requires FindChar(s, ']', k + 1).None?
    requires v == s[..j] + (r + ReplaceFrom(q, s, r, e))
    ensures MatchAt(InputencTail, v, Step(OptBracket, v, k).value).None?
  {
    var t := ReplaceFrom(q, s, r, e);
    ReplaceKeepsOutFrom(q, s, r, e, ']');
    assert forall m :: k + 1 <= m < j ==> s[m] != ']';
    NoBracketInReplaced(s, r, t, v, j, k);
    assert v[k] == s[k];
    TailFailsAt(v, k);
  }

  /** The easy cases: no bracket before the divergence, or one closed before it. */
  lemma BracketCrux(tail: seq<Piece>, s: string, v: string, j: nat, k: nat)
    requires AllLocal(tail) && Diverge(s, v, j) && k <= j
    requires k < j && s[k] == '[' ==> FindChar(s, ']', k + 1).Some? && FindChar(s, ']', k + 1).value < j
    requires MatchAt(tail, s, Step(OptBracket, s, k).value).None?
    ensures MatchAt(tail, v, Step(OptBracket, v, k).value).None?
  {
    if k < j && s[k] == '[' {
      var b := FindChar(s, ']', k + 1).value;
      BracketStep(s, k, b);
      BracketCruxClosed(tail, s, v, j, k, b);
    } else {
      BracketCruxPlain(tail, s, v, j, k);
    }
  }

  /** A bracket closed before the divergence is closed at the same place in `v`. */
  lemma BracketCruxClosed(tail: seq<Piece>, s: string, v: string, j: nat, k: nat, b: nat)
    requires AllLocal(tail) && Diverge(s, v, j) && k < j && s[k] == '['
    requires FindChar(s, ']', k + 1) == Some(b) && b < j && MatchAt(tail, s, b + 1).None?
    ensures MatchAt(tail, v, Step(OptBracket, v, k).value).None?
  {
    assert v[k] == '[' && v[b] == ']';
    FindCharFirst(v, ']', k + 1, b);
    MatchAtAgree(tail, s, v, j, b + 1);
  }

  /** Without a bracket before the divergence, the optional bracket is empty in both. */
  lemma BracketCruxPlain(tail: seq<Piece>, s: string, v: string, j: nat, k: nat)
    requires AllLocal(tail) && Diverge(s, v, j) && k <= j && !(k < j && s[k] == '[')
    requires MatchAt(tail, s, Step(OptBracket, s, k).value).None?
    ensures MatchAt(tail, v, Step(OptBracket, v, k).value).None?
  {
    if k < j {
      assert v[k] == s[k];
    }
    MatchAtAgree(tail, s, v, j, k);
  }

  /** Where the inputenc pattern fails on `s`, it fails on `v`. */
  lemma InputencCrux(s: string, v: string, r: string, x: nat, j: nat)
    requires Diverge(s, v, j) && x < j && CommentOk(r) && ']' !in r
    requires MatchAt(InputencPackage, s, x).None? && MatchAt(InputencPackage, s, j).Some?
    requires v == s[..j] + (r + ReplaceFrom(InputencPackage, s, r, MatchAt(InputencPackage, s, j).value))
    ensures MatchAt(InputencPackage, v, x).None?
  {
    InputencSplit(s, x);
    InputencSplit(v, x);
    InputencHeadAgree(s, v, j, x);
    if MatchAt(UsepackageHead, s, x).Some? {
      var k := MatchAt(UsepackageHead, s, x).value;
      HeadAndTailAvoidClose();
      if k < j && s[k] == '[' && !(FindChar(s, ']', k + 1).Some? && FindChar(s, ']', k + 1).value < j) {
        HardCase(s, v, r, j, k, MatchAt(InputencPackage, s, j).value);
      } else {
        BracketCrux(InputencTail, s, v, j, k);
      }
    }
  }

  lemma LayoutEq(s: string, x: nat, j: nat, copied: string, fromMatch: string, r: string, t: string)
    requires x < j <= |s| && copied == s[x + 1..j] + fromMatch && fromMatch == r + t
    ensures s[..x + 1] + copied == s[..j] + (r + t)
    ensures s[..x + 1] + copied == s[..x + 1] + s[x + 1..j] + (r + t)
  {
    assert s[..x + 1] + s[x + 1..j] == s[..j];
  }

  /** Copying up to the next match `j` of a closing pattern and replacing it: the text
      produced diverges from `s` at `j`. */
  lemma CopyLayout(q: seq<Piece>, s: string, r: string, x: nat, j: nat)
    requires Closes(q) && CommentOk(r) && x < j < |s| && MatchAt(q, s, j).Some?
    requires ReplaceFrom(q, s, r, x + 1) == s[x + 1..j] + ReplaceFrom(q, s, r, j)
    ensures s[..x + 1] + ReplaceFrom(q, s, r, x + 1) ==
      s[..j] + (r + ReplaceFrom(q, s, r, MatchAt(q, s, j).value))
    ensures Diverge(s, s[..x + 1] + ReplaceFrom(q, s, r, x + 1), j)
  {
    var e := MatchAt(q, s, j).value;
    ClosingMatch(q, s, j);
    var t := ReplaceFrom(q, s, r, e);
    ReplaceStepMatch(q, s, r, j);
    LayoutEq(s, x, j, ReplaceFrom(q, s, r, x + 1), ReplaceFrom(q, s, r, j), r, t);
    DivergeAtMatch(s, r, t, x, j);
  }

  lemma InputencCopyUpToMatch(s: string, r: string, x: nat, j: nat)
    requires CommentOk(r) && ']' !in r && x < j < |s|
    requires MatchAt(InputencPackage, s, j).Some? && MatchAt(InputencPackage, s, x).None?
    requires ReplaceFrom(InputencPackage, s, r, x + 1) == s[x + 1..j] + ReplaceFrom(InputencPackage, s, r, j)
    ensures MatchAt(InputencPackage, s[..x + 1] + ReplaceFrom(InputencPackage, s, r, x + 1), x).None?
  {
    InputencCloses();
    CopyLayout(InputencPackage, s, r, x, j);
    InputencCrux(s, s[..x + 1] + ReplaceFrom(InputencPackage, s, r, x + 1), r, x, j);
  }

  lemma InputencCopyKeepsFailing(s: string, r: string, x: nat)
    requires CommentOk(r) && ']' !in r && x < |s| && MatchAt(InputencPackage, s, x).None?
    ensures CopyKeeps(InputencPackage, InputencPackage, s, r, x)
  {
    InputencCloses();
    match NextMatch(InputencPackage, s, x + 1)
    case None =>
      CopyWithoutLaterMatch(InputencPackage, InputencPackage, s, r, x);
    case Some(j) =>
      InputencCopyUpToNext(s, r, x, j);
  }

  lemma InputencCopyUpToNext(s: string, r: string, x: nat, j: nat)
    requires CommentOk(r) && ']' !in r && x < j < |s| && MatchAt(InputencPackage, s, x).None?
    requires MatchAt(InputencPackage, s, j).Some?
    requires forall y :: x + 1 <= y < j ==> MatchAt(InputencPackage, s, y).None?
    ensures MatchAt(InputencPackage, s[..x + 1] + ReplaceFrom(InputencPackage, s, r, x + 1), x).None?
  {
    InputencCloses();
    ReplaceUpTo(InputencPackage, s, r, x + 1, j);
    InputencCopyUpToMatch(s, r, x, j);
  }

  /** Replacing every inputenc line by a comment leaves none. */
  lemma InputencAfterOwnReplace(s: string, r: string)
    requires CommentOk(r) && ']' !in r
    ensures NoMatchFrom(InputencPackage, ReplaceAll(InputencPackage, s, r), 0)
  {
    InputencCloses();
    forall x | 0 <= x < |s| ensures CopyKeeps(InputencPackage, InputencPackage, s, r, x) {
      if MatchAt(InputencPackage, s, x).None? {
        InputencCopyKeepsFailing(s, r, x);
      }
    }
    ReplaceLeavesNoMatch(InputencPackage, InputencPackage, s, r, 0);
    assert s[..0] + ReplaceFrom(InputencPackage, s, r, 0) == ReplaceAll(InputencPackage, s, r);
  }

  // ---------------------------------------------------------------------------------
  // What the cleanup removes for good
  // ---------------------------------------------------------------------------------

  lemma InclusionIsShaped()
    ensures ShapeOk("\\", [AltLit("input", "include"), Spaces, Lit("{")])
    ensures FileInclusion == Shape("\\", [AltLit("input", "include"), Spaces, Lit("{")], true)
    ensures Closes(FileInclusion) && AllSpaceFree(FileInclusion)
  {
    var body := [AltLit("input", "include"), Spaces, Lit("{")];
    assert AllLocal(body) by {
      forall n | 0 <= n < |body| ensures LocalPiece(body[n]) {
      }
    }
    assert FileInclusion == [Lit("\\")] + body + [UpTo('}', true)];
    assert AllSpaceFree(FileInclusion) by {
      forall n | 0 <= n < |FileInclusion| ensures SpaceFree(FileInclusion[n]) {
      }
    }
  }

  lemma MainFontIsShaped()
    ensures ShapeOk("\\setmainfont", [Spaces, Lit("{")])
    ensures MainFont == Shape("\\setmainfont", [Spaces, Lit("{")], true)
    ensures Closes(MainFont) && AllSpaceFree(MainFont)
  {
  }

  lemma FontspecIsShaped()
    ensures ShapeOk("\\usepackage", [Spaces, Lit("{"), Spaces, Lit("fontspec"), Spaces, Lit("}")])
    ensures FontspecPackage ==
      Shape("\\usepackage", [Spaces, Lit("{"), Spaces, Lit("fontspec"), Spaces, Lit("}")], false)
    ensures Closes(FontspecPackage) && AllSpaceFree(FontspecPackage)
  {
    var body := [Spaces, Lit("{"), Spaces, Lit("fontspec"), Spaces, Lit("}")];
    assert AllLocal(body) by {
      forall n | 0 <= n < |body| ensures LocalPiece(body[n]) {
      }
    }
    assert FontspecPackage == [Lit("\\usepackage")] + body;
    assert AllSpaceFree(FontspecPackage) by {
      forall n | 0 <= n < |FontspecPackage| ensures SpaceFree(FontspecPackage[n]) {
      }
    }
  }

  lemma InputencCloses()
    ensures Closes(InputencPackage) && AllSpaceFree(InputencPackage)
  {
  }

  lemma CommentsOk()
    ensures CommentOk(InclusionRemoved) && CommentOk(InputencRemoved)
    ensures CommentOk(FontspecRemoved) && CommentOk(MainFontRemoved)
  {
    InclusionRemovedIsInert();
    InputencRemovedIsInert();
    FontspecRemovedIsInert();
    MainFontRemovedIsInert();
  }

  lemma RemoteImageIsShaped()
    ensures ShapeOk("\\includegraphics", [Spaces, Lit("{http"), OptLetter('s'), Lit(":")])
    ensures RemoteImage == Shape("\\includegraphics", [Spaces, Lit("{http"), OptLetter('s'), Lit(":")], true)
    ensures Closes(RemoteImage) && AllSpaceFree(RemoteImage)
  {
    var body := [Spaces, Lit("{http"), OptLetter('s'), Lit(":")];
    assert AllLocal(body) by {
      forall n | 0 <= n < |body| ensures LocalPiece(body[n]) {
      }
    }
    assert RemoteImage == [Lit("\\includegraphics")] + body + [UpTo('}', true)];
    assert AllSpaceFree(RemoteImage) by {
      forall n | 0 <= n < |RemoteImage| ensures SpaceFree(RemoteImage[n]) {
      }
    }
  }

  /** No option-less remote image `\includegraphics{http(s):…}` survives the directive
      cleanup: the second image replace leaves none of its own, and the inclusion
      replace after it creates none. */
  lemma PlainRemoteImagesRemoved(s: string)
    ensures NoMatchFrom(RemoteImage, NeutralizeDirectives(s), 0)
  {
    RemoteImageIsShaped();
    InclusionIsShaped();
    CommentsOk();
    ImageRemovedIsInert();
    var w0 := "\\includegraphics";
    var body := [Spaces, Lit("{http"), OptLetter('s'), Lit(":")];
    var s4 := ReplaceAll(RemoteImageWithOptions, s, ImageRemoved);
    ShapeAfterReplace(w0, body, true, RemoteImage, s4, ImageRemoved);
    var s5 := ReplaceAll(RemoteImage, s4, ImageRemoved);
    ShapeAfterReplace(w0, body, true, FileInclusion, s5, InclusionRemoved);
  }

  /** The package cleanup brings no option-less remote image back. */
  lemma PackagesKeepRemoteImagesOut(s: string, native: bool)
    requires NoMatchFrom(RemoteImage, s, 0)
    ensures NoMatchFrom(RemoteImage, ReconcilePackages(s, native), 0)
  {
    RemoteImageIsShaped();
    MainFontIsShaped();
    FontspecIsShaped();
    InputencCloses();
    CommentsOk();
    var w0 := "\\includegraphics";
    var body := [Spaces, Lit("{http"), OptLetter('s'), Lit(":")];
    if native {
      ShapeAfterReplace(w0, body, true, InputencPackage, s, InputencRemoved);
    } else {
      var t := ReplaceAll(FontspecPackage, s, FontspecRemoved);
      ShapeAfterReplace(w0, body, true, FontspecPackage, s, FontspecRemoved);
      ShapeAfterReplace(w0, body, true, MainFont, t, MainFontRemoved);
    }
  }

  lemma TrimmedHasNoPlainRemoteImage(s: string, native: bool)
    ensures NoMatchFrom(RemoteImage, Trim(ReconcilePackages(NeutralizeDirectives(s), native)), 0)
  {
    PlainRemoteImagesRemoved(s);
    PackagesKeepRemoteImagesOut(NeutralizeDirectives(s), native);
    RemoteImageIsShaped();
    TrimKeepsNoMatch(RemoteImage, ReconcilePackages(NeutralizeDirectives(s), native));
  }

  /** The cleaned text, before any envelope, holds no option-less remote image
      `\includegraphics{http(s):…}`; only one with options can survive. */
  lemma CleanedHasNoPlainRemoteImage(raw: Option<string>, engine: Option<string>)
    ensures NoMatchFrom(RemoteImage, Cleaned(raw, engine), 0)
  {
    var unfenced := RemoveFences(PairFences(StripBom(OrEmpty(raw))));
    TrimmedHasNoPlainRemoteImage(StripTag(unfenced), NativeFonts(EngineName(engine)));
  }

  /** No `\input{…}` or `\include{…}` survives the directive cleanup. */
  lemma InclusionsRemoved(s: string)
    ensures NoMatchFrom(FileInclusion, NeutralizeDirectives(s), 0)
  {
    InclusionIsShaped();
    CommentsOk();
    var t := ReplaceAll(RemoteImage, ReplaceAll(RemoteImageWithOptions, s, ImageRemoved), ImageRemoved);
    ShapeAfterReplace("\\", [AltLit("input", "include"), Spaces, Lit("{")], true, FileInclusion, t, InclusionRemoved);
  }

  /** The package cleanup brings no `\input{…}` or `\include{…}` back. */
  lemma PackagesKeepInclusionsOut(s: string, native: bool)
    requires NoMatchFrom(FileInclusion, s, 0)
    ensures NoMatchFrom(FileInclusion, ReconcilePackages(s, native), 0)
  {
    InclusionIsShaped();
    MainFontIsShaped();
    FontspecIsShaped();
    InputencCloses();
    CommentsOk();
    var w0 := "\\";
    var body := [AltLit("input", "include"), Spaces, Lit("{")];
    if native {
      ShapeAfterReplace(w0, body, true, InputencPackage, s, InputencRemoved);
    } else {
      var t := ReplaceAll(FontspecPackage, s, FontspecRemoved);
      ShapeAfterReplace(w0, body, true, FontspecPackage, s, FontspecRemoved);
      ShapeAfterReplace(w0, body, true, MainFont, t, MainFontRemoved);
    }
  }

  /** Under an engine without native fonts, no `\usepackage{fontspec}` and no
      `\setmainfont{…}` survives the package cleanup. */
  lemma OtherRemovesFontspec(s: string)
    ensures NoMatchFrom(FontspecPackage, ReconcilePackages(s, false), 0)
    ensures NoMatchFrom(MainFont, ReconcilePackages(s, false), 0)
  {
    MainFontIsShaped();
    FontspecIsShaped();
    CommentsOk();
    var fw := "\\usepackage";
    var fb := [Spaces, Lit("{"), Spaces, Lit("fontspec"), Spaces, Lit("}")];
    var t := ReplaceAll(FontspecPackage, s, FontspecRemoved);
    ShapeAfterReplace(fw, fb, false, FontspecPackage, s, FontspecRemoved);
    ShapeAfterReplace(fw, fb, false, MainFont, t, MainFontRemoved);
    ShapeAfterReplace("\\setmainfont", [Spaces, Lit("{")], true, MainFont, t, MainFontRemoved);
  }

  lemma TrimmedHasNoInclusion(s: string, native: bool)
    ensures NoMatchFrom(FileInclusion, Trim(ReconcilePackages(NeutralizeDirectives(s), native)), 0)
  {
    InclusionsRemoved(s);
    PackagesKeepInclusionsOut(NeutralizeDirectives(s), native);
    InclusionIsShaped();
    TrimKeepsNoMatch(FileInclusion, ReconcilePackages(NeutralizeDirectives(s), native));
  }

  lemma TrimmedHasNoFontspec(s: string)
    ensures NoMatchFrom(FontspecPackage, Trim(ReconcilePackages(s, false)), 0)
    ensures NoMatchFrom(MainFont, Trim(ReconcilePackages(s, false)), 0)
  {
    OtherRemovesFontspec(s);
    MainFontIsShaped();
    FontspecIsShaped();
    TrimKeepsNoMatch(FontspecPackage, ReconcilePackages(s, false));
    TrimKeepsNoMatch(MainFont, ReconcilePackages(s, false));
  }

  /** The cleaned text, before any envelope, holds no `\input{…}` or `\include{…}`. */
  lemma CleanedHasNoInclusion(raw: Option<string>, engine: Option<string>)
    ensures NoMatchFrom(FileInclusion, Cleaned(raw, engine), 0)
  {
    var unfenced := RemoveFences(PairFences(StripBom(OrEmpty(raw))));
    TrimmedHasNoInclusion(StripTag(unfenced), NativeFonts(EngineName(engine)));
  }

  /** Under an engine without native fonts, the cleaned text holds no
      `\usepackage{fontspec}` and no `\setmainfont{…}`. */
  lemma CleanedHasNoFontspec(raw: Option<string>, engine: Option<string>)
    ensures !NativeFonts(EngineName(engine)) ==> NoMatchFrom(FontspecPackage, Cleaned(raw, engine), 0)
    ensures !NativeFonts(EngineName(engine)) ==> NoMatchFrom(MainFont, Cleaned(raw, engine), 0)
  {
    var unfenced := RemoveFences(PairFences(StripBom(OrEmpty(raw))));
    TrimmedHasNoFontspec(NeutralizeDirectives(StripTag(unfenced)));
  }

  /** Under XeLaTeX or LuaLaTeX, no `\usepackage[…]{inputenc}` survives the package
      cleanup. */
  lemma NativeRemovesInputenc(s: string)
    ensures NoMatchFrom(InputencPackage, ReconcilePackages(s, true), 0)
  {
    CommentsOk();
    InputencAfterOwnReplace(s, InputencRemoved);
  }

  lemma TrimmedHasNoInputenc(s: string)
    ensures NoMatchFrom(InputencPackage, Trim(ReconcilePackages(s, true)), 0)
  {
    NativeRemovesInputenc(s);
    InputencCloses();
    TrimKeepsNoMatch(InputencPackage, ReconcilePackages(s, true));
  }

  /** Under XeLaTeX or LuaLaTeX, the cleaned text holds no `\usepackage[…]{inputenc}`. */
  lemma CleanedHasNoInputenc(raw: Option<string>, engine: Option<string>)
    ensures NativeFonts(EngineName(engine)) ==> NoMatchFrom(InputencPackage, Cleaned(raw, engine), 0)
  {
    var unfenced := RemoveFences(PairFences(StripBom(OrEmpty(raw))));
    TrimmedHasNoInputenc(NeutralizeDirectives(StripTag(unfenced)));
  }
}
