/** `sanitizeLatex` of the document generator page: a fixed chain of rewrites that makes
    generated LaTeX safe to send to an online compiler, ending with a minimal envelope
    when the text has no `\documentclass`.

    The regular expressions of the chain are written as short sequences of `Piece`s run by
    a greedy matcher. Each of the six patterns used has at most one way of matching at a
    given position (every repeated class is followed by a character it excludes, and the
    two alternatives of `(input|include)` differ in their third letter), so the greedy
    matcher finds exactly the match JavaScript's backtracking engine finds. */
module Sanitize {
  import opened Wrappers
  import opened Text

  // ---------------------------------------------------------------------------------
  // The pattern language
  // ---------------------------------------------------------------------------------

  /** One element of a cleanup pattern. Every cleanup regex carries the `i` flag, so
      literals compare ignoring ASCII case. */
  datatype Piece =
    | Lit(w: string)                      // a literal
    | AltLit(first: string, second: string) // `(first|second)`, the first tried first
    | Spaces                              // `\s*`
    | OptLetter(c: char)                  // `c?`
    | UpTo(stop: char, nonEmpty: bool)    // `[^stop]*stop`, or `[^stop]+stop` when nonEmpty
    | OptBracket                          // `(\[[^\]]*\])?`

  /** A pattern whose matches start with a fixed, non-empty literal: global replacement
      then never meets an empty match. */
  predicate Anchored(ps: seq<Piece>) {
    |ps| > 0 && ps[0].Lit? && ps[0].w != []
  }

  /** `s` holds `w` at index `i`, ignoring ASCII case. */
  predicate LitAt(s: string, w: string, i: nat) {
    i + |w| <= |s| && forall k :: 0 <= k < |w| ==> SameLetter(s[i + k], w[k])
  }

  /** The first index at or after `i` holding `c`. */
  function FindChar(s: string, c: char, i: nat): (r: Option<nat>)
    requires i <= |s|
    ensures r.Some? ==> i <= r.value < |s| && s[r.value] == c
    ensures r.Some? ==> forall k :: i <= k < r.value ==> s[k] != c
    ensures r.None? ==> forall k :: i <= k < |s| ==> s[k] != c
    decreases |s| - i
  {
    if i == |s| then None else if s[i] == c then Some(i) else FindChar(s, c, i + 1)
  }

  /** Runs one piece at index `i`: the index after what it consumed, or `None`. */
  function Step(p: Piece, s: string, i: nat): (r: Option<nat>)
    requires i <= |s|
    ensures r.Some? ==> i <= r.value <= |s|
  {
    match p
    case Lit(w) => if LitAt(s, w, i) then Some(i + |w|) else None
    case AltLit(w1, w2) =>
      if LitAt(s, w1, i) then Some(i + |w1|) else if LitAt(s, w2, i) then Some(i + |w2|) else None
    case Spaces => Some(SpacesEnd(s, i))
    case OptLetter(c) => if i < |s| && SameLetter(s[i], c) then Some(i + 1) else Some(i)
    case UpTo(stop, nonEmpty) =>
      (match FindChar(s, stop, i)
       case None => None
       case Some(j) => if nonEmpty && j == i then None else Some(j + 1))
    case OptBracket =>
      if i < |s| && s[i] == '[' then
        match FindChar(s, ']', i + 1)
        case None => Some(i)
        case Some(j) => Some(j + 1)
      else Some(i)
  }

  /** Runs the pieces in order from index `i`: the end of the match, or `None`. */
  function MatchAt(ps: seq<Piece>, s: string, i: nat): (r: Option<nat>)
    requires i <= |s|
    ensures r.Some? ==> i <= r.value <= |s|
    ensures r.Some? && Anchored(ps) ==> i + |ps[0].w| <= r.value
    decreases |ps|
  {
    if ps == [] then Some(i)
    else
      match Step(ps[0], s, i)
      case None => None
      case Some(j) => MatchAt(ps[1..], s, j)
  }

  /** `s.replace(/pattern/gi, r)` restricted to the part of `s` from index `i`: the
      leftmost match is replaced, the scan resumes after it, and unmatched characters
      are copied. */
  function ReplaceFrom(ps: seq<Piece>, s: string, r: string, i: nat): (out: string)
    requires Anchored(ps) && i <= |s|
    decreases |s| - i
  {
    if i == |s| then ""
    else
      match MatchAt(ps, s, i)
      case Some(e) => r + ReplaceFrom(ps, s, r, e)
      case None => [s[i]] + ReplaceFrom(ps, s, r, i + 1)
  }

  function ReplaceAll(ps: seq<Piece>, s: string, r: string): string
    requires Anchored(ps)
  {
    ReplaceFrom(ps, s, r, 0)
  }

  /** No match of `ps` starts anywhere in `s` at or after `i`. */
  predicate NoMatchFrom(ps: seq<Piece>, s: string, i: nat)
    requires i <= |s|
  {
    forall j :: i <= j < |s| ==> MatchAt(ps, s, j).None?
  }

  /** Replacement changes nothing where the pattern does not match. */
  lemma {:induction false} ReplaceWithoutMatch(ps: seq<Piece>, s: string, r: string, i: nat)
    requires Anchored(ps) && i <= |s|
    requires NoMatchFrom(ps, s, i)
    ensures ReplaceFrom(ps, s, r, i) == s[i..]
    decreases |s| - i
  {
    if i < |s| {
      ReplaceWithoutMatch(ps, s, r, i + 1);
      assert s[i..] == [s[i]] + s[i + 1..];
    }
  }

  /** Every character of the result comes from the input or from the replacement. */
  lemma {:induction false} ReplaceKeepsOut(ps: seq<Piece>, s: string, r: string, i: nat, c: char)
    requires Anchored(ps) && i <= |s|
    requires c !in s && c !in r
    ensures c !in ReplaceFrom(ps, s, r, i)
    decreases |s| - i
  {
    if i < |s| {
      assert s[i] in s;
      match MatchAt(ps, s, i)
      case Some(e) =>
        ReplaceKeepsOut(ps, s, r, e, c);
      case None =>
        ReplaceKeepsOut(ps, s, r, i + 1, c);
    }
  }

  // ---------------------------------------------------------------------------------
  // Code fences
  // ---------------------------------------------------------------------------------

  const Fence: string := "```"

  /** Three backticks start at index `i`. */
  predicate FenceAt(s: string, i: int) {
    0 <= i && i + 3 <= |s| && s[i] == '`' && s[i + 1] == '`' && s[i + 2] == '`'
  }

  predicate NoFence(s: string) {
    forall i :: 0 <= i < |s| ==> !FenceAt(s, i)
  }

  lemma FenceAtIsOccurrence(s: string, i: nat)
    ensures FenceAt(s, i) <==> OccursAt(s, Fence, i)
  {
    if FenceAt(s, i) {
      assert s[i..i + 3] == Fence;
    }
    if OccursAt(s, Fence, i) {
      assert s[i..i + 3][0] == s[i] && s[i..i + 3][1] == s[i + 1] && s[i..i + 3][2] == s[i + 2];
    }
  }

  /** `NoFence` says exactly that the text does not contain three backticks in a row. */
  lemma NoFenceIsNotContains(s: string)
    ensures NoFence(s) <==> !Contains(s, Fence)
  {
    forall i: nat ensures FenceAt(s, i) <==> OccursAt(s, Fence, i) {
      FenceAtIsOccurrence(s, i);
    }
  }

  /** The first index at or after `i` where three backticks start. */
  function FindFence(s: string, i: nat): (r: Option<nat>)
    requires i <= |s|
    ensures r.Some? ==> i <= r.value && FenceAt(s, r.value)
    ensures r.Some? ==> forall k :: i <= k < r.value ==> !FenceAt(s, k)
    ensures r.None? ==> forall k :: i <= k < |s| ==> !FenceAt(s, k)
    decreases |s| - i
  {
    if i == |s| then None else if FenceAt(s, i) then Some(i) else FindFence(s, i + 1)
  }

  /** `s.replace(/```/g, '')` from index `i`: every triple of backticks met by the
      left-to-right scan is dropped. */
  function RemoveFencesFrom(s: string, i: nat): (r: string)
    requires i <= |s|
    decreases |s| - i
  {
    if i == |s| then ""
    else if FenceAt(s, i) then RemoveFencesFrom(s, i + 3)
    else [s[i]] + RemoveFencesFrom(s, i + 1)
  }

  function RemoveFences(s: string): string {
    RemoveFencesFrom(s, 0)
  }

  /** `s.replace(/```[\s\S]*?```/g, m => m.replace(/```/g, ''))` from index `i`: an
      opening triple and the nearest closing triple after it frame a match, which is
      replaced by itself with its fences removed; an opening triple without a closing
      one leaves the rest as it is. */
  function PairFencesFrom(s: string, i: nat): (r: string)
    requires i <= |s|
    decreases |s| - i
  {
    match FindFence(s, i)
    case None => s[i..]
    case Some(a) =>
      match FindFence(s, a + 3)
      case None => s[i..]
      case Some(b) => s[i..a] + RemoveFences(s[a..b + 3]) + PairFencesFrom(s, b + 3)
  }

  function PairFences(s: string): string {
    PairFencesFrom(s, 0)
  }

  /** What `RemoveFencesFrom` emits first is a backtick only when a backtick stands at `i`. */
  lemma RemoveFencesHead(s: string, i: nat)
    requires i <= |s|
    requires |RemoveFencesFrom(s, i)| > 0 && RemoveFencesFrom(s, i)[0] == '`'
    ensures i < |s| && s[i] == '`'
  {
  }

  /** Removing fences leaves no three backticks in a row, whatever the input. */
  lemma {:induction false} RemoveFencesLeavesNoFence(s: string, i: nat)
    requires i <= |s|
    ensures NoFence(RemoveFencesFrom(s, i))
    decreases |s| - i
  {
    if i == |s| {
    } else if FenceAt(s, i) {
      RemoveFencesLeavesNoFence(s, i + 3);
    } else {
      RemoveFencesLeavesNoFence(s, i + 1);
      var t := RemoveFencesFrom(s, i + 1);
      var out := [s[i]] + t;
      forall j | 0 <= j < |out| ensures !FenceAt(out, j) {
        if j > 0 {
          assert !FenceAt(t, j - 1);
        } else {
          NoTripleAtCopiedTick(s, i);
        }
      }
    }
  }

  /** A copied backtick is never followed by two emitted backticks. */
  lemma NoTripleAtCopiedTick(s: string, i: nat)
    requires i < |s| && !FenceAt(s, i)
    ensures !FenceAt([s[i]] + RemoveFencesFrom(s, i + 1), 0)
  {
    var t := RemoveFencesFrom(s, i + 1);
    if s[i] == '`' && |t| >= 2 && t[0] == '`' && t[1] == '`' {
      RemoveFencesHead(s, i + 1);
      assert !FenceAt(s, i + 1);
      var u := RemoveFencesFrom(s, i + 2);
      assert t == [s[i + 1]] + u;
      RemoveFencesHead(s, i + 2);
    }
  }

  /** The text with every backtick dropped: what the fence steps must keep. */
  function Unticked(s: string): (r: string)
    ensures '`' !in r && |r| <= |s|
    ensures '`' !in s ==> r == s
  {
    if s == [] then [] else if s[0] == '`' then Unticked(s[1..]) else [s[0]] + Unticked(s[1..])
  }

  lemma {:induction false} UntickedAppend(a: string, b: string)
    ensures Unticked(a + b) == Unticked(a) + Unticked(b)
    decreases |a|
  {
    if a != [] {
      assert (a + b)[1..] == a[1..] + b;
      UntickedAppend(a[1..], b);
    } else {
      assert a + b == b;
    }
  }

  /** Removing fences deletes backticks only: every other character is kept, in order. */
  lemma {:induction false} RemoveFencesKeepsText(s: string, i: nat)
    requires i <= |s|
    ensures Unticked(RemoveFencesFrom(s, i)) == Unticked(s[i..])
    decreases |s| - i
  {
    if i < |s| {
      if FenceAt(s, i) {
        RemoveFencesKeepsText(s, i + 3);
        assert s[i..] == Fence + s[i + 3..];
        UntickedAppend(Fence, s[i + 3..]);
      } else {
        RemoveFencesKeepsText(s, i + 1);
        assert s[i..] == [s[i]] + s[i + 1..];
        UntickedAppend([s[i]], s[i + 1..]);
        UntickedAppend([s[i]], RemoveFencesFrom(s, i + 1));
      }
    }
  }

  /** A stretch without backticks passes the fence removal unchanged. */
  lemma {:induction false} RemoveFencesKeepsPlain(s: string, i: nat)
    requires i <= |s| && forall k :: i <= k < |s| ==> s[k] != '`'
    ensures RemoveFencesFrom(s, i) == s[i..]
    decreases |s| - i
  {
    if i < |s| {
      RemoveFencesKeepsPlain(s, i + 1);
      assert s[i..] == [s[i]] + s[i + 1..];
    }
  }

  /** Pairing fences deletes backticks only: every other character is kept, in order. */
  lemma {:induction false} PairFencesKeepsText(s: string, i: nat)
    requires i <= |s|
    ensures Unticked(PairFencesFrom(s, i)) == Unticked(s[i..])
    decreases |s| - i
  {
    match FindFence(s, i)
    case None =>
    case Some(a) =>
      match FindFence(s, a + 3)
      case None =>
      case Some(b) =>
        PairFencesKeepsText(s, b + 3);
        PairStepKeepsText(s, i, a, b, PairFencesFrom(s, i), PairFencesFrom(s, b + 3));
  }

  lemma PairStepKeepsText(s: string, i: nat, a: nat, b: nat, out: string, tail: string)
    requires i <= a && a + 3 <= b && b + 3 <= |s|
    requires out == s[i..a] + RemoveFences(s[a..b + 3]) + tail
    requires Unticked(tail) == Unticked(s[b + 3..])
    ensures Unticked(out) == Unticked(s[i..])
  {
    var y := s[a..b + 3];
    RemoveFencesKeepsText(y, 0);
    assert y[0..] == y;
    assert s[i..] == s[i..a] + y + s[b + 3..];
    UntickedThree(s[i..a], y, s[b + 3..], RemoveFences(y), tail);
  }

  /** Replacing two parts of a text by parts with the same unticked text keeps its
      unticked text. */
  lemma UntickedThree(x: string, y: string, z: string, y': string, z': string)
    requires Unticked(y') == Unticked(y) && Unticked(z') == Unticked(z)
    ensures Unticked(x + y' + z') == Unticked(x + y + z)
  {
    UntickedAppend(x + y, z);
    UntickedAppend(x, y);
    UntickedAppend(x + y', z');
    UntickedAppend(x, y');
  }

  /** Lines 23 and 25 together delete backticks only: every other character of the
      text survives them, in order. */
  lemma FenceStepsKeepText(s: string)
    ensures Unticked(RemoveFences(PairFences(s))) == Unticked(s)
  {
    PairFencesKeepsText(s, 0);
    RemoveFencesKeepsText(PairFences(s), 0);
    assert s[0..] == s;
    assert PairFences(s)[0..] == PairFences(s);
  }

  /** The fence steps keep a text without backticks as it is. */
  lemma FenceStepsKeepPlain(s: string)
    requires '`' !in s
    ensures PairFences(s) == s && RemoveFences(PairFences(s)) == s
  {
    forall k | 0 <= k < |s| ensures s[k] != '`' {
      assert s[k] in s;
    }
    NoFenceBefore(s, 0, |s|);
    assert s[0..] == s;
    RemoveFencesKeepsPlain(s, 0);
  }

  /** A fenced block framed by two triples loses its fences and keeps its body, and the
      text around it is kept as it is. */
  lemma PairFencesKeepsBlock(pre: string, body: string, rest: string)
    requires '`' !in pre && '`' !in body && '`' !in rest
    ensures PairFences(pre + Fence + body + Fence + rest) == pre + body + rest
  {
    var s := pre + Fence + body + Fence + rest;
    var a := |pre|;
    var b := |pre| + 3 + |body|;
    BlockFences(pre, body, rest);
    PairFencesUnfold(s, 0, a, b);
    FencedBodyRemoved(body);
    PlainAfter(pre + Fence + body + Fence, rest);
    assert s[0..a] == pre && s[a..b + 3] == Fence + body + Fence;
  }

  /** Pairing copies a suffix without backticks. */
  lemma PlainAfter(head: string, rest: string)
    requires '`' !in rest
    ensures PairFencesFrom(head + rest, |head|) == rest
  {
    var s := head + rest;
    forall k | |head| <= k < |s| ensures s[k] != '`' {
      assert s[k] == rest[k - |head|] && rest[k - |head|] in rest;
    }
    NoFenceBefore(s, |head|, |s|);
    assert s[|head|..] == rest;
  }

  /** Where the two triples of a framed block are found. */
  lemma BlockFences(pre: string, body: string, rest: string)
    requires '`' !in pre && '`' !in body
    ensures FindFence(pre + Fence + body + Fence + rest, 0) == Some(|pre|)
    ensures FindFence(pre + Fence + body + Fence + rest, |pre| + 3) == Some(|pre| + 3 + |body|)
  {
    var s := pre + Fence + body + Fence + rest;
    PlainBefore(pre, Fence + body + Fence + rest);
    assert s == pre + (Fence + body + Fence + rest);
    assert FenceAt(s, |pre|);
    var u := pre + Fence + body;
    forall k | |pre| + 3 <= k < |u| ensures s[k] != '`' {
      assert s[k] == u[k] == body[k - |pre| - 3] && body[k - |pre| - 3] in body;
    }
    NoFenceBefore(s, |pre| + 3, |u|);
    assert FenceAt(s, |u|);
  }

  /** The search skips a prefix without backticks. */
  lemma PlainBefore(pre: string, t: string)
    requires '`' !in pre
    ensures FindFence(pre + t, 0) == FindFence(pre + t, |pre|)
  {
    var s := pre + t;
    forall k | 0 <= k < |pre| ensures s[k] != '`' {
      assert s[k] == pre[k] && pre[k] in pre;
    }
    NoFenceBefore(s, 0, |pre|);
  }

  /** Removing the fences of a framed block leaves its body. */
  lemma FencedBodyRemoved(body: string)
    requires '`' !in body
    ensures RemoveFences(Fence + body + Fence) == body
  {
    var x := Fence + body + Fence;
    assert FenceAt(x, 0) && FenceAt(x, 3 + |body|);
    forall k | 3 <= k < 3 + |body| ensures x[k] != '`' {
      assert x[k] == body[k - 3] && body[k - 3] in body;
    }
    RemoveFencesUpTo(x, 3, 3 + |body|);
    assert x[3..3 + |body|] == body;
  }

  /** One step of the pairing, for found triples at `a` and `b`. */
  lemma PairFencesUnfold(s: string, i: nat, a: nat, b: nat)
    requires i <= |s| && FindFence(s, i) == Some(a) && FindFence(s, a + 3) == Some(b)
    ensures PairFencesFrom(s, i) == s[i..a] + RemoveFences(s[a..b + 3]) + PairFencesFrom(s, b + 3)
  {
  }

  /** An opening triple without a closing one is kept, with everything around it. */
  lemma PairFencesKeepsUnclosed(pre: string, rest: string)
    requires '`' !in pre && '`' !in rest
    ensures PairFences(pre + Fence + rest) == pre + Fence + rest
  {
    var s := pre + Fence + rest;
    var a := |pre|;
    NoFenceBefore(s, 0, a);
    assert FenceAt(s, a);
    NoFenceBefore(s, a + 3, |s|);
    assert s[0..] == s;
  }

  /** `FindFence` skips a stretch in which no backtick starts a triple. */
  lemma {:induction false} NoFenceBefore(s: string, i: nat, j: nat)
    requires i <= j <= |s| && forall k :: i <= k < j ==> s[k] != '`'
    ensures FindFence(s, i) == FindFence(s, j)
    decreases j - i
  {
    if i < j {
      NoFenceBefore(s, i + 1, j);
    }
  }

  /** Before the first backtick, removal copies the text. */
  lemma {:induction false} RemoveFencesUpTo(t: string, i: nat, j: nat)
    requires i <= j <= |t| && forall k :: i <= k < j ==> t[k] != '`'
    ensures RemoveFencesFrom(t, i) == t[i..j] + RemoveFencesFrom(t, j)
    decreases j - i
  {
    if i < j {
      assert !FenceAt(t, i);
      assert RemoveFencesFrom(t, i) == [t[i]] + RemoveFencesFrom(t, i + 1);
      RemoveFencesUpTo(t, i + 1, j);
      assert t[i..j] == [t[i]] + t[i + 1..j];
    } else {
      assert t[i..j] == [];
    }
  }



  /** What replacement emits first is a backtick only when a copied backtick stands at `i`. */
  lemma ReplaceHead(ps: seq<Piece>, s: string, r: string, i: nat)
    requires Anchored(ps) && i <= |s| && r != [] && '`' !in r
    requires |ReplaceFrom(ps, s, r, i)| > 0 && ReplaceFrom(ps, s, r, i)[0] == '`'
    ensures i < |s| && s[i] == '`' && MatchAt(ps, s, i).None?
    ensures ReplaceFrom(ps, s, r, i) == [s[i]] + ReplaceFrom(ps, s, r, i + 1)
  {
    assert r[0] in r;
  }

  /** Replacement with a text free of backticks keeps a text free of three backticks in a
      row free of them. */
  lemma {:induction false} ReplaceKeepsNoFence(ps: seq<Piece>, s: string, r: string, i: nat)
    requires Anchored(ps) && i <= |s|
    requires NoFence(s) && r != [] && '`' !in r
    ensures NoFence(ReplaceFrom(ps, s, r, i))
    decreases |s| - i
  {
    if i < |s| {
      var out := ReplaceFrom(ps, s, r, i);
      match MatchAt(ps, s, i)
      case Some(e) =>
        ReplaceKeepsNoFence(ps, s, r, e);
        var t := ReplaceFrom(ps, s, r, e);
        assert out == r + t;
        forall j | 0 <= j < |out| ensures !FenceAt(out, j) {
          if j < |r| {
            assert out[j] == r[j] && r[j] in r;
          } else {
            assert !FenceAt(t, j - |r|);
          }
        }
      case None =>
        ReplaceKeepsNoFence(ps, s, r, i + 1);
        var t := ReplaceFrom(ps, s, r, i + 1);
        assert out == [s[i]] + t;
        forall j | 0 <= j < |out| ensures !FenceAt(out, j) {
          if j > 0 {
            assert !FenceAt(t, j - 1);
          } else {
            assert !FenceAt(s, i);
            CopiedTickStartsNoFence(ps, s, r, i);
          }
        }
    }
  }

  /** A copied character is never the first of three emitted backticks. */
  lemma CopiedTickStartsNoFence(ps: seq<Piece>, s: string, r: string, i: nat)
    requires Anchored(ps) && i < |s| && MatchAt(ps, s, i).None?
    requires !FenceAt(s, i) && r != [] && '`' !in r
    ensures !FenceAt([s[i]] + ReplaceFrom(ps, s, r, i + 1), 0)
  {
    var t := ReplaceFrom(ps, s, r, i + 1);
    if s[i] == '`' && |t| >= 2 && t[0] == '`' && t[1] == '`' {
      ReplaceHead(ps, s, r, i + 1);
      var u := ReplaceFrom(ps, s, r, i + 2);
      assert t == [s[i + 1]] + u;
      ReplaceHead(ps, s, r, i + 2);
    }
  }

  /** Any infix of a text free of three backticks in a row is free of them. */
  lemma InfixKeepsNoFence(s: string, a: nat, b: nat)
    requires a <= b <= |s| && NoFence(s)
    ensures NoFence(s[a..b])
  {
    forall j | 0 <= j < b - a ensures !FenceAt(s[a..b], j) {
      assert !FenceAt(s, a + j);
    }
  }

  /** Framing a text by texts without backticks keeps it free of three backticks in a row. */
  lemma FrameKeepsNoFence(pre: string, body: string, post: string)
    requires NoFence(body) && '`' !in pre && '`' !in post
    ensures NoFence(pre + body + post)
  {
    var out := pre + body + post;
    forall j | 0 <= j < |out| ensures !FenceAt(out, j) {
      if j < |pre| {
        assert out[j] == pre[j] && pre[j] in pre;
      } else if j + 2 >= |pre| + |body| {
        assert j + 2 >= |out| || (out[j + 2] == post[j + 2 - |pre| - |body|] && post[j + 2 - |pre| - |body|] in post);
      } else {
        assert !FenceAt(body, j - |pre|);
      }
    }
  }

  // ---------------------------------------------------------------------------------
  // The steps of sanitizeLatex
  // ---------------------------------------------------------------------------------

  const ByteOrderMark: char := '\U{FEFF}'

  /** `code.replace(/^﻿/, '')`: one leading byte-order mark is dropped. */
  function StripBom(s: string): (r: string)
    ensures StartsWith(s, [ByteOrderMark]) ==> s == [ByteOrderMark] + r
    ensures !StartsWith(s, [ByteOrderMark]) ==> r == s
  {
    if |s| > 0 && s[0] == ByteOrderMark then s[1..] else s
  }

  /** The last newline in `s[k..e]`. */
  function LastNewline(s: string, k: nat, e: nat): (r: Option<nat>)
    requires k <= e <= |s|
    ensures r.Some? ==> k <= r.value < e && s[r.value] == '\n'
    ensures r.Some? ==> forall m :: r.value < m < e ==> s[m] != '\n'
    ensures r.None? ==> forall m :: k <= m < e ==> s[m] != '\n'
    decreases e - k
  {
    if e == k then None else if s[e - 1] == '\n' then Some(e - 1) else LastNewline(s, k, e - 1)
  }

  /** Where `latex` or `tex` ends, when the text starts with one of them after whitespace. */
  function TagEnd(s: string): (r: Option<nat>)
    ensures r.Some? ==> r.value <= |s|
  {
    var w := SpacesEnd(s, 0);
    if LitAt(s, "latex", w) then Some(w + 5) else if LitAt(s, "tex", w) then Some(w + 3) else None
  }

  /** The end of the match of `/^(?:\s*(?:latex|tex)\s*\n)/i`: the greedy `\s*` after the
      tag gives back characters until a newline closes the match. */
  function TagLineEnd(s: string): (r: Option<nat>)
    ensures r.Some? ==> 0 < r.value <= |s|
  {
    match TagEnd(s)
    case None => None
    case Some(k) =>
      match LastNewline(s, k, SpacesEnd(s, k))
      case None => None
      case Some(n) => Some(n + 1)
  }

  /** `p` is a language tag line: optional whitespace, `latex` or `tex` in any case, then
      whitespace that ends with a newline. */
  predicate IsTagLine(p: string) {
    var w := SpacesEnd(p, 0);
    |p| > 0 && p[|p| - 1] == '\n' &&
    ((LitAt(p, "latex", w) && AllSpace(p[w + 5..])) || (LitAt(p, "tex", w) && AllSpace(p[w + 3..])))
  }

  /** `code.replace(/^(?:\s*(?:latex|tex)\s*\n)/i, '')`: a leading language tag line, left
      behind by a Markdown fence, is dropped together with every whitespace line after it. */
  function StripTag(s: string): (r: string)
    ensures |r| <= |s| && r == s[|s| - |r|..]
    ensures |r| < |s| ==> IsTagLine(s[..|s| - |r|])
    ensures |r| < |s| ==> forall m :: 0 <= m < SpacesEnd(r, 0) ==> r[m] != '\n'
  {
    match TagLineEnd(s)
    case None => s
    case Some(e) =>
      TagLineFacts(s);
      s[e..]
  }

  lemma TagLineFacts(s: string)
    requires TagLineEnd(s).Some?
    ensures IsTagLine(s[..TagLineEnd(s).value])
    ensures var r := s[TagLineEnd(s).value..]; forall m :: 0 <= m < SpacesEnd(r, 0) ==> r[m] != '\n'
  {
    TagLineIsTagLine(s);
    TagLineTakesLastNewline(s);
  }

  lemma TagLineIsTagLine(s: string)
    requires TagLineEnd(s).Some?
    ensures IsTagLine(s[..TagLineEnd(s).value])
  {
    var e := TagLineEnd(s).value;
    var k := TagEnd(s).value;
    var p := s[..e];
    var w := SpacesEnd(s, 0);
    SpacesEndPrefix(s, e, 0);
    assert SpacesEnd(p, 0) == w;
    assert forall m :: k <= m < e ==> IsJsSpace(p[m]);
    forall j | 0 <= j < |p[k..]| ensures IsJsSpace(p[k..][j]) {
      assert p[k..][j] == p[k + j];
    }
    if LitAt(s, "latex", w) {
      LitAtPrefix(s, e, "latex", w);
    } else {
      LitAtPrefix(s, e, "tex", w);
    }
  }

  lemma LitAtPrefix(s: string, e: nat, lit: string, i: nat)
    requires LitAt(s, lit, i) && i + |lit| <= e <= |s|
    ensures LitAt(s[..e], lit, i)
  {
    forall k | 0 <= k < |lit| ensures SameLetter(s[..e][i + k], lit[k]) {
      assert s[..e][i + k] == s[i + k];
    }
  }

  lemma TagLineTakesLastNewline(s: string)
    requires TagLineEnd(s).Some?
    ensures var r := s[TagLineEnd(s).value..]; forall m :: 0 <= m < SpacesEnd(r, 0) ==> r[m] != '\n'
  {
    var e := TagLineEnd(s).value;
    var k := TagEnd(s).value;
    var run := SpacesEnd(s, k);
    var r := s[e..];
    SpacesEndSuffix(s, e, run);
    forall m | 0 <= m < SpacesEnd(r, 0) ensures r[m] != '\n' {
      assert r[m] == s[e + m];
    }
  }

  /** A text that opens with a language tag line loses it: what remains is a suffix of
      the text after the tag line, and only whitespace lies between the two. */
  lemma StripTagRemovesTagLine(p: string, rest: string)
    requires IsTagLine(p)
    ensures var r := StripTag(p + rest);
      |r| <= |rest| && r == rest[|rest| - |r|..] && AllSpace(rest[..|rest| - |r|])
  {
    var s := p + rest;
    var e := TagLineReachesRest(p, rest);
    assert StripTag(s) == s[e..];
    var d := e - |p|;
    assert s[e..] == rest[d..];
    forall m | 0 <= m < d ensures IsJsSpace(rest[..d][m]) {
      assert rest[..d][m] == s[|p| + m];
    }
  }

  /** The match of the tag-line pattern on `p + rest` covers all of `p`, and what it takes
      of `rest` is whitespace. */
  lemma TagLineReachesRest(p: string, rest: string) returns (e: nat)
    requires IsTagLine(p)
    ensures TagLineEnd(p + rest) == Some(e) && |p| <= e <= |p + rest|
    ensures forall m :: |p| <= m < e ==> IsJsSpace((p + rest)[m])
  {
    var s := p + rest;
    var k := TagEndOfTagLine(p, rest);
    forall m | k <= m < |p| ensures IsJsSpace(s[m]) {
      assert s[m] == p[k..][m - k];
    }
    SpacesEndCovers(s, k, |p|);
    var run := SpacesEnd(s, k);
    assert s[|p| - 1] == '\n';
    var n := LastNewline(s, k, run).value;
    e := n + 1;
  }

  /** The tag of a tag line is found where the line has it, before the line ends. */
  lemma TagEndOfTagLine(p: string, rest: string) returns (k: nat)
    requires IsTagLine(p)
    ensures TagEnd(p + rest) == Some(k) && k < |p| && AllSpace(p[k..])
  {
    var s := p + rest;
    var w := SpacesEnd(p, 0);
    var lit := if LitAt(p, "latex", w) then "latex" else "tex";
    assert LitAt(p, lit, w) && SameLetter(p[w], lit[0]) && SameLetter(p[w + |lit| - 1], lit[|lit| - 1]);
    assert SameLetter(p[w], "latex"[0]) ==> !SameLetter(p[w], "tex"[0]);
    k := w + |lit|;
    assert AllSpace(p[k..]);
    assert s[..|p|] == p;
    SpacesEndPrefix(s, |p|, 0);
    assert SpacesEnd(s, 0) == w;
    LitAtExtend(p, rest, lit, w);
    assert s[w] == p[w];
    assert p[|p| - 1] == '\n' && !SameLetter('\n', lit[|lit| - 1]);
  }

  /** A literal in the front part is a literal in the whole. */
  lemma LitAtExtend(a: string, b: string, lit: string, i: nat)
    requires LitAt(a, lit, i)
    ensures LitAt(a + b, lit, i)
  {
    forall k | 0 <= k < |lit| ensures SameLetter((a + b)[i + k], lit[k]) {
      assert (a + b)[i + k] == a[i + k];
    }
  }

  /** A whitespace run reaches at least as far as a stretch of whitespace does. */
  lemma {:induction false} SpacesEndCovers(s: string, k: nat, e: nat)
    requires k <= e <= |s| && forall m :: k <= m < e ==> IsJsSpace(s[m])
    ensures SpacesEnd(s, k) >= e
    decreases e - k
  {
    if k < e {
      SpacesEndCovers(s, k + 1, e);
    }
  }

  /** The whitespace run in a prefix stops where it stops in the whole text, or at the cut. */
  lemma {:induction false} SpacesEndPrefix(s: string, c: nat, i: nat)
    requires i <= c <= |s|
    ensures SpacesEnd(s[..c], i) == if SpacesEnd(s, i) < c then SpacesEnd(s, i) else c
    decreases c - i
  {
    if i < c && IsJsSpace(s[i]) {
      SpacesEndPrefix(s, c, i + 1);
    }
  }

  /** Inside a whitespace run, the run of the suffix ends where the whole run ends. */
  lemma {:induction false} SpacesEndSuffix(s: string, e: nat, run: nat)
    requires e <= run <= |s| && (run == |s| || !IsJsSpace(s[run]))
    requires forall m :: e <= m < run ==> IsJsSpace(s[m])
    ensures SpacesEnd(s[e..], 0) == run - e
    decreases run - e
  {
    if e < run {
      SpacesEndSuffix(s, e + 1, run);
      SpacesEndShift(s, e, 0);
    }
  }

  lemma SpacesEndShift(s: string, e: nat, i: nat)
    requires e < |s| && i + 1 <= |s| - e && IsJsSpace(s[e + i])
    ensures SpacesEnd(s[e..], i) == SpacesEnd(s[e + 1..], i) + 1
    decreases |s| - e - i
  {
    assert s[e..][i] == s[e + i];
    if i + 1 < |s| - e && IsJsSpace(s[e + i + 1]) {
      assert s[e + 1..][i] == s[e + i + 1];
      SpacesEndShift(s, e, i + 1);
    } else {
      assert s[e..][i + 1..] == s[e + 1..][i..];
    }
  }

  /** `/\\includegraphics\s*\[[^\]]*\]\s*\{https?:[^}]+\}/gi` */
  const RemoteImageWithOptions: seq<Piece> :=
    [Lit("\\includegraphics"), Spaces, Lit("["), UpTo(']', false), Spaces,
     Lit("{http"), OptLetter('s'), Lit(":"), UpTo('}', true)]

  /** `/\\includegraphics\s*\{https?:[^}]+\}/gi` */
  const RemoteImage: seq<Piece> :=
    [Lit("\\includegraphics"), Spaces, Lit("{http"), OptLetter('s'), Lit(":"), UpTo('}', true)]

  /** `/\\(input|include)\s*\{[^}]+\}/gi` */
  const FileInclusion: seq<Piece> :=
    [Lit("\\"), AltLit("input", "include"), Spaces, Lit("{"), UpTo('}', true)]

  /** `/\\usepackage\s*(\[[^\]]*\])?\s*\{\s*inputenc\s*\}/gi` */
  const InputencPackage: seq<Piece> :=
    [Lit("\\usepackage"), Spaces, OptBracket, Spaces, Lit("{"), Spaces, Lit("inputenc"), Spaces, Lit("}")]

  /** `/\\usepackage\s*\{\s*fontspec\s*\}/gi` */
  const FontspecPackage: seq<Piece> :=
    [Lit("\\usepackage"), Spaces, Lit("{"), Spaces, Lit("fontspec"), Spaces, Lit("}")]

  /** `/\\setmainfont\s*\{[^}]+\}/gi` */
  const MainFont: seq<Piece> :=
    [Lit("\\setmainfont"), Spaces, Lit("{"), UpTo('}', true)]

  /** Running a pattern runs its first piece, then the rest from where that piece ended. */
  lemma MatchAtCons(p: Piece, ps: seq<Piece>, s: string, i: nat)
    requires i <= |s|
    ensures MatchAt([p] + ps, s, i) ==
      (match Step(p, s, i) case None => None case Some(j) => MatchAt(ps, s, j))
  {
    assert ([p] + ps)[0] == p && ([p] + ps)[1..] == ps;
  }

  /** The inclusion pattern's command part: a backslash, the command, and spaces. */
  lemma InclusionCommand(s: string, i: nat, a: nat, b: nat)
    requires i <= |s| && Step(Lit("\\"), s, i) == Some(a)
    requires Step(AltLit("input", "include"), s, a) == Some(b)
    ensures MatchAt(FileInclusion, s, i) == MatchAt([Lit("{"), UpTo('}', true)], s, SpacesEnd(s, b))
  {
    var brace := [Lit("{"), UpTo('}', true)];
    assert FileInclusion == [Lit("\\")] + ([AltLit("input", "include")] + ([Spaces] + brace));
    MatchAtCons(Lit("\\"), [AltLit("input", "include")] + ([Spaces] + brace), s, i);
    MatchAtCons(AltLit("input", "include"), [Spaces] + brace, s, a);
    MatchAtCons(Spaces, brace, s, b);
  }

  /** The pattern's tail: a brace, then a non-empty name up to the closing brace. */
  lemma InclusionBrace(s: string, c: nat)
    requires c <= |s|
    ensures MatchAt([Lit("{"), UpTo('}', true)], s, c) ==
      (if LitAt(s, "{", c) then Step(UpTo('}', true), s, c + 1) else None)
  {
    MatchAtCons(Lit("{"), [UpTo('}', true)], s, c);
    if LitAt(s, "{", c) {
      MatchAtCons(UpTo('}', true), [], s, c + 1);
      assert [UpTo('}', true)] == [UpTo('}', true)] + [];
    }
  }

  /** `input` or `include`, in any case: the commands `(input|include)` accepts under `/i`. */
  predicate InclusionCommandName(cmd: string) {
    LowerString(cmd) == "input" || LowerString(cmd) == "include"
  }

  lemma CommandsAreLowerCase()
    ensures LowerString("input") == "input" && LowerString("include") == "include"
  {
  }

  /** A piece of text that lower-cases to a lower-case literal holds that literal. */
  lemma LitAtWhenLower(t: string, j: nat, cmd: string, w: string)
    requires j + |cmd| <= |t| && t[j..j + |cmd|] == cmd
    requires LowerString(cmd) == w && LowerString(w) == w
    ensures LitAt(t, w, j)
  {
    forall k | 0 <= k < |w| ensures SameLetter(t[j + k], w[k]) {
      assert t[j + k] == cmd[k];
    }
  }

  /** `(input|include)` takes exactly the command. */
  lemma CommandStep(cmd: string, t: string, j: nat)
    requires InclusionCommandName(cmd)
    requires j + |cmd| <= |t| && t[j..j + |cmd|] == cmd
    ensures Step(AltLit("input", "include"), t, j) == Some(j + |cmd|)
  {
    CommandsAreLowerCase();
    if LowerString(cmd) == "input" {
      LitAtWhenLower(t, j, cmd, "input");
      assert |cmd| == |LowerString(cmd)| == 5;
      AltTakesInput(t, j);
    } else {
      LitAtWhenLower(t, j, cmd, "include");
      assert |cmd| == |LowerString(cmd)| == 7;
      AltTakesInclude(t, j);
    }
  }

  lemma AltTakesInput(t: string, j: nat)
    requires LitAt(t, "input", j)
    ensures Step(AltLit("input", "include"), t, j) == Some(j + 5)
  {
  }

  /** `include` is not `input` in any case: the third letters differ. */
  lemma AltTakesInclude(t: string, j: nat)
    requires LitAt(t, "include", j)
    ensures Step(AltLit("input", "include"), t, j) == Some(j + 7)
  {
    assert SameLetter(t[j + 2], "include"[2]);
    assert !SameLetter(t[j + 2], "input"[2]);
  }

  /** A whitespace run that is followed by something else ends there. */
  lemma SpacesEndAt(t: string, b: nat, c: nat)
    requires b <= c < |t| && (forall m :: b <= m < c ==> IsJsSpace(t[m])) && !IsJsSpace(t[c])
    ensures SpacesEnd(t, b) == c
  {
    SpacesEndCovers(t, b, c);
  }

  /** At index `i`, a backslash, an inclusion command and a run of whitespace ending at
      `c`, where something other than whitespace stands: the match is decided there. */
  lemma InclusionHead(cmd: string, t: string, i: nat, c: nat)
    requires InclusionCommandName(cmd)
    requires i + 1 + |cmd| <= c < |t| && t[i] == '\\' && t[i + 1..i + 1 + |cmd|] == cmd
    requires (forall m :: i + 1 + |cmd| <= m < c ==> IsJsSpace(t[m])) && !IsJsSpace(t[c])
    ensures MatchAt(FileInclusion, t, i) == MatchAt([Lit("{"), UpTo('}', true)], t, c)
  {
    var b := i + 1 + |cmd|;
    assert LitAt(t, "\\", i);
    assert Step(Lit("\\"), t, i) == Some(i + 1);
    CommandStep(cmd, t, i + 1);
    SpacesEndAt(t, b, c);
    InclusionCommand(t, i, i + 1, b);
  }

  /** At index `i` a backslash, an inclusion command, whitespace up to `c`, a brace, a
      non-empty run without `}` and a `}` at `e`: the pattern matches up to `e`. */
  lemma InclusionMatchesLaidOut(cmd: string, t: string, i: nat, c: nat, e: nat)
    requires InclusionCommandName(cmd)
    requires i + 1 + |cmd| <= c && c + 1 < e < |t|
    requires t[i] == '\\' && t[i + 1..i + 1 + |cmd|] == cmd
    requires forall k :: i + 1 + |cmd| <= k < c ==> IsJsSpace(t[k])
    requires t[c] == '{' && t[e] == '}' && forall k :: c + 1 <= k < e ==> t[k] != '}'
    ensures MatchAt(FileInclusion, t, i) == Some(e + 1)
  {
    assert !IsJsSpace(t[c]);
    InclusionHead(cmd, t, i, c);
    BracedName(t, c, e);
  }

  /** `\{[^}]+\}` at `c` over a non-empty run without `}` ends after the closing brace. */
  lemma BracedName(t: string, c: nat, e: nat)
    requires c + 1 < e < |t| && t[c] == '{' && t[e] == '}'
    requires forall k :: c + 1 <= k < e ==> t[k] != '}'
    ensures MatchAt([Lit("{"), UpTo('}', true)], t, c) == Some(e + 1)
  {
    InclusionBrace(t, c);
    assert SameLetter(t[c], "{"[0]);
    FindCharAt(t, '}', c + 1, e);
  }

  /** `\{[^}]+\}` does not match an empty pair of braces. */
  lemma EmptyBraces(t: string, c: nat)
    requires c + 1 < |t| && t[c] == '{' && t[c + 1] == '}'
    ensures MatchAt([Lit("{"), UpTo('}', true)], t, c).None?
  {
    InclusionBrace(t, c);
    assert SameLetter(t[c], "{"[0]);
    FindCharAt(t, '}', c + 1, c + 1);
  }

  /** `\{[^}]+\}` needs a brace at `c`. */
  lemma NoOpeningBrace(t: string, c: nat)
    requires c < |t| && t[c] != '{'
    ensures MatchAt([Lit("{"), UpTo('}', true)], t, c).None?
  {
    InclusionBrace(t, c);
    assert !SameLetter(t[c], "{"[0]);
  }

  /** The inclusion pattern matches wherever the text holds a backslash, either command
      in any case, whitespace, and a non-empty file name in braces; the match ends just
      after the closing brace at `e`. */
  lemma InclusionMatchesAt(cmd: string, sp: string, name: string, t: string, i: nat, c: nat, e: nat)
    requires InclusionCommandName(cmd) && AllSpace(sp) && |name| > 0 && '}' !in name
    requires c == i + 1 + |cmd| + |sp| && e == c + 1 + |name| && e < |t| && t[i] == '\\'
    requires t[i + 1..i + 1 + |cmd|] == cmd && t[i + 1 + |cmd|..c] == sp
    requires t[c] == '{' && t[c + 1..e] == name && t[e] == '}'
    ensures MatchAt(FileInclusion, t, i) == Some(e + 1)
  {
    assert forall k :: i + 1 + |cmd| <= k < c ==> t[k] == sp[k - i - 1 - |cmd|];
    assert forall k :: c + 1 <= k < e ==> t[k] == name[k - c - 1];
    InclusionMatchesLaidOut(cmd, t, i, c, e);
  }

  /** `FindChar` stops at the first occurrence. */
  lemma FindCharAt(t: string, ch: char, a: nat, e: nat)
    requires a <= e < |t| && t[e] == ch && forall k :: a <= k < e ==> t[k] != ch
    ensures FindChar(t, ch, a) == Some(e)
  {
  }

  /** The inclusion pattern does not match an empty pair of braces after either command. */
  lemma InclusionNeedsName(cmd: string, sp: string, t: string, i: nat, c: nat)
    requires InclusionCommandName(cmd) && AllSpace(sp)
    requires c == i + 1 + |cmd| + |sp| && c + 1 < |t| && t[i] == '\\'
    requires t[i + 1..i + 1 + |cmd|] == cmd && t[i + 1 + |cmd|..c] == sp
    requires t[c] == '{' && t[c + 1] == '}'
    ensures MatchAt(FileInclusion, t, i).None?
  {
    assert forall k :: i + 1 + |cmd| <= k < c ==> t[k] == sp[k - i - 1 - |cmd|];
    InclusionHead(cmd, t, i, c);
    EmptyBraces(t, c);
  }

  /** It does not match when the command and its whitespace are followed by anything but
      a brace, as in `\inputenc` or `\includegraphics`. */
  lemma InclusionNeedsBrace(cmd: string, sp: string, t: string, i: nat, c: nat)
    requires InclusionCommandName(cmd) && AllSpace(sp)
    requires c == i + 1 + |cmd| + |sp| && c < |t| && t[i] == '\\'
    requires t[i + 1..i + 1 + |cmd|] == cmd && t[i + 1 + |cmd|..c] == sp
    requires t[c] != '{' && !IsJsSpace(t[c])
    ensures MatchAt(FileInclusion, t, i).None?
  {
    assert forall k :: i + 1 + |cmd| <= k < c ==> t[k] == sp[k - i - 1 - |cmd|];
    InclusionHead(cmd, t, i, c);
    NoOpeningBrace(t, c);
  }

  /** A pattern led by a backslash copies a stretch without backslashes unchanged. */
  lemma {:induction false} CopiesBackslashFree(ps: seq<Piece>, s: string, r: string, i: nat, j: nat)
    requires Anchored(ps) && ps[0].w[0] == '\\' && i <= j <= |s|
    requires forall k :: i <= k < j ==> s[k] != '\\'
    ensures ReplaceFrom(ps, s, r, i) == s[i..j] + ReplaceFrom(ps, s, r, j)
    decreases j - i
  {
    if i == j {
      assert s[i..j] == [];
    } else {
      CopiesOne(ps, s, r, i);
      CopiesBackslashFree(ps, s, r, i + 1, j);
      assert s[i..j] == [s[i]] + s[i + 1..j];
      ConcatAssoc([s[i]], s[i + 1..j], ReplaceFrom(ps, s, r, j));
    }
  }

  /** A character other than the backslash that leads the pattern is copied. */
  lemma CopiesOne(ps: seq<Piece>, s: string, r: string, i: nat)
    requires Anchored(ps) && ps[0].w[0] == '\\' && i < |s| && s[i] != '\\'
    ensures ReplaceFrom(ps, s, r, i) == [s[i]] + ReplaceFrom(ps, s, r, i + 1)
  {
    assert !SameLetter(s[i], ps[0].w[0]);
    assert Step(ps[0], s, i).None?;
  }

  /** A text that opens with an inclusion and has no backslash after it comes out as the
      replacement followed by the rest of the text unchanged. */
  lemma InclusionReplaced(cmd: string, sp: string, name: string, t: string, c: nat, e: nat, r: string)
    requires InclusionCommandName(cmd) && AllSpace(sp) && |name| > 0 && '}' !in name
    requires c == 1 + |cmd| + |sp| && e == c + 1 + |name| && e < |t| && t[0] == '\\'
    requires t[1..1 + |cmd|] == cmd && t[1 + |cmd|..c] == sp
    requires t[c] == '{' && t[c + 1..e] == name && t[e] == '}'
    requires '\\' !in t[e + 1..]
    ensures ReplaceAll(FileInclusion, t, r) == r + t[e + 1..]
  {
    assert MatchAt(FileInclusion, t, 0) == Some(e + 1) by {
      InclusionMatchesAt(cmd, sp, name, t, 0, c, e);
    }
    InclusionLedByBackslash();
    ReplacedThenCopied(FileInclusion, t, r, e + 1);
  }

  lemma InclusionLedByBackslash()
    ensures Anchored(FileInclusion) && FileInclusion[0].w[0] == '\\'
  {
  }

  /** A match at the start followed by a stretch without backslashes, for a pattern led
      by a backslash: the replacement, then that stretch unchanged. */
  lemma ReplacedThenCopied(ps: seq<Piece>, s: string, r: string, e: nat)
    requires Anchored(ps) && ps[0].w[0] == '\\' && 0 < e <= |s|
    requires MatchAt(ps, s, 0) == Some(e) && '\\' !in s[e..]
    ensures ReplaceAll(ps, s, r) == r + s[e..]
  {
    assert forall k :: e <= k < |s| ==> s[k] == s[e..][k - e];
    CopiesBackslashFree(ps, s, r, e, |s|);
    assert s[e..|s|] == s[e..];
  }

  const ImageRemoved: string := "% external image removed"
  const InclusionRemoved: string := "% include/input removed"
  const InputencRemoved: string := "% inputenc removed for XeLaTeX/LuaLaTeX"
  const FontspecRemoved: string := "% fontspec removed for pdfLaTeX"
  const MainFontRemoved: string := "% setmainfont removed for pdfLaTeX"

  /** Remote images, with or without options, and `\input`/`\include` become comments. */
  function NeutralizeDirectives(s: string): string {
    ReplaceAll(FileInclusion,
      ReplaceAll(RemoteImage,
        ReplaceAll(RemoteImageWithOptions, s, ImageRemoved), ImageRemoved), InclusionRemoved)
  }

  /** `(engine || 'pdflatex').toLowerCase()`, with `engine` defaulting to `'pdflatex'`. */
  function EngineName(engine: Option<string>): string {
    LowerString(if engine.None? || engine.value == "" then "pdflatex" else engine.value)
  }

  /** XeLaTeX and LuaLaTeX select fonts natively. */
  predicate NativeFonts(eng: string) {
    eng == "xelatex" || eng == "lualatex"
  }

  /** The engine-specific package cleanup: `inputenc` goes under a native-font engine,
      `fontspec` and `\setmainfont` under any other. */
  function ReconcilePackages(s: string, native: bool): string {
    if native then ReplaceAll(InputencPackage, s, InputencRemoved)
    else ReplaceAll(MainFont, ReplaceAll(FontspecPackage, s, FontspecRemoved), MainFontRemoved)
  }

  /** `raw || ''` for a string argument that may be absent. */
  function OrEmpty(raw: Option<string>): string {
    if raw.None? then "" else raw.value
  }

  /** Everything `sanitizeLatex` does before the envelope: the trimmed, cleaned text. */
  function Cleaned(raw: Option<string>, engine: Option<string>): string {
    var unfenced := RemoveFences(PairFences(StripBom(OrEmpty(raw))));
    Trim(ReconcilePackages(NeutralizeDirectives(StripTag(unfenced)), NativeFonts(EngineName(engine))))
  }

  // ---------------------------------------------------------------------------------
  // The envelope
  // ---------------------------------------------------------------------------------

  const DocumentClass: string := "\\documentclass"

  /** The text after the body: an ordinary template literal, so `\\end` is one backslash. */
  const DocumentEnd: string := "\n\n\\end{document}"

  /** The preamble added before a body without `\documentclass`, with the single
      backslashes LaTeX needs: the class line, a font line chosen by the engine, and the
      lines every engine shares. */
  function Envelope(native: bool): string {
    ClassLine + EngineLine(native) + SharedPreamble
  }

  const ClassLine: string := "\\documentclass{article}\n"

  /** `fontspec` for a native-font engine, `inputenc` for any other. */
  function EngineLine(native: bool): string {
    if native then "\\usepackage{fontspec}\n" else "\\usepackage[utf8]{inputenc}\n"
  }

  const SharedPreamble: string := PackageLines + TitleLines

  const PackageLines: string :=
    "\\usepackage{amsmath}\n" +
    "\\usepackage{graphicx}\n" +
    "\\usepackage{geometry}\n" +
    "\\geometry{a4paper, margin=1in}\n" +
    "\\usepackage{hyperref}\n"

  const TitleLines: string :=
    "\\title{Wordara AI Document}\n" +
    "\\author{Wordara AI}\n" +
    "\\date{\\today}\n" +
    "\\begin{document}\n" +
    "\\maketitle\n" +
    "\n"

  /** The preamble exactly as the page writes it: a `String.raw` template, in which every
      `\\` stays two backslashes. */
  function EnvelopeAsWritten(native: bool): string {
    ClassLineAsWritten + EngineLineAsWritten(native) + SharedPreambleAsWritten
  }

  const ClassLineAsWritten: string := "\\\\documentclass{article}\n"

  function EngineLineAsWritten(native: bool): string {
    if native then "\\\\usepackage{fontspec}\n" else "\\\\usepackage[utf8]{inputenc}\n"
  }

  const SharedPreambleAsWritten: string := PackageLinesAsWritten + TitleLinesAsWritten

  const PackageLinesAsWritten: string :=
    "\\\\usepackage{amsmath}\n" +
    "\\\\usepackage{graphicx}\n" +
    "\\\\usepackage{geometry}\n" +
    "\\\\geometry{a4paper, margin=1in}\n" +
    "\\\\usepackage{hyperref}\n"

  const TitleLinesAsWritten: string :=
    "\\\\title{Wordara AI Document}\n" +
    "\\\\author{Wordara AI}\n" +
    "\\\\date{\\\\today}\n" +
    "\\\\begin{document}\n" +
    "\\\\maketitle\n" +
    "\n"

  /** The last step: a text without `\documentclass` is framed by the envelope. */
  function Wrap(code: string, native: bool): string {
    if Contains(code, DocumentClass) then code else Envelope(native) + code + DocumentEnd
  }

  function WrapAsWritten(code: string, native: bool): string {
    if Contains(code, DocumentClass) then code else EnvelopeAsWritten(native) + code + DocumentEnd
  }

  /** `sanitizeLatex(raw, engine)` with the envelope's backslashes corrected. */
  function SanitizeLatex(raw: Option<string>, engine: Option<string>): string {
    Wrap(Cleaned(raw, engine), NativeFonts(EngineName(engine)))
  }

  /** `sanitizeLatex(raw, engine)` as the page writes it. */
  function SanitizeLatexAsWritten(raw: Option<string>, engine: Option<string>): string {
    WrapAsWritten(Cleaned(raw, engine), NativeFonts(EngineName(engine)))
  }

  // ---------------------------------------------------------------------------------
  // Properties of the whole sanitiser
  // ---------------------------------------------------------------------------------

  /** Fence removal only deletes characters. */
  lemma {:induction false} RemoveFencesKeepsOut(s: string, i: nat, c: char)
    requires i <= |s| && c !in s
    ensures c !in RemoveFencesFrom(s, i)
    decreases |s| - i
  {
    if i < |s| {
      assert s[i] in s;
      if FenceAt(s, i) {
        RemoveFencesKeepsOut(s, i + 3, c);
      } else {
        RemoveFencesKeepsOut(s, i + 1, c);
      }
    }
  }

  /** Fence pairing only deletes characters. */
  lemma {:induction false} PairFencesKeepsOut(s: string, i: nat, c: char)
    requires i <= |s| && c !in s
    ensures c !in PairFencesFrom(s, i)
    decreases |s| - i
  {
    if FindFence(s, i).Some? && FindFence(s, FindFence(s, i).value + 3).Some? {
      var a, b := FindFence(s, i).value, FindFence(s, FindFence(s, i).value + 3).value;
      PairFencesKeepsOut(s, b + 3, c);
      BlockKeepsOut(s, i, a, b, c, PairFencesFrom(s, b + 3));
      PairFencesBlock(s, i, a, b);
    } else {
      OutOfSlice(s, i, |s|, c);
      PairFencesRest(s, i);
    }
  }

  lemma PairFencesBlock(s: string, i: nat, a: nat, b: nat)
    requires i <= |s| && FindFence(s, i) == Some(a) && FindFence(s, a + 3) == Some(b)
    ensures PairFencesFrom(s, i) == s[i..a] + RemoveFences(s[a..b + 3]) + PairFencesFrom(s, b + 3)
  {
  }

  lemma PairFencesRest(s: string, i: nat)
    requires i <= |s|
    requires FindFence(s, i).None? || FindFence(s, FindFence(s, i).value + 3).None?
    ensures PairFencesFrom(s, i) == s[i..]
  {
  }

  lemma BlockKeepsOut(s: string, i: nat, a: nat, b: nat, c: char, rest: string)
    requires i <= a && a + 3 <= b + 3 <= |s| && c !in s && c !in rest
    ensures c !in s[i..a] + RemoveFences(s[a..b + 3]) + rest
  {
    OutOfSlice(s, a, b + 3, c);
    RemoveFencesKeepsOut(s[a..b + 3], 0, c);
    OutOfSlice(s, i, a, c);
  }

  /** A character absent from a text is absent from every slice of it. */
  lemma OutOfSlice(s: string, j: nat, k: nat, c: char)
    requires j <= k <= |s| && c !in s
    ensures c !in s[j..k]
  {
    forall m | j <= m < k ensures s[m] != c {
      assert s[m] in s;
    }
  }

  /** The three-backtick run removal always leaves a text without one. */
  lemma PairedThenRemovedHasNoFence(s: string)
    ensures NoFence(RemoveFences(PairFences(s)))
  {
    RemoveFencesLeavesNoFence(PairFences(s), 0);
  }

  /** A character that is neither in the input nor in any of the replacement comments
      is not in the cleaned text. */
  lemma CleanedKeepsOut(raw: Option<string>, engine: Option<string>, c: char)
    requires c !in OrEmpty(raw)
    requires c !in ImageRemoved && c !in InclusionRemoved && c !in InputencRemoved
    requires c !in FontspecRemoved && c !in MainFontRemoved
    ensures c !in Cleaned(raw, engine)
  {
    var s1 := RemoveFences(PairFences(StripBom(OrEmpty(raw))));
    UnfencedKeepsOut(raw, c);
    var s2 := StripTag(s1);
    OutOfSlice(s1, |s1| - |s2|, |s1|, c);
    DirectivesKeepOut(s2, c);
    var s3 := ReconcilePackages(NeutralizeDirectives(s2), NativeFonts(EngineName(engine)));
    PackagesKeepOut(NeutralizeDirectives(s2), NativeFonts(EngineName(engine)), c);
    var r := Trim(s3);
    OutOfSlice(s3, LeadingSpaces(s3), LeadingSpaces(s3) + |r|, c);
  }

  lemma UnfencedKeepsOut(raw: Option<string>, c: char)
    requires c !in OrEmpty(raw)
    ensures c !in RemoveFences(PairFences(StripBom(OrEmpty(raw))))
  {
    var s0 := StripBom(OrEmpty(raw));
    assert c !in s0 by {
      if StartsWith(OrEmpty(raw), [ByteOrderMark]) {
        assert OrEmpty(raw) == [ByteOrderMark] + s0;
      }
    }
    PairFencesKeepsOut(s0, 0, c);
    RemoveFencesKeepsOut(PairFences(s0), 0, c);
  }

  lemma DirectivesKeepOut(s: string, c: char)
    requires c !in s && c !in ImageRemoved && c !in InclusionRemoved
    ensures c !in NeutralizeDirectives(s)
  {
    ReplaceKeepsOut(RemoteImageWithOptions, s, ImageRemoved, 0, c);
    var s4 := ReplaceAll(RemoteImageWithOptions, s, ImageRemoved);
    ReplaceKeepsOut(RemoteImage, s4, ImageRemoved, 0, c);
    ReplaceKeepsOut(FileInclusion, ReplaceAll(RemoteImage, s4, ImageRemoved), InclusionRemoved, 0, c);
  }

  lemma PackagesKeepOut(s: string, native: bool, c: char)
    requires c !in s && c !in InputencRemoved && c !in FontspecRemoved && c !in MainFontRemoved
    ensures c !in ReconcilePackages(s, native)
  {
    if native {
      ReplaceKeepsOut(InputencPackage, s, InputencRemoved, 0, c);
    } else {
      ReplaceKeepsOut(FontspecPackage, s, FontspecRemoved, 0, c);
      ReplaceKeepsOut(MainFont, ReplaceAll(FontspecPackage, s, FontspecRemoved), MainFontRemoved, 0, c);
    }
  }

  /** A replacement comment that is non-empty and holds neither a backtick nor a
      backslash. */
  predicate Inert(m: string) {
    m != [] && forall i :: 0 <= i < |m| ==> m[i] != '`' && m[i] != '\\'
  }

  lemma InertHasNoFenceOrCommand(m: string)
    requires Inert(m)
    ensures m != [] && '`' !in m && '\\' !in m
  {
  }

  /** Messages are non-empty and hold no backtick and no backslash. */
  lemma CommentsAreInert()
    ensures ImageRemoved != [] && '`' !in ImageRemoved && '\\' !in ImageRemoved
    ensures InclusionRemoved != [] && '`' !in InclusionRemoved && '\\' !in InclusionRemoved
    ensures InputencRemoved != [] && '`' !in InputencRemoved && '\\' !in InputencRemoved
    ensures FontspecRemoved != [] && '`' !in FontspecRemoved && '\\' !in FontspecRemoved
    ensures MainFontRemoved != [] && '`' !in MainFontRemoved && '\\' !in MainFontRemoved
  {
    ImageRemovedIsInert();
    InertHasNoFenceOrCommand(ImageRemoved);
    InclusionRemovedIsInert();
    InertHasNoFenceOrCommand(InclusionRemoved);
    InputencRemovedIsInert();
    InertHasNoFenceOrCommand(InputencRemoved);
    FontspecRemovedIsInert();
    InertHasNoFenceOrCommand(FontspecRemoved);
    MainFontRemovedIsInert();
    InertHasNoFenceOrCommand(MainFontRemoved);
  }

  lemma ImageRemovedIsInert()
    ensures Inert(ImageRemoved)
  {
  }

  lemma InclusionRemovedIsInert()
    ensures Inert(InclusionRemoved)
  {
  }

  lemma InputencRemovedIsInert()
    ensures Inert(InputencRemoved)
  {
  }

  lemma FontspecRemovedIsInert()
    ensures Inert(FontspecRemoved)
  {
  }

  lemma MainFontRemovedIsInert()
    ensures Inert(MainFontRemoved)
  {
  }

  lemma DirectivesKeepNoFence(s: string)
    requires NoFence(s)
    ensures NoFence(NeutralizeDirectives(s))
  {
    CommentsAreInert();
    ReplaceKeepsNoFence(RemoteImageWithOptions, s, ImageRemoved, 0);
    var s4 := ReplaceAll(RemoteImageWithOptions, s, ImageRemoved);
    ReplaceKeepsNoFence(RemoteImage, s4, ImageRemoved, 0);
    var s5 := ReplaceAll(RemoteImage, s4, ImageRemoved);
    ReplaceKeepsNoFence(FileInclusion, s5, InclusionRemoved, 0);
  }

  lemma PackagesKeepNoFence(s: string, native: bool)
    requires NoFence(s)
    ensures NoFence(ReconcilePackages(s, native))
  {
    CommentsAreInert();
    if native {
      ReplaceKeepsNoFence(InputencPackage, s, InputencRemoved, 0);
    } else {
      ReplaceKeepsNoFence(FontspecPackage, s, FontspecRemoved, 0);
      ReplaceKeepsNoFence(MainFont, ReplaceAll(FontspecPackage, s, FontspecRemoved), MainFontRemoved, 0);
    }
  }

  lemma StripTagKeepsNoFence(s: string)
    requires NoFence(s)
    ensures NoFence(StripTag(s))
  {
    var r := StripTag(s);
    InfixKeepsNoFence(s, |s| - |r|, |s|);
    assert s[|s| - |r|..|s|] == r;
  }

  lemma TrimKeepsNoFence(s: string)
    requires NoFence(s)
    ensures NoFence(Trim(s))
  {
    var a := LeadingSpaces(s);
    InfixKeepsNoFence(s, a, a + |Trim(s)|);
  }

  /** The cleaned text contains no run of three backticks. */
  lemma CleanedHasNoFence(raw: Option<string>, engine: Option<string>)
    ensures NoFence(Cleaned(raw, engine))
  {
    var s0 := StripBom(OrEmpty(raw));
    PairedThenRemovedHasNoFence(s0);
    var s1 := RemoveFences(PairFences(s0));
    StripTagKeepsNoFence(s1);
    DirectivesKeepNoFence(StripTag(s1));
    var s2 := NeutralizeDirectives(StripTag(s1));
    PackagesKeepNoFence(s2, NativeFonts(EngineName(engine)));
    TrimKeepsNoFence(ReconcilePackages(s2, NativeFonts(EngineName(engine))));
  }

  lemma SharedPreambleHasNoBacktick()
    ensures '`' !in SharedPreamble
  {
    PackageLinesHaveNoBacktick();
    TitleLinesHaveNoBacktick();
    assert forall i :: 0 <= i < |SharedPreamble| ==> SharedPreamble[i] != '`' by {
      forall i | 0 <= i < |SharedPreamble| ensures SharedPreamble[i] != '`' {
        if i < |PackageLines| {
          assert SharedPreamble[i] == PackageLines[i];
        } else {
          assert SharedPreamble[i] == TitleLines[i - |PackageLines|];
        }
      }
    }
  }

  predicate NoBacktick(m: string) {
    forall i :: 0 <= i < |m| ==> m[i] != '`'
  }

  lemma PackageLinesHaveNoBacktick()
    ensures NoBacktick(PackageLines)
  {
    assert NoBacktick("\\usepackage{amsmath}\n");
    assert NoBacktick("\\usepackage{graphicx}\n");
    NoBacktickConcat("\\usepackage{amsmath}\n", "\\usepackage{graphicx}\n");
    var a := "\\usepackage{amsmath}\n" + "\\usepackage{graphicx}\n";
    assert NoBacktick("\\usepackage{geometry}\n");
    NoBacktickConcat(a, "\\usepackage{geometry}\n");
    var b := a + "\\usepackage{geometry}\n";
    assert NoBacktick("\\geometry{a4paper, margin=1in}\n");
    NoBacktickConcat(b, "\\geometry{a4paper, margin=1in}\n");
    var c := b + "\\geometry{a4paper, margin=1in}\n";
    assert NoBacktick("\\usepackage{hyperref}\n");
    NoBacktickConcat(c, "\\usepackage{hyperref}\n");
  }

  lemma NoBacktickConcat(a: string, b: string)
    requires NoBacktick(a) && NoBacktick(b)
    ensures NoBacktick(a + b)
  {
    forall i | 0 <= i < |a + b| ensures (a + b)[i] != '`' {
      if i < |a| {
        assert (a + b)[i] == a[i];
      } else {
        assert (a + b)[i] == b[i - |a|];
      }
    }
  }

  lemma TitleLinesHaveNoBacktick()
    ensures NoBacktick(TitleLines)
  {
  }

  lemma EnvelopeHasNoBacktick(native: bool)
    ensures '`' !in Envelope(native) && '`' !in DocumentEnd
  {
    SharedPreambleHasNoBacktick();
    assert '`' !in ClassLine && '`' !in EngineLine(native);
  }

  /** The sanitiser's result never contains three backticks in a row. */
  lemma SanitizedHasNoFence(raw: Option<string>, engine: Option<string>)
    ensures !Contains(SanitizeLatex(raw, engine), Fence)
    ensures !Contains(SanitizeLatexAsWritten(raw, engine), Fence)
  {
    var c := Cleaned(raw, engine);
    var native := NativeFonts(EngineName(engine));
    CleanedHasNoFence(raw, engine);
    if !Contains(c, DocumentClass) {
      EnvelopeHasNoBacktick(native);
      FrameKeepsNoFence(Envelope(native), c, DocumentEnd);
      EnvelopeAsWrittenHasNoBacktick(native);
      FrameKeepsNoFence(EnvelopeAsWritten(native), c, DocumentEnd);
    }
    NoFenceIsNotContains(SanitizeLatex(raw, engine));
    NoFenceIsNotContains(SanitizeLatexAsWritten(raw, engine));
  }

  lemma EnvelopeAsWrittenHasNoBacktick(native: bool)
    ensures '`' !in EnvelopeAsWritten(native)
  {
    SharedPreambleAsWrittenHasNoBacktick();
    assert '`' !in ClassLineAsWritten && '`' !in EngineLineAsWritten(native);
  }

  lemma SharedPreambleAsWrittenHasNoBacktick()
    ensures '`' !in SharedPreambleAsWritten
  {
    PackageLinesAsWrittenHaveNoBacktick();
    TitleLinesAsWrittenHaveNoBacktick();
  }

  lemma PackageLinesAsWrittenHaveNoBacktick()
    ensures NoBacktick(PackageLinesAsWritten)
  {
    assert NoBacktick("\\\\usepackage{amsmath}\n");
    assert NoBacktick("\\\\usepackage{graphicx}\n");
    NoBacktickConcat("\\\\usepackage{amsmath}\n", "\\\\usepackage{graphicx}\n");
    var a := "\\\\usepackage{amsmath}\n" + "\\\\usepackage{graphicx}\n";
    assert NoBacktick("\\\\usepackage{geometry}\n");
    NoBacktickConcat(a, "\\\\usepackage{geometry}\n");
    var b := a + "\\\\usepackage{geometry}\n";
    assert NoBacktick("\\\\geometry{a4paper, margin=1in}\n");
    NoBacktickConcat(b, "\\\\geometry{a4paper, margin=1in}\n");
    var c := b + "\\\\geometry{a4paper, margin=1in}\n";
    assert NoBacktick("\\\\usepackage{hyperref}\n");
    NoBacktickConcat(c, "\\\\usepackage{hyperref}\n");
  }

  lemma TitleLinesAsWrittenHaveNoBacktick()
    ensures NoBacktick(TitleLinesAsWritten)
  {
  }

  /** The envelope begins with `\documentclass{article}`. */
  lemma EnvelopeOpensDocument(native: bool)
    ensures StartsWith(Envelope(native), "\\documentclass{article}")
  {
  }

  lemma EnvelopeHasDocumentClass(native: bool)
    ensures OccursAt(Envelope(native), DocumentClass, 0)
  {
    assert StartsWith(Envelope(native), DocumentClass);
  }

  /** A prefix of the front part is a prefix of the whole. */
  lemma StartsWithFront(a: string, b: string, p: string)
    requires StartsWith(a, p)
    ensures StartsWith(a + b, p)
  {
    assert (a + b)[..|p|] == a[..|p|];
  }

  /** The three parts of a framed text can be read back from it. */
  lemma FrameParts(pre: string, body: string, post: string)
    ensures var out := pre + body + post;
      StartsWith(out, pre) && out[|pre|..|out| - |post|] == body && out[|out| - |post|..] == post
  {
    var out := pre + body + post;
    assert out[..|pre|] == pre;
    assert out[|pre|..|out| - |post|] == body;
    assert out[|out| - |post|..] == post;
  }

  lemma OccursInFrame(pre: string, body: string, post: string, pat: string)
    requires OccursAt(pre, pat, 0)
    ensures Contains(pre + body + post, pat)
  {
    assert (pre + body + post)[0..|pat|] == pre[0..|pat|];
    assert OccursAt(pre + body + post, pat, 0);
  }

  /** The sanitiser's result always contains `\documentclass`. */
  lemma SanitizedHasDocumentClass(raw: Option<string>, engine: Option<string>)
    ensures Contains(SanitizeLatex(raw, engine), DocumentClass)
    ensures Contains(SanitizeLatexAsWritten(raw, engine), DocumentClass)
  {
    var c := Cleaned(raw, engine);
    var native := NativeFonts(EngineName(engine));
    WrapHasDocumentClass(c, native);
  }

  lemma WrapHasDocumentClass(c: string, native: bool)
    ensures Contains(Wrap(c, native), DocumentClass)
    ensures Contains(WrapAsWritten(c, native), DocumentClass)
  {
    if !Contains(c, DocumentClass) {
      EnvelopeHasDocumentClass(native);
      OccursInFrame(Envelope(native), c, DocumentEnd, DocumentClass);
      EnvelopeAsWrittenHasDocumentClass(native);
      ContainsInPrefix(EnvelopeAsWritten(native), c + DocumentEnd, DocumentClass, 1);
      assert EnvelopeAsWritten(native) + c + DocumentEnd == EnvelopeAsWritten(native) + (c + DocumentEnd);
    }
  }

  /** The doubled backslashes still hold `\documentclass` from index 1. */
  lemma EnvelopeAsWrittenHasDocumentClass(native: bool)
    ensures OccursAt(EnvelopeAsWritten(native), DocumentClass, 1)
  {
    assert ClassLineAsWritten == "\\" + DocumentClass + "{article}\n";
    OccursBetween("\\", DocumentClass, "{article}\n");
    OccursInFront(ClassLineAsWritten, EngineLineAsWritten(native), SharedPreambleAsWritten, DocumentClass, 1);
  }

  /** An occurrence in the first of three parts is an occurrence in the whole. */
  lemma OccursInFront(a: string, b: string, c: string, pat: string, i: nat)
    requires OccursAt(a, pat, i)
    ensures OccursAt(a + b + c, pat, i)
  {
    assert (a + b + c)[i..i + |pat|] == a[i..i + |pat|];
  }

  lemma OccursBetween(a: string, b: string, c: string)
    ensures OccursAt(a + b + c, b, |a|)
  {
    assert (a + b + c)[|a|..|a| + |b|] == b;
  }

  /** The envelope is never empty. */
  lemma EnvelopeNonEmpty(native: bool)
    ensures |Envelope(native)| > 0
  {
    assert |ClassLine| > 0;
  }

  /** Wrapping happens exactly when the text lacks `\documentclass`: then the result is
      the envelope, the text verbatim and the tail, so it ends with `\end{document}`;
      otherwise it is the text itself. */
  lemma WrapsIffMissing(c: string, native: bool)
    ensures Wrap(c, native) != c <==> !Contains(c, DocumentClass)
    ensures !Contains(c, DocumentClass) ==>
      var out := Wrap(c, native);
      StartsWith(out, Envelope(native)) &&
      out[|Envelope(native)|..|out| - |DocumentEnd|] == c &&
      out[|out| - |DocumentEnd|..] == DocumentEnd
    ensures WrapAsWritten(c, native) != c <==> !Contains(c, DocumentClass)
    ensures !Contains(c, DocumentClass) ==>
      var out := WrapAsWritten(c, native);
      StartsWith(out, EnvelopeAsWritten(native)) &&
      out[|EnvelopeAsWritten(native)|..|out| - |DocumentEnd|] == c &&
      out[|out| - |DocumentEnd|..] == DocumentEnd
  {
    if !Contains(c, DocumentClass) {
      FrameParts(Envelope(native), c, DocumentEnd);
      EnvelopeNonEmpty(native);
      assert |Wrap(c, native)| > |c|;
      FrameParts(EnvelopeAsWritten(native), c, DocumentEnd);
      assert |ClassLineAsWritten| > 0;
      assert |WrapAsWritten(c, native)| > |c|;
    }
  }

  /** The envelope loads `fontspec` for a native-font engine and `inputenc` otherwise,
      the package the engine's cleanup does not remove. */
  lemma EnvelopeMatchesEngine(native: bool)
    ensures native ==> OccursAt(Envelope(native), "\\usepackage{fontspec}", 24)
    ensures !native ==> OccursAt(Envelope(native), "\\usepackage[utf8]{inputenc}", 24)
  {
  }

  /** The engine name defaults to `pdflatex`, for an absent and for an empty argument. */
  lemma EngineDefaultsToPdflatex()
    ensures EngineName(None) == "pdflatex" && EngineName(Some("")) == "pdflatex"
    ensures !NativeFonts(EngineName(None))
  {
  }

  /** Lower-casing is idempotent, so the engine name ignores letter case. */
  lemma EngineNameIgnoresCase(e: string)
    ensures EngineName(Some(LowerString(e))) == EngineName(Some(e))
  {
    LowerStringIdempotent(e);
  }

  /** `\documentclass` begins with a backslash. */
  lemma NoBackslashNoDocumentClass(c: string)
    requires '\\' !in c
    ensures !Contains(c, DocumentClass)
  {
    forall i: nat | i <= |c| ensures !OccursAt(c, DocumentClass, i) {
      if i + |DocumentClass| <= |c| {
        assert c[i] in c;
      }
    }
  }

  /** Text without a backslash can hold no `\documentclass`, so it is always wrapped. */
  lemma NoBackslashIsWrapped(raw: Option<string>, engine: Option<string>)
    requires '\\' !in OrEmpty(raw)
    ensures SanitizeLatex(raw, engine) ==
      Envelope(NativeFonts(EngineName(engine))) + Cleaned(raw, engine) + DocumentEnd
    ensures SanitizeLatexAsWritten(raw, engine) ==
      EnvelopeAsWritten(NativeFonts(EngineName(engine))) + Cleaned(raw, engine) + DocumentEnd
  {
    CommentsAreInert();
    CleanedKeepsOut(raw, engine, '\\');
    NoBackslashNoDocumentClass(Cleaned(raw, engine));
  }

  // ---------------------------------------------------------------------------------
  // The doubled backslashes of the preamble as written
  // ---------------------------------------------------------------------------------

  /** As written, a wrapped result opens with two backslashes, which LaTeX reads as the
      line-break command `\\` followed by the word `documentclass`, not as the
      `\documentclass` command. */
  lemma AsWrittenWrapOpensWithLineBreak(c: string, native: bool)
    requires !Contains(c, DocumentClass)
    ensures var out := WrapAsWritten(c, native);
      StartsWith(out, "\\\\documentclass{article}") && !StartsWith(out, DocumentClass)
  {
    var out := WrapAsWritten(c, native);
    var p := "\\\\documentclass{article}";
    var head := ClassLineAsWritten + EngineLineAsWritten(native);
    StartsWithFront(ClassLineAsWritten, EngineLineAsWritten(native), p);
    StartsWithFront(head, SharedPreambleAsWritten, p);
    StartsWithFront(EnvelopeAsWritten(native), c, p);
    StartsWithFront(EnvelopeAsWritten(native) + c, DocumentEnd, p);
    assert out[1] == p[1];
  }

  /** Plain prose such as `Hello world` is wrapped, and as written the result does not
      begin with the `\documentclass` command. */
  lemma AsWrittenBreaksPlainProse()
    ensures StartsWith(SanitizeLatexAsWritten(Some("Hello world"), None), "\\\\documentclass{article}")
  {
    var raw := Some("Hello world");
    assert '\\' !in OrEmpty(raw);
    CommentsAreInert();
    CleanedKeepsOut(raw, None, '\\');
    NoBackslashNoDocumentClass(Cleaned(raw, None));
    AsWrittenWrapOpensWithLineBreak(Cleaned(raw, None), NativeFonts(EngineName(None)));
  }

  /** With single backslashes, a wrapped result opens with the `\documentclass{article}`
      command. */
  lemma WrapOpensDocument(c: string, native: bool)
    requires !Contains(c, DocumentClass)
    ensures StartsWith(Wrap(c, native), "\\documentclass{article}\n")
  {
    var out := Wrap(c, native);
    assert StartsWith(Envelope(native), "\\documentclass{article}\n");
    FrameParts(Envelope(native), c, DocumentEnd);
    assert out[..|"\\documentclass{article}\n"|] == Envelope(native)[..|"\\documentclass{article}\n"|];
  }

  /** The same plain prose, sanitised with the corrected envelope, opens the document
      properly. */
  lemma SanitizedPlainProseOpensDocument()
    ensures StartsWith(SanitizeLatex(Some("Hello world"), None), "\\documentclass{article}\n")
  {
    var raw := Some("Hello world");
    assert '\\' !in OrEmpty(raw);
    CommentsAreInert();
    CleanedKeepsOut(raw, None, '\\');
    NoBackslashNoDocumentClass(Cleaned(raw, None));
    WrapOpensDocument(Cleaned(raw, None), NativeFonts(EngineName(None)));
  }

  // ---------------------------------------------------------------------------------
  // What the cleanup leaves alone
  // ---------------------------------------------------------------------------------

  /** An absent text is sanitised as the empty text. */
  lemma AbsentIsEmpty(engine: Option<string>)
    ensures SanitizeLatex(None, engine) == SanitizeLatex(Some(""), engine)
    ensures Cleaned(None, engine) == Cleaned(Some(""), engine)
  {
  }

  /** Without a wrap the result is the trimmed text itself, with no whitespace at
      either end; the cleaned text is such a trimmed text. */
  lemma UnwrappedIsTrimmed(s: string, native: bool)
    requires Contains(Trim(s), DocumentClass)
    ensures var r := Wrap(Trim(s), native);
      r == Trim(s) && !IsJsSpace(r[0]) && !IsJsSpace(r[|r| - 1])
  {
    var c := Trim(s);
    assert c != [] by {
      var i: nat :| i <= |c| && OccursAt(c, DocumentClass, i);
    }
  }

  /** A text in which none of the three directive patterns matches passes the directive
      cleanup unchanged. */
  lemma DirectivesUntouchedWithoutMatch(s: string)
    requires NoMatchFrom(RemoteImageWithOptions, s, 0)
    requires NoMatchFrom(RemoteImage, s, 0)
    requires NoMatchFrom(FileInclusion, s, 0)
    ensures NeutralizeDirectives(s) == s
  {
    ReplaceWithoutMatch(RemoteImageWithOptions, s, ImageRemoved, 0);
    assert ReplaceAll(RemoteImageWithOptions, s, ImageRemoved) == s;
    ReplaceWithoutMatch(RemoteImage, s, ImageRemoved, 0);
    assert ReplaceAll(RemoteImage, s, ImageRemoved) == s;
    ReplaceWithoutMatch(FileInclusion, s, InclusionRemoved, 0);
  }

  /** A local image, `\includegraphics{` followed by anything but an `h`, is matched by
      none of the three directive patterns. */
  lemma LocalImageNotMatched(s: string, i: nat)
    requires LitAt(s, "\\includegraphics{", i) && i + 17 < |s| && Lower(s[i + 17]) != 'h'
    ensures MatchAt(RemoteImageWithOptions, s, i).None?
    ensures MatchAt(RemoteImage, s, i).None?
    ensures MatchAt(FileInclusion, s, i).None?
  {
    LocalImageLetters(s, i);
    assert SpacesEnd(s, i + 16) == i + 16;
    LocalImageNotRemote(s, i);
    LocalImageNotIncluded(s, i);
  }

  /** The letters of `\includegraphics{` the three patterns look at. */
  lemma LocalImageLetters(s: string, i: nat)
    requires LitAt(s, "\\includegraphics{", i)
    ensures LitAt(s, "\\includegraphics", i) && s[i + 16] == '{'
    ensures LitAt(s, "\\", i) && LitAt(s, "include", i + 1) && !SameLetter(s[i + 3], 'p')
    ensures !IsJsSpace(s[i + 8]) && s[i + 8] != '{'
  {
    var w := "\\includegraphics{";
    assert LitAt(s, "\\includegraphics", i) by {
      forall k | 0 <= k < 16 ensures SameLetter(s[i + k], "\\includegraphics"[k]) {
        assert SameLetter(s[i + k], w[k]);
      }
    }
    assert LitAt(s, "include", i + 1) by {
      forall k | 0 <= k < 7 ensures SameLetter(s[i + 1 + k], "include"[k]) {
        assert SameLetter(s[i + 1 + k], w[1 + k]);
      }
    }
    assert SameLetter(s[i], w[0]) && SameLetter(s[i + 3], w[3]) && SameLetter(s[i + 8], w[8]);
    assert SameLetter(s[i + 16], w[16]);
  }

  lemma LocalImageNotRemote(s: string, i: nat)
    requires LitAt(s, "\\includegraphics", i) && i + 17 < |s| && s[i + 16] == '{' && Lower(s[i + 17]) != 'h'
    requires SpacesEnd(s, i + 16) == i + 16
    ensures MatchAt(RemoteImageWithOptions, s, i).None?
    ensures MatchAt(RemoteImage, s, i).None?
  {
    var w := "\\includegraphics";
    var withOptions := [Lit("["), UpTo(']', false), Spaces, Lit("{http"), OptLetter('s'), Lit(":"), UpTo('}', true)];
    LitSpacesHead(w, withOptions, RemoteImageWithOptions, s, i);
    assert !SameLetter(s[i + 16 + 0], "["[0]);
    FirstLitFails("[", withOptions[1..], withOptions, s, i + 16);
    var plain := [Lit("{http"), OptLetter('s'), Lit(":"), UpTo('}', true)];
    LitSpacesHead(w, plain, RemoteImage, s, i);
    assert !SameLetter(s[i + 16 + 1], "{http"[1]);
    FirstLitFails("{http", plain[1..], plain, s, i + 16);
  }

  /** A pattern opening with a literal and `\s*` continues after the literal's spaces. */
  lemma LitSpacesHead(w: string, rest: seq<Piece>, ps: seq<Piece>, s: string, i: nat)
    requires ps == [Lit(w), Spaces] + rest && LitAt(s, w, i)
    ensures MatchAt(ps, s, i) == MatchAt(rest, s, SpacesEnd(s, i + |w|))
  {
    assert ps[1..] == [Spaces] + rest;
    assert ps[1..][1..] == rest;
  }

  /** A pattern whose opening literal is not there does not match. */
  lemma FirstLitFails(w: string, rest: seq<Piece>, ps: seq<Piece>, s: string, i: nat)
    requires ps == [Lit(w)] + rest && i <= |s| && !LitAt(s, w, i)
    ensures MatchAt(ps, s, i).None?
  {
  }

  lemma LocalImageNotIncluded(s: string, i: nat)
    requires LitAt(s, "\\", i) && LitAt(s, "include", i + 1) && !SameLetter(s[i + 3], 'p')
    requires i + 8 < |s| && !IsJsSpace(s[i + 8]) && s[i + 8] != '{'
    ensures MatchAt(FileInclusion, s, i).None?
  {
    var rest := [Spaces, Lit("{"), UpTo('}', true)];
    assert FileInclusion == [Lit("\\"), AltLit("input", "include")] + rest;
    assert !SameLetter(s[i + 1 + 2], "input"[2]);
    assert Step(AltLit("input", "include"), s, i + 1) == Some(i + 8);
    assert MatchAt(FileInclusion, s, i) == MatchAt(rest, s, i + 8) by {
      assert FileInclusion[1..] == [AltLit("input", "include")] + rest;
      assert (FileInclusion[1..])[1..] == rest;
    }
    assert SpacesEnd(s, i + 8) == i + 8;
    assert !SameLetter(s[i + 8], "{"[0]);
    assert rest[1..][0] == Lit("{");
  }

  /** Under a native-font engine only `inputenc` is cleaned up: a text without an
      `inputenc` package line is left as it is, `fontspec` and `\setmainfont` included. */
  lemma NativeCleansOnlyInputenc(s: string)
    requires NoMatchFrom(InputencPackage, s, 0)
    ensures ReconcilePackages(s, true) == s
  {
    ReplaceWithoutMatch(InputencPackage, s, InputencRemoved, 0);
  }

  /** Under any other engine only `fontspec` and `\setmainfont` are cleaned up: a text
      without either is left as it is, `inputenc` included. */
  lemma OtherCleansOnlyFontspec(s: string)
    requires NoMatchFrom(FontspecPackage, s, 0) && NoMatchFrom(MainFont, s, 0)
    ensures ReconcilePackages(s, false) == s
  {
    ReplaceWithoutMatch(FontspecPackage, s, FontspecRemoved, 0);
    assert ReplaceAll(FontspecPackage, s, FontspecRemoved) == s;
    ReplaceWithoutMatch(MainFont, s, MainFontRemoved, 0);
  }
}
