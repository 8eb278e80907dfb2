/**
 * The string helper `blreReplaceAll` and the single-callback event registry
 * `BlreEventsManager` (RescueEditor/js/events/eventmanager.js).
 */
module EventManager {
  import opened Wrappers
  import opened Strings

  // ---------------------------------------------------------------------
  // blreReplaceAll
  // ---------------------------------------------------------------------

  /** The characters blreReplaceAll escapes before building its RegExp. */
  predicate IsRegExpMeta(c: char)
  {
    c in ".*+?^=!:${}()|[]/\\"
  }

  /** Prefixes every metacharacter with a backslash, as the `replace(/([.*+?^=!:${}()|\[\]\/\\])/g, "\\$1")` call does. */
  function EscapeRegExp(s: string): (r: string)
    ensures |r| >= |s|
  {
    if s == [] then []
    else (if IsRegExpMeta(s[0]) then ['\\', s[0]] else [s[0]]) + EscapeRegExp(s[1..])
  }

  /**
   * The literal text a pattern denotes when it is made only of ordinary
   * characters and escaped metacharacters; None when it holds an operator.
   */
  function RegExpLiteral(p: string): (r: Option<string>)
  {
    if p == [] then Some([])
    else if p[0] == '\\' then
      if |p| >= 2 && IsRegExpMeta(p[1]) then
        match RegExpLiteral(p[2..])
        case None => None
        case Some(rest) => Some([p[1]] + rest)
      else None
    else if IsRegExpMeta(p[0]) then None
    else
      match RegExpLiteral(p[1..])
      case None => None
      case Some(rest) => Some([p[0]] + rest)
  }

  /** The escaped search string denotes exactly the search string: the search is literal. */
  lemma {:induction false} EscapedSearchIsLiteral(s: string)
    ensures RegExpLiteral(EscapeRegExp(s)) == Some(s)
  {
    if s != [] {
      EscapedSearchIsLiteral(s[1..]);
      var e := EscapeRegExp(s);
      assert [s[0]] + s[1..] == s;
      if IsRegExpMeta(s[0]) {
        assert e == ['\\', s[0]] + EscapeRegExp(s[1..]);
        assert e[2..] == EscapeRegExp(s[1..]);
      } else {
        assert [s[0]] + s[1..] == s;
        assert e[1..] == EscapeRegExp(s[1..]);
      }
    }
  }

  /**
   * `rep` before every character of `t` and after the last one: what a
   * global RegExp that matches the empty string replaces.
   */
  function Interleave(t: string, rep: string): (r: string)
  {
    if t == [] then rep else rep + [t[0]] + Interleave(t[1..], rep)
  }

  /**
   * blreReplaceAll(search, replacement) with a string search: the escaped
   * search becomes a global RegExp, and String.prototype.replace scans the
   * text from left to right, replacing each match and resuming after it.
   */
  function ReplaceAll(t: string, search: string, rep: string): (r: string)
  {
    if search == [] then Interleave(t, rep) else ReplaceFrom(t, search, rep, 0)
  }

  /**
   * The scan of a global replace from position `k` on: a match at `k` is
   * replaced and the scan resumes after it; otherwise the character is kept.
   */
  function ReplaceFrom(t: string, s: string, rep: string, k: nat): (r: string)
    requires s != []
    decreases |t| - k
  {
    if k >= |t| then []
    else if MatchesAt(t, s, k, 0) then rep + ReplaceFrom(t, s, rep, k + |s|)
    else [t[k]] + ReplaceFrom(t, s, rep, k + 1)
  }

  /** The characters of `s` from `j` on stand in `t` from `k + j` on. */
  predicate MatchesAt(t: string, s: string, k: nat, j: nat)
    decreases |s| - j
  {
    j >= |s| || (k + j < |t| && t[k + j] == s[j] && MatchesAt(t, s, k, j + 1))
  }

  lemma {:induction false} MatchesAtChars(t: string, s: string, k: nat, j: nat)
    requires j < |s|
    decreases |s| - j
    ensures MatchesAt(t, s, k, j) <==> (k + |s| <= |t| && forall n :: j <= n < |s| ==> t[k + n] == s[n])
  {
    if j + 1 < |s| {
      MatchesAtChars(t, s, k, j + 1);
    }
  }

  lemma MatchesAtOccurs(t: string, s: string, k: nat)
    requires s != []
    ensures MatchesAt(t, s, k, 0) <==> OccursAt(t, s, k)
  {
    MatchesAtChars(t, s, k, 0);
    if k + |s| <= |t| && (forall n :: 0 <= n < |s| ==> t[k + n] == s[n]) {
      assert t[k..k + |s|] == s;
    }
    if OccursAt(t, s, k) {
      forall n | 0 <= n < |s|
        ensures t[k + n] == s[n]
      {
        assert t[k..k + |s|][n] == s[n];
      }
    }
  }

  /** One step of the scan. */
  lemma ScanStep(t: string, s: string, rep: string, k: nat)
    requires s != [] && k < |t|
    ensures OccursAt(t, s, k) ==> ReplaceFrom(t, s, rep, k) == rep + ReplaceFrom(t, s, rep, k + |s|)
    ensures !OccursAt(t, s, k) ==> ReplaceFrom(t, s, rep, k) == [t[k]] + ReplaceFrom(t, s, rep, k + 1)
  {
    MatchesAtOccurs(t, s, k);
  }

  lemma AppendAssoc(a: string, b: string, c: string)
    ensures a + (b + c) == (a + b) + c
  {
  }

  /** Where no match starts in [k, i), the scan copies the text up to `i`. */
  lemma {:induction false} CopyUpTo(t: string, s: string, rep: string, k: nat, i: nat)
    requires s != [] && k <= i <= |t|
    requires forall j :: k <= j < i ==> !OccursAt(t, s, j)
    decreases i - k
    ensures ReplaceFrom(t, s, rep, k) == t[k..i] + ReplaceFrom(t, s, rep, i)
  {
    if k < i {
      CopyUpTo(t, s, rep, k + 1, i);
      ScanStep(t, s, rep, k);
      AppendAssoc([t[k]], t[k + 1..i], ReplaceFrom(t, s, rep, i));
      assert t[k..i] == [t[k]] + t[k + 1..i];
    }
  }

  /**
   * The scan agrees with the search-and-cut description: the text up to the
   * leftmost match is kept, the match is replaced and the rest is scanned
   * again; with no match the text is kept whole.
   */
  lemma ReplaceFromFirst(t: string, s: string, rep: string, k: nat)
    requires s != [] && k <= |t|
    ensures var f := IndexOfFrom(t, s, k);
            && (f.None? ==> ReplaceFrom(t, s, rep, k) == t[k..])
            && (f.Some? ==> ReplaceFrom(t, s, rep, k) == t[k..f.value] + rep + ReplaceFrom(t, s, rep, f.value + |s|))
  {
    var f := IndexOfFrom(t, s, k);
    IndexOfFromLeftmost(t, s, k);
    if f.None? {
      CopyUpTo(t, s, rep, k, |t|);
    } else {
      var i := f.value;
      CopyUpTo(t, s, rep, k, i);
      ScanStep(t, s, rep, i);
      AppendAssoc(t[k..i], rep, ReplaceFrom(t, s, rep, i + |s|));
    }
  }

  /** blreReplaceAll is the leftmost-first replacement of every non-overlapping occurrence. */
  lemma ReplaceAllFirst(t: string, s: string, rep: string)
    requires s != []
    ensures var f := IndexOf(t, s);
            && (f.None? ==> ReplaceAll(t, s, rep) == t)
            && (f.Some? ==> ReplaceAll(t, s, rep) == t[..f.value] + rep + ReplaceFrom(t, s, rep, f.value + |s|))
  {
    ReplaceFromFirst(t, s, rep, 0);
    var f := IndexOf(t, s);
    if f.None? {
      assert t[0..] == t;
    } else {
      assert t[0..f.value] == t[..f.value];
    }
  }

  /** A text without the search string is returned unchanged. */
  lemma ReplaceAllNoMatch(t: string, s: string, rep: string)
    requires s != [] && !Occurs(t, s)
    ensures ReplaceAll(t, s, rep) == t
  {
    IndexOfSpec(t, s);
    ReplaceAllFirst(t, s, rep);
  }

  /** Replacing the search string by itself changes nothing. */
  lemma {:induction false} ReplaceFromBySelf(t: string, s: string, k: nat)
    requires s != [] && k <= |t|
    decreases |t| - k
    ensures ReplaceFrom(t, s, s, k) == t[k..]
  {
    if k < |t| {
      ScanStep(t, s, s, k);
      if OccursAt(t, s, k) {
        ReplaceFromBySelf(t, s, k + |s|);
        assert t[k..] == t[k..k + |s|] + t[k + |s|..];
      } else {
        ReplaceFromBySelf(t, s, k + 1);
        assert t[k..] == [t[k]] + t[k + 1..];
      }
    }
  }

  lemma ReplaceAllBySelf(t: string, s: string)
    requires s != []
    ensures ReplaceAll(t, s, s) == t
  {
    ReplaceFromBySelf(t, s, 0);
  }

  // ---------------------------------------------------------------------
  // `$` patterns in the replacement
  // ---------------------------------------------------------------------

  /**
   * blreReplaceAll(search, replacement) as String.prototype.replace runs it:
   * the scan of ReplaceAll, where each match is replaced by the replacement
   * with its `$` patterns expanded against that match and the text before
   * and after it.
   */
  function BlreReplaceAll(t: string, search: string, rep: string): (r: string)
  {
    if search == [] then ExpandEmpty(t, rep, 0) else ExpandFrom(t, search, rep, 0)
  }

  /** The replacement written for the match of `s` at `k`. */
  function MatchReplacement(t: string, s: string, rep: string, k: nat): string
    requires k + |s| <= |t|
  {
    Substitution(rep, t[k..k + |s|], t[..k], t[k + |s|..])
  }

  /** The scan from position `k` on, expanding the replacement at each match. */
  function ExpandFrom(t: string, s: string, rep: string, k: nat): string
    requires s != []
    decreases |t| - k
  {
    if k >= |t| then []
    else if OccursAt(t, s, k) then MatchReplacement(t, s, rep, k) + ExpandFrom(t, s, rep, k + |s|)
    else [t[k]] + ExpandFrom(t, s, rep, k + 1)
  }

  /** The empty search matches before each character from `k` on and at the end. */
  function ExpandEmpty(t: string, rep: string, k: nat): string
    requires k <= |t|
    decreases |t| - k
  {
    var here := Substitution(rep, [], t[..k], t[k..]);
    if k == |t| then here else here + [t[k]] + ExpandEmpty(t, rep, k + 1)
  }

  lemma {:induction false} ExpandFromPlain(t: string, s: string, rep: string, k: nat)
    requires s != [] && Plain(rep)
    decreases |t| - k
    ensures ExpandFrom(t, s, rep, k) == ReplaceFrom(t, s, rep, k)
  {
    if k < |t| {
      ScanStep(t, s, rep, k);
      if OccursAt(t, s, k) {
        SubstitutionPlain(rep, t[k..k + |s|], t[..k], t[k + |s|..]);
        ExpandFromPlain(t, s, rep, k + |s|);
      } else {
        ExpandFromPlain(t, s, rep, k + 1);
      }
    }
  }

  lemma {:induction false} ExpandEmptyPlain(t: string, rep: string, k: nat)
    requires k <= |t| && Plain(rep)
    decreases |t| - k
    ensures ExpandEmpty(t, rep, k) == Interleave(t[k..], rep)
  {
    SubstitutionPlain(rep, [], t[..k], t[k..]);
    if k < |t| {
      ExpandEmptyPlain(t, rep, k + 1);
      assert t[k..][1..] == t[k + 1..];
    }
  }

  /** A replacement without `$` patterns is written literally: blreReplaceAll is the plain scan. */
  lemma BlreReplaceAllPlain(t: string, search: string, rep: string)
    requires Plain(rep)
    ensures BlreReplaceAll(t, search, rep) == ReplaceAll(t, search, rep)
  {
    if search == [] {
      ExpandEmptyPlain(t, rep, 0);
      assert t[0..] == t;
    } else {
      ExpandFromPlain(t, search, rep, 0);
    }
  }

  lemma {:induction false} ExpandFromMatched(t: string, s: string, k: nat)
    requires s != [] && k <= |t|
    decreases |t| - k
    ensures ExpandFrom(t, s, "$&", k) == t[k..]
  {
    if k < |t| {
      if OccursAt(t, s, k) {
        SubstitutionPatterns(t[k..k + |s|], t[..k], t[k + |s|..]);
        ExpandFromMatched(t, s, k + |s|);
        assert t[k..] == t[k..k + |s|] + t[k + |s|..];
      } else {
        ExpandFromMatched(t, s, k + 1);
        assert t[k..] == [t[k]] + t[k + 1..];
      }
    }
  }

  /**
   * The replacement `$&` writes each match back: blreReplaceAll leaves the
   * text unchanged, where a literal splice would write `$&` in place of
   * every occurrence.
   */
  lemma BlreReplaceAllMatched(t: string, s: string)
    requires s != []
    ensures BlreReplaceAll(t, s, "$&") == t
  {
    ExpandFromMatched(t, s, 0);
  }

  // ---------------------------------------------------------------------
  // Tags: patterns with a single '<', at their start
  // ---------------------------------------------------------------------

  /** A tag pattern: it starts with '<' and holds no other '<'. */
  predicate IsTag(p: string)
  {
    |p| >= 1 && p[0] == '<' && '<' !in p[1..]
  }

  /**
   * No '<' of `rep` can start an occurrence of `p`, whatever follows `rep`:
   * from every '<' on, `rep` and `p` differ before either ends.
   */
  predicate Shields(rep: string, p: string)
  {
    forall y :: 0 <= y < |rep| ==> ShieldsAt(rep, p, y)
  }

  /** The '<' at `y` of `rep`, if there is one, cannot start an occurrence of `p`. */
  predicate ShieldsAt(rep: string, p: string, y: int)
    requires 0 <= y < |rep|
  {
    rep[y] == '<' ==>
      var m := if |p| < |rep| - y then |p| else |rep| - y;
      p[..m] != rep[y..y + m]
  }

  /** A tag has no '<' after its first character. */
  lemma TagInner(p: string)
    requires IsTag(p)
    ensures forall k :: 0 < k < |p| ==> p[k] != '<'
  {
    forall k | 0 < k < |p|
      ensures p[k] != '<'
    {
      assert p[k] == p[1..][k - 1];
    }
  }

  /** A single tag-like segment shields `p` when it differs from `p` early enough. */
  lemma ShieldsTag(seg: string, p: string)
    requires IsTag(seg)
    requires var m := if |p| < |seg| then |p| else |seg|; p[..m] != seg[..m]
    ensures Shields(seg, p)
  {
    TagInner(seg);
    forall y | 0 <= y < |seg|
      ensures ShieldsAt(seg, p, y)
    {
      if y == 0 {
        assert seg[0..] == seg;
      }
    }
  }

  /** Slices that differ in their first `m0` characters differ in their first `m`. */
  lemma SliceDiffers(p: string, w: string, y: nat, m0: nat, m: nat)
    requires m0 <= m <= |p| && y + m <= |w|
    requires p[..m0] != w[y..y + m0]
    ensures p[..m] != w[y..y + m]
  {
    assert p[..m][..m0] == p[..m0];
    assert w[y..y + m][..m0] == w[y..y + m0];
  }

  /** Shielding is kept by concatenation. */
  lemma ShieldsConcat(a: string, b: string, p: string)
    requires Shields(a, p) && Shields(b, p)
    ensures Shields(a + b, p)
  {
    var ab := a + b;
    forall y | 0 <= y < |ab|
      ensures ShieldsAt(ab, p, y)
    {
      var m := if |p| < |ab| - y then |p| else |ab| - y;
      if ab[y] != '<' {
      } else if y < |a| {
        assert a[y] == '<';
        assert ShieldsAt(a, p, y);
        var m0 := if |p| < |a| - y then |p| else |a| - y;
        assert p[..m0] != a[y..y + m0];
        assert ab[y..y + m0] == a[y..y + m0];
        SliceDiffers(p, ab, y, m0, m);
      } else {
        assert b[y - |a|] == '<';
        assert ShieldsAt(b, p, y - |a|);
        assert ab[y..y + m] == b[y - |a|..y - |a| + m];
      }
    }
  }

  /** An occurrence in a part is an occurrence in the concatenation. */
  lemma OccursInConcat(a: string, b: string, p: string, x: int, y: int)
    ensures OccursAt(a, p, x) ==> OccursAt(a + b, p, x)
    ensures OccursAt(b, p, y) ==> OccursAt(a + b, p, |a| + y)
  {
    if OccursAt(a, p, x) {
      assert (a + b)[x..x + |p|] == a[x..x + |p|];
    }
    if OccursAt(b, p, y) {
      assert (a + b)[|a| + y..|a| + y + |p|] == b[y..y + |p|];
    }
  }

  /** An occurrence in `b` is one in `a + b`, shifted by `|a|`. */
  lemma ShiftOccurrence(a: string, b: string, p: string, z: int) returns (y: int)
    requires OccursAt(b, p, z)
    ensures y == |a| + z && OccursAt(a + b, p, y)
  {
    OccursInConcat(a, b, p, 0, z);
    y := |a| + z;
  }

  /** An occurrence past position `k` is an occurrence in the suffix from `k`. */
  lemma OccursInSuffix(t: string, k: nat, p: string, x: int)
    requires k <= x && OccursAt(t, p, x)
    ensures OccursAt(t[k..], p, x - k)
  {
    assert t[k..][x - k..x - k + |p|] == t[x..x + |p|];
  }

  /** An occurrence past the first character is an occurrence in the rest. */
  lemma OccursAfterFirst(c: char, u: string, p: string, x: int)
    ensures x >= 1 && OccursAt([c] + u, p, x) ==> OccursAt(u, p, x - 1)
  {
    if x >= 1 && OccursAt([c] + u, p, x) {
      OccursInSuffix([c] + u, 1, p, x);
      assert ([c] + u)[1..] == u;
    }
  }

  /** An occurrence of a tag starts at a '<'. */
  lemma StartsWithAngle(t: string, p: string, x: int)
    ensures IsTag(p) && OccursAt(t, p, x) ==> t[x] == '<'
  {
    if IsTag(p) && OccursAt(t, p, x) {
      assert t[x] == t[x..x + |p|][0];
    }
  }

  /** Inside an occurrence of a tag, past its first character, there is no '<'. */
  lemma NoAngleInside(w: string, p: string, x: int, j: int)
    ensures IsTag(p) && OccursAt(w, p, x) && x < j < x + |p| ==> w[j] != '<'
  {
    if IsTag(p) && OccursAt(w, p, x) && x < j < x + |p| {
      TagInner(p);
      assert w[j] == w[x..x + |p|][j - x];
    }
  }

  /** An occurrence of `p` cannot start at a '<' of a replacement that shields `p`. */
  lemma ShieldBlocks(pre: string, rep: string, u: string, p: string, x: int)
    ensures Shields(rep, p) && |pre| <= x < |pre| + |rep| && rep[x - |pre|] == '<'
            ==> !OccursAt(pre + rep + u, p, x)
  {
    if Shields(rep, p) && |pre| <= x < |pre| + |rep| && rep[x - |pre|] == '<' {
      var w := pre + rep + u;
      var y := x - |pre|;
      var m := if |p| < |rep| - y then |p| else |rep| - y;
      assert ShieldsAt(rep, p, y);
      assert w[x..x + m] == rep[y..y + m];
      if x + |p| <= |w| {
        SliceDiffers(p, w, x, m, |p|);
        assert p[..|p|] == p;
      }
    }
  }

  /**
   * Where an occurrence of tag `p` can lie in `pre + rep + u`, when `rep`
   * starts with '<' and shields `p`: wholly inside `pre` or inside `u`.
   */
  lemma TagOccurrenceSides(pre: string, rep: string, u: string, p: string, x: int)
    requires IsTag(p) && |rep| >= 1 && rep[0] == '<' && Shields(rep, p)
    ensures OccursAt(pre + rep + u, p, x) ==> OccursAt(pre, p, x) || OccursAt(u, p, x - |pre| - |rep|)
  {
    var w := pre + rep + u;
    var i := |pre|;
    if OccursAt(w, p, x) {
      assert w[i] == rep[0];
      assert w[x] == w[x..x + |p|][0];
      assert i <= x < i + |rep| ==> rep[x - i] == w[x];
      NoAngleInside(w, p, x, i);
      ShieldBlocks(pre, rep, u, p, x);
      if x + |p| <= i {
        assert pre[x..x + |p|] == w[x..x + |p|];
      } else {
        assert u[x - i - |rep|..x - i - |rep| + |p|] == w[x..x + |p|];
      }
    }
  }

  /** Occurrences of two tags that differ before either ends neither overlap nor coincide. */
  lemma TagsApart(t: string, s: string, q: string, i: int, x: int)
    requires IsTag(s) && IsTag(q)
    requires var m := if |s| < |q| then |s| else |q|; s[..m] != q[..m]
    requires OccursAt(t, s, i) && OccursAt(t, q, x)
    ensures x + |q| <= i || i + |s| <= x
  {
    var m := if |s| < |q| then |s| else |q|;
    assert t[i] == t[i..i + |s|][0] && t[x] == t[x..x + |q|][0];
    assert t[i..i + m] == t[i..i + |s|][..m] && t[x..x + m] == t[x..x + |q|][..m];
    NoAngleInside(t, q, x, i);
    NoAngleInside(t, s, i, x);
  }

  /** A run of output without '<' was copied from the text: replacements start with '<'. */
  lemma {:induction false} CopiedPrefix(t: string, s: string, rep: string, k: nat, m: nat)
    requires s != [] && |rep| >= 1 && rep[0] == '<' && k <= |t|
    requires m <= |ReplaceFrom(t, s, rep, k)|
    requires forall j :: 0 <= j < m ==> ReplaceFrom(t, s, rep, k)[j] != '<'
    decreases m
    ensures k + m <= |t| && ReplaceFrom(t, s, rep, k)[..m] == t[k..k + m]
  {
    if m > 0 {
      var r := ReplaceFrom(t, s, rep, k);
      assert r[0] != '<';
      ScanStep(t, s, rep, k);
      var u := ReplaceFrom(t, s, rep, k + 1);
      assert r == [t[k]] + u;
      forall j | 0 <= j < m - 1
        ensures u[j] != '<'
      {
        assert u[j] == r[j + 1];
      }
      CopiedPrefix(t, s, rep, k + 1, m - 1);
      assert r[..m] == [t[k]] + u[..m - 1];
      assert t[k..k + m] == [t[k]] + t[k + 1..k + m];
    }
  }

  /** A tag that the output shows at a copied character stands in the text there. */
  lemma CopiedTag(t: string, s: string, rep: string, p: string, k: nat)
    requires s != [] && IsTag(p) && |rep| >= 1 && rep[0] == '<' && k < |t|
    ensures OccursAt([t[k]] + ReplaceFrom(t, s, rep, k + 1), p, 0) ==> OccursAt(t, p, k)
  {
    var u := ReplaceFrom(t, s, rep, k + 1);
    var w := [t[k]] + u;
    if OccursAt(w, p, 0) {
      TagInner(p);
      forall j | 0 <= j < |p| - 1
        ensures u[j] != '<'
      {
        assert u[j] == w[j + 1] == w[..|p|][j + 1] == p[j + 1];
      }
      CopiedPrefix(t, s, rep, k + 1, |p| - 1);
      assert w[..|p|] == [t[k]] + u[..|p| - 1];
      assert t[k..k + |p|] == [t[k]] + t[k + 1..k + |p|];
    }
  }

  /**
   * No occurrence of tag `p` in the scan's output from `k` on, when the
   * replacement shields `p` and every character the scan copies fails to
   * start `p`: either `p` is the search string, or the text never held it.
   */
  lemma {:induction false} NoTagFrom(t: string, s: string, rep: string, p: string, k: nat)
    requires s != [] && IsTag(p) && |rep| >= 1 && rep[0] == '<' && Shields(rep, p)
    requires s == p || !Occurs(t, p)
    requires k <= |t|
    decreases |t| - k
    ensures !Occurs(ReplaceFrom(t, s, rep, k), p)
  {
    if k < |t| {
      ScanStep(t, s, rep, k);
      var w := ReplaceFrom(t, s, rep, k);
      if OccursAt(t, s, k) {
        var u := ReplaceFrom(t, s, rep, k + |s|);
        NoTagFrom(t, s, rep, p, k + |s|);
        assert w == [] + rep + u;
        forall x | 0 <= x <= |w|
          ensures !OccursAt(w, p, x)
        {
          TagOccurrenceSides([], rep, u, p, x);
        }
      } else {
        var u := ReplaceFrom(t, s, rep, k + 1);
        NoTagFrom(t, s, rep, p, k + 1);
        forall x | 0 <= x <= |w|
          ensures !OccursAt(w, p, x)
        {
          if x == 0 {
            CopiedTag(t, s, rep, p, k);
          } else {
            OccursAfterFirst(t[k], u, p, x);
          }
        }
      }
    }
  }

  /** A tag cannot occur in the output where it is the search string and the replacement shields it. */
  lemma ReplaceAllRemovesTag(t: string, p: string, rep: string)
    requires IsTag(p) && |rep| >= 1 && rep[0] == '<' && Shields(rep, p)
    ensures !Occurs(ReplaceAll(t, p, rep), p)
  {
    NoTagFrom(t, p, rep, p, 0);
  }

  /** Replacing something else by a shielding replacement creates no new occurrence of a tag. */
  lemma ReplaceAllKeepsTagAbsent(t: string, s: string, rep: string, p: string)
    requires s != [] && IsTag(p) && |rep| >= 1 && rep[0] == '<' && Shields(rep, p)
    requires !Occurs(t, p)
    ensures !Occurs(ReplaceAll(t, s, rep), p)
  {
    NoTagFrom(t, s, rep, p, 0);
  }

  /** A tag `s` cannot start where a tag `q` that differs from it early starts. */
  lemma NotBothAt(t: string, s: string, q: string, x: int)
    requires IsTag(s) && IsTag(q)
    requires var m := if |s| < |q| then |s| else |q|; s[..m] != q[..m]
    requires OccursAt(t, q, x)
    ensures !OccursAt(t, s, x)
  {
    if OccursAt(t, s, x) {
      TagsApart(t, s, q, x, x);
    }
  }

  /** Inside an occurrence of tag `q`, past its first character, no tag `s` starts. */
  lemma NoneInside(t: string, s: string, q: string, x: nat)
    requires IsTag(s) && IsTag(q) && OccursAt(t, q, x)
    ensures forall j :: x < j < x + |q| ==> !OccursAt(t, s, j)
  {
    forall j | x < j < x + |q|
      ensures !OccursAt(t, s, j)
    {
      NoAngleInside(t, q, x, j);
      StartsWithAngle(t, s, j);
    }
  }

  /** The scan that reaches an occurrence of tag `q` copies it whole. */
  lemma TagAtScan(t: string, s: string, rep: string, q: string, x: nat)
    requires IsTag(s) && IsTag(q)
    requires var m := if |s| < |q| then |s| else |q|; s[..m] != q[..m]
    requires OccursAt(t, q, x)
    ensures OccursAt(ReplaceFrom(t, s, rep, x), q, 0)
  {
    NotBothAt(t, s, q, x);
    ScanStep(t, s, rep, x);
    NoneInside(t, s, q, x);
    var v := ReplaceFrom(t, s, rep, x + |q|);
    CopyUpTo(t, s, rep, x + 1, x + |q|);
    AppendAssoc([t[x]], t[x + 1..x + |q|], v);
    assert [t[x]] + t[x + 1..x + |q|] == t[x..x + |q|];
    OccursInConcat(q, v, q, 0, 0);
  }

  /**
   * An occurrence of tag `q` at `x` survives the scan from any `k` up to
   * `x`, where the search is a tag `s` that differs from `q` before either
   * ends; `y` is where it lands in the output.
   */
  lemma {:induction false} KeepsTagFrom(t: string, s: string, rep: string, q: string, x: nat, k: nat)
    returns (y: int)
    requires IsTag(s) && IsTag(q)
    requires var m := if |s| < |q| then |s| else |q|; s[..m] != q[..m]
    requires OccursAt(t, q, x) && k <= x
    decreases x - k
    ensures OccursAt(ReplaceFrom(t, s, rep, k), q, y)
  {
    ScanStep(t, s, rep, k);
    if k == x {
      TagAtScan(t, s, rep, q, x);
      y := 0;
    } else if OccursAt(t, s, k) {
      TagsApart(t, s, q, k, x);
      var z := KeepsTagFrom(t, s, rep, q, x, k + |s|);
      y := ShiftOccurrence(rep, ReplaceFrom(t, s, rep, k + |s|), q, z);
    } else {
      var z := KeepsTagFrom(t, s, rep, q, x, k + 1);
      y := ShiftOccurrence([t[k]], ReplaceFrom(t, s, rep, k + 1), q, z);
    }
  }

  /**
   * An occurrence of tag `q` survives replacing a tag `s` that differs from
   * `q` before either ends.
   */
  lemma ReplaceAllKeepsTagPresent(t: string, s: string, rep: string, q: string, x: nat)
    returns (y: int)
    requires IsTag(s) && IsTag(q)
    requires var m := if |s| < |q| then |s| else |q|; s[..m] != q[..m]
    requires OccursAt(t, q, x)
    ensures OccursAt(ReplaceAll(t, s, rep), q, y)
  {
    y := KeepsTagFrom(t, s, rep, q, x, 0);
  }

  /**
   * A segment `w` that starts with '<' and shields a tag `s` is not cut
   * by a match of `s`: no match starts inside it, none runs into it.
   */
  lemma NoMatchInShielded(t: string, s: string, w: string, x: nat, j: int)
    requires IsTag(s) && |w| >= 1 && w[0] == '<' && Shields(w, s) && OccursAt(t, w, x)
    requires x <= j < x + |w|
    ensures !OccursAt(t, s, j)
  {
    StartsWithAngle(t, s, j);
    var y := j - x;
    assert t[j] == t[x..x + |w|][y] == w[y];
    if w[y] == '<' {
      assert ShieldsAt(w, s, y);
      var m := if |s| < |w| - y then |s| else |w| - y;
      var a, b := w[y..y + m], t[j..j + m];
      forall i | 0 <= i < m
        ensures a[i] == b[i]
      {
        assert a[i] == w[y + i] == t[x..x + |w|][y + i];
      }
      assert a == b;
      PrefixOfOccurrence(t, s, j, m);
    }
  }

  /** An occurrence of `s` at `j` shows its first `m` characters there. */
  lemma PrefixOfOccurrence(t: string, s: string, j: int, m: nat)
    requires m <= |s|
    ensures OccursAt(t, s, j) ==> t[j..j + m] == s[..m]
  {
    if OccursAt(t, s, j) {
      assert t[j..j + m] == t[j..j + |s|][..m];
    }
  }

  /** The scan that reaches a shielded segment copies it whole. */
  lemma ShieldedAtScan(t: string, s: string, rep: string, w: string, x: nat)
    requires IsTag(s) && |w| >= 1 && w[0] == '<' && Shields(w, s) && OccursAt(t, w, x)
    ensures OccursAt(ReplaceFrom(t, s, rep, x), w, 0)
  {
    forall j | x <= j < x + |w|
      ensures !OccursAt(t, s, j)
    {
      NoMatchInShielded(t, s, w, x, j);
    }
    var v := ReplaceFrom(t, s, rep, x + |w|);
    CopyUpTo(t, s, rep, x, x + |w|);
    OccursInConcat(w, v, w, 0, 0);
  }

  /** A match before a shielded segment ends before it: the segment's '<' is not inside a tag. */
  lemma MatchBeforeShielded(t: string, s: string, w: string, k: nat, x: nat)
    requires IsTag(s) && |w| >= 1 && w[0] == '<' && OccursAt(t, w, x)
    requires k < x && OccursAt(t, s, k)
    ensures k + |s| <= x
  {
    assert t[x] == t[x..x + |w|][0];
    NoAngleInside(t, s, k, x);
  }

  /** A shielded segment at `x` survives the scan from any `k` up to `x`; `y` is where it lands. */
  lemma {:induction false} KeepsShieldedFrom(t: string, s: string, rep: string, w: string, x: nat, k: nat)
    returns (y: int)
    requires IsTag(s) && |w| >= 1 && w[0] == '<' && Shields(w, s)
    requires OccursAt(t, w, x) && k <= x
    decreases x - k
    ensures OccursAt(ReplaceFrom(t, s, rep, k), w, y)
  {
    if k == x {
      ShieldedAtScan(t, s, rep, w, x);
      y := 0;
    } else {
      ScanStep(t, s, rep, k);
      if OccursAt(t, s, k) {
        MatchBeforeShielded(t, s, w, k, x);
        var z := KeepsShieldedFrom(t, s, rep, w, x, k + |s|);
        y := ShiftOccurrence(rep, ReplaceFrom(t, s, rep, k + |s|), w, z);
      } else {
        var z := KeepsShieldedFrom(t, s, rep, w, x, k + 1);
        y := ShiftOccurrence([t[k]], ReplaceFrom(t, s, rep, k + 1), w, z);
      }
    }
  }

  /**
   * Text that starts with '<' and that no '<' of which can start the tag
   * `s` survives replacing `s`.
   */
  lemma ReplaceAllKeepsShielded(t: string, s: string, rep: string, w: string, x: nat)
    returns (y: int)
    requires IsTag(s) && |w| >= 1 && w[0] == '<' && Shields(w, s) && OccursAt(t, w, x)
    ensures OccursAt(ReplaceAll(t, s, rep), w, y)
  {
    y := KeepsShieldedFrom(t, s, rep, w, x, 0);
  }

  /** The scan from any `k` up to an occurrence of tag `s` at `x` writes `rep` for it; `y` is where. */
  lemma {:induction false} RewritesTagFrom(t: string, s: string, rep: string, x: nat, k: nat)
    returns (y: int)
    requires IsTag(s) && OccursAt(t, s, x) && k <= x
    decreases x - k
    ensures OccursAt(ReplaceFrom(t, s, rep, k), rep, y)
  {
    ScanStep(t, s, rep, k);
    if k == x {
      OccursInConcat(rep, ReplaceFrom(t, s, rep, x + |s|), rep, 0, 0);
      y := 0;
    } else if OccursAt(t, s, k) {
      NoAngleInside(t, s, k, x);
      StartsWithAngle(t, s, x);
      var z := RewritesTagFrom(t, s, rep, x, k + |s|);
      y := ShiftOccurrence(rep, ReplaceFrom(t, s, rep, k + |s|), rep, z);
    } else {
      var z := RewritesTagFrom(t, s, rep, x, k + 1);
      y := ShiftOccurrence([t[k]], ReplaceFrom(t, s, rep, k + 1), rep, z);
    }
  }

  /** Every occurrence of a tag `s` is rewritten: where `s` occurs, `rep` occurs afterwards. */
  lemma ReplaceAllRewritesTag(t: string, s: string, rep: string, x: nat)
    returns (y: int)
    requires IsTag(s) && OccursAt(t, s, x)
    ensures OccursAt(ReplaceAll(t, s, rep), rep, y)
  {
    y := RewritesTagFrom(t, s, rep, x, 0);
  }

  // ---------------------------------------------------------------------
  // BlreEventsManager
  // ---------------------------------------------------------------------

  /** What bind stores for an event: the callback and the data bound with it. */
  datatype Binding<!D> = Binding(callback: (D, D) -> D, data: D)

  datatype EventError = Unbound(event: string)

  /** Calling the bound callback with the trigger's data and the bound data. */
  function TriggerIn<D>(events: map<string, Binding<D>>, e: string, data: D): (r: Result<D, EventError>)
    ensures r.Ok? <==> e in events
    ensures e in events ==> r.value == events[e].callback(data, events[e].data)
  {
    if e in events then Ok(events[e].callback(data, events[e].data)) else Err(Unbound(e))
  }

  /** After binding `e`, triggering `e` calls the new callback with the new data; every other event behaves as before. */
  lemma BindThenTrigger<D>(events: map<string, Binding<D>>, e: string, b: Binding<D>, e2: string, data: D)
    ensures TriggerIn(events[e := b], e, data) == Ok(b.callback(data, b.data))
    ensures e2 != e ==> TriggerIn(events[e := b], e2, data) == TriggerIn(events, e2, data)
  {
  }

  /** The registry after the binds of `hist`, in order, on top of `events`: what a sequence of Bind calls leaves. */
  function BindAll<D>(events: map<string, Binding<D>>, hist: seq<(string, Binding<D>)>): map<string, Binding<D>>
  {
    if hist == [] then events
    else BindAll(events, hist[..|hist| - 1])[hist[|hist| - 1].0 := hist[|hist| - 1].1]
  }

  /** The binding of the last bind of `e` in `hist`, if any. */
  function LastBinding<D>(hist: seq<(string, Binding<D>)>, e: string): Option<Binding<D>>
  {
    if hist == [] then None
    else if hist[|hist| - 1].0 == e then Some(hist[|hist| - 1].1)
    else LastBinding(hist[..|hist| - 1], e)
  }

  /** After a history of binds, an event exists exactly when it existed before or some bind named it. */
  lemma {:induction false} BindAllExists<D>(events: map<string, Binding<D>>, hist: seq<(string, Binding<D>)>, e: string)
    ensures e in BindAll(events, hist) <==> e in events || exists k :: 0 <= k < |hist| && hist[k].0 == e
  {
    if hist != [] {
      var init := hist[..|hist| - 1];
      BindAllExists(events, init, e);
      if e in BindAll(events, hist) && e !in events && hist[|hist| - 1].0 != e {
        var k :| 0 <= k < |init| && init[k].0 == e;
        assert hist[k] == init[k];
      }
      if exists k :: 0 <= k < |hist| && hist[k].0 == e {
        var k :| 0 <= k < |hist| && hist[k].0 == e;
        if k < |init| { assert init[k] == hist[k]; }
      }
    }
  }

  /**
   * After a history of binds, triggering an event calls the callback of its
   * last bind with that bind's data; an event no bind named triggers as before.
   */
  lemma {:induction false} BindAllTrigger<D>(events: map<string, Binding<D>>, hist: seq<(string, Binding<D>)>, e: string, data: D)
    ensures var b := LastBinding(hist, e);
            && (b.Some? ==> TriggerIn(BindAll(events, hist), e, data) == Ok(b.value.callback(data, b.value.data)))
            && (b.None? ==> TriggerIn(BindAll(events, hist), e, data) == TriggerIn(events, e, data))
  {
    if hist != [] {
      BindAllTrigger(events, hist[..|hist| - 1], e, data);
    }
  }

  /** The last bind of `e` is one of the binds of `e` in the history, and no later bind names `e`. */
  lemma {:induction false} LastBindingIsLast<D>(hist: seq<(string, Binding<D>)>, e: string) returns (k: nat)
    requires LastBinding(hist, e).Some?
    ensures k < |hist| && hist[k] == (e, LastBinding(hist, e).value)
    ensures forall j :: k < j < |hist| ==> hist[j].0 != e
  {
    if hist[|hist| - 1].0 == e {
      k := |hist| - 1;
    } else {
      var init := hist[..|hist| - 1];
      k := LastBindingIsLast(init, e);
      assert hist[k] == init[k];
      forall j | k < j < |hist| ensures hist[j].0 != e {
        if j < |init| { assert hist[j] == init[j]; }
      }
    }
  }

  class EventsManager<D> {
    var events: map<string, Binding<D>>

    constructor()
      ensures events == map[]
    {
      events := map[];
    }

    /** Stores one handler for `e`, replacing any previous one. */
    method Bind(e: string, callback: (D, D) -> D, data: D)
      modifies this
      ensures events == old(events)[e := Binding(callback, data)]
      ensures forall e2 :: e2 != e ==> (e2 in events <==> e2 in old(events))
    {
      events := events[e := Binding(callback, data)];
    }

    /** The bound callback's result; an unbound event is a TypeError in the source. */
    function Trigger(e: string, data: D): (r: Result<D, EventError>)
      reads this
      ensures r.Ok? <==> Exists(e)
      ensures r.Ok? ==> r.value == events[e].callback(data, events[e].data)
    {
      TriggerIn(events, e, data)
    }

    function Exists(e: string): (b: bool)
      reads this
      ensures b <==> e in events
    {
      e in events
    }
  }
}
