/**
 * Searching in strings, as String.prototype.indexOf, lastIndexOf,
 * replace (with a string pattern) and trim do it.
 */
module Strings {
  import opened Wrappers

  /** `p` occurs in `t` starting at position `i`. */
  predicate OccursAt(t: string, p: string, i: int)
  {
    0 <= i && i + |p| <= |t| && t[i..i + |p|] == p
  }

  /** `p` occurs somewhere in `t`. */
  predicate Occurs(t: string, p: string)
  {
    exists i :: 0 <= i <= |t| && OccursAt(t, p, i)
  }

  /** The first position at or after `from` where `p` occurs in `t`. */
  function IndexOfFrom(t: string, p: string, from: nat): (r: Option<nat>)
    decreases |t| - from
    ensures r.Some? ==> from <= r.value && OccursAt(t, p, r.value)
  {
    if from + |p| > |t| then None
    else if t[from..from + |p|] == p then Some(from)
    else IndexOfFrom(t, p, from + 1)
  }

  /** IndexOfFrom finds the leftmost occurrence from `from` on, and answers None only when there is none. */
  lemma {:induction false} IndexOfFromLeftmost(t: string, p: string, from: nat)
    decreases |t| - from
    ensures var r := IndexOfFrom(t, p, from);
            && (r.Some? ==> forall k :: from <= k < r.value ==> !OccursAt(t, p, k))
            && (r.None? ==> forall k :: from <= k ==> !OccursAt(t, p, k))
  {
    if from + |p| <= |t| && t[from..from + |p|] != p {
      IndexOfFromLeftmost(t, p, from + 1);
    }
  }

  /** String.prototype.indexOf: the leftmost occurrence, if any. */
  function IndexOf(t: string, p: string): (r: Option<nat>)
    ensures r.Some? ==> OccursAt(t, p, r.value)
  {
    IndexOfFrom(t, p, 0)
  }

  /** indexOf answers the leftmost occurrence, and -1 (None) exactly when `p` does not occur. */
  lemma IndexOfSpec(t: string, p: string)
    ensures var r := IndexOf(t, p);
            && (r.Some? ==> forall k :: 0 <= k < r.value ==> !OccursAt(t, p, k))
            && (r.None? <==> !Occurs(t, p))
  {
    IndexOfFromLeftmost(t, p, 0);
  }

  /** The last position strictly before `upto` where `p` occurs in `t`. */
  function LastIndexBefore(t: string, p: string, upto: nat): (r: Option<nat>)
    ensures r.Some? ==> r.value < upto && OccursAt(t, p, r.value)
  {
    if upto == 0 then None
    else if OccursAt(t, p, upto - 1) then Some(upto - 1)
    else LastIndexBefore(t, p, upto - 1)
  }

  lemma {:induction false} LastIndexBeforeRightmost(t: string, p: string, upto: nat)
    ensures var r := LastIndexBefore(t, p, upto);
            && (r.Some? ==> forall k :: r.value < k < upto ==> !OccursAt(t, p, k))
            && (r.None? ==> forall k :: 0 <= k < upto ==> !OccursAt(t, p, k))
  {
    if upto > 0 && !OccursAt(t, p, upto - 1) {
      LastIndexBeforeRightmost(t, p, upto - 1);
    }
  }

  /** String.prototype.lastIndexOf: the rightmost occurrence, if any. */
  function LastIndexOf(t: string, p: string): (r: Option<nat>)
    ensures r.Some? ==> OccursAt(t, p, r.value)
  {
    LastIndexBefore(t, p, |t| + 1)
  }

  /** lastIndexOf answers the rightmost occurrence, and -1 (None) exactly when `p` does not occur. */
  lemma LastIndexOfSpec(t: string, p: string)
    ensures var r := LastIndexOf(t, p);
            && (r.Some? ==> forall k :: r.value < k ==> !OccursAt(t, p, k))
            && (r.None? <==> !Occurs(t, p))
  {
    LastIndexBeforeRightmost(t, p, |t| + 1);
  }

  /**
   * The GetSubstitution step of ECMAScript's String.prototype.replace, for a
   * match without capture groups: in the replacement, `$$` stands for `$`,
   * `$&` for the matched text, `` $` `` for the text before the match and
   * `$'` for the text after it. Every other character, `$` included, is
   * copied (with no groups, `$1` and `$<` stay as they are).
   */
  function Substitution(rep: string, matched: string, before: string, after: string): (r: string)
    decreases |rep|
  {
    if |rep| >= 2 && rep[0] == '$' && rep[1] == '$' then "$" + Substitution(rep[2..], matched, before, after)
    else if |rep| >= 2 && rep[0] == '$' && rep[1] == '&' then matched + Substitution(rep[2..], matched, before, after)
    else if |rep| >= 2 && rep[0] == '$' && rep[1] == '`' then before + Substitution(rep[2..], matched, before, after)
    else if |rep| >= 2 && rep[0] == '$' && rep[1] == '\'' then after + Substitution(rep[2..], matched, before, after)
    else if rep == [] then []
    else [rep[0]] + Substitution(rep[1..], matched, before, after)
  }

  /** A `$` pattern starts at position `k` of the replacement. */
  predicate DollarPatternAt(rep: string, k: int)
  {
    0 <= k && k + 1 < |rep| && rep[k] == '$' && (rep[k + 1] == '$' || rep[k + 1] == '&' || rep[k + 1] == '`' || rep[k + 1] == '\'')
  }

  /** A replacement without `$$`, `$&`, `` $` `` or `$'`. */
  predicate Plain(rep: string)
  {
    forall k :: 0 <= k < |rep| ==> !DollarPatternAt(rep, k)
  }

  /** Text without a `$` holds no `$` pattern. */
  lemma DollarFreePlain(rep: string)
    requires '$' !in rep
    ensures Plain(rep)
  {
  }

  /** A plain replacement is inserted as it is. */
  lemma {:induction false} SubstitutionPlain(rep: string, matched: string, before: string, after: string)
    requires Plain(rep)
    decreases |rep|
    ensures Substitution(rep, matched, before, after) == rep
  {
    if rep != [] {
      assert !DollarPatternAt(rep, 0);
      var tail := rep[1..];
      forall k | 0 <= k < |tail| ensures !DollarPatternAt(tail, k) {
        assert !DollarPatternAt(rep, k + 1);
      }
      SubstitutionPlain(tail, matched, before, after);
      assert rep == [rep[0]] + tail;
    }
  }

  /** Each of the four patterns expands to what it stands for. */
  lemma SubstitutionPatterns(matched: string, before: string, after: string)
    ensures Substitution("$$", matched, before, after) == "$"
    ensures Substitution("$&", matched, before, after) == matched
    ensures Substitution("$`", matched, before, after) == before
    ensures Substitution("$'", matched, before, after) == after
  {
    assert "$$"[2..] == [] && "$&"[2..] == [] && "$`"[2..] == [] && "$'"[2..] == [];
  }

  /** The text with `t[i..i + |p|]`, a match of `p`, replaced by the expansion of `rep`. */
  function ReplacedAt(t: string, p: string, rep: string, i: nat): string
    requires i + |p| <= |t|
  {
    t[..i] + Substitution(rep, p, t[..i], t[i + |p|..]) + t[i + |p|..]
  }

  /**
   * String.prototype.replace with a string pattern: only the leftmost
   * occurrence is replaced, by the replacement with its `$` patterns
   * expanded.
   */
  function ReplaceFirst(t: string, p: string, rep: string): (r: string)
    ensures !Occurs(t, p) ==> r == t
    ensures Occurs(t, p) ==> exists i :: OccursAt(t, p, i) && (forall k :: 0 <= k < i ==> !OccursAt(t, p, k))
                                            && r == ReplacedAt(t, p, rep, i)
  {
    IndexOfSpec(t, p);
    match IndexOf(t, p)
    case None => t
    case Some(i) => ReplacedAt(t, p, rep, i)
  }

  /**
   * The characters String.prototype.trim removes: the WhiteSpace and
   * LineTerminator code points of ECMAScript (sections 12.2 and 12.3).
   */
  predicate IsJsSpace(c: char)
  {
    c == '\t' || c == '\n' || c == '\U{000B}' || c == '\U{000C}' || c == '\r' || c == ' '
    || c == '\U{00A0}' || c == '\U{1680}' || ('\U{2000}' <= c <= '\U{200A}')
    || c == '\U{2028}' || c == '\U{2029}' || c == '\U{202F}' || c == '\U{205F}'
    || c == '\U{3000}' || c == '\U{FEFF}'
  }

  predicate AllSpace(s: string)
  {
    forall k :: 0 <= k < |s| ==> IsJsSpace(s[k])
  }

  /** The number of white-space characters `s` starts with. */
  function LeadingSpaces(s: string): (n: nat)
    ensures n <= |s| && AllSpace(s[..n])
    ensures n < |s| ==> !IsJsSpace(s[n])
  {
    if s != [] && IsJsSpace(s[0]) then
      var n := 1 + LeadingSpaces(s[1..]);
      assert s[..n] == [s[0]] + s[1..][..n - 1];
      n
    else 0
  }

  /** The number of white-space characters `s` ends with. */
  function TrailingSpaces(s: string): (n: nat)
    ensures n <= |s| && AllSpace(s[|s| - n..])
    ensures n < |s| ==> !IsJsSpace(s[|s| - 1 - n])
  {
    if s != [] && IsJsSpace(s[|s| - 1]) then
      var n := 1 + TrailingSpaces(s[..|s| - 1]);
      assert s[|s| - n..] == s[..|s| - 1][|s| - n..] + [s[|s| - 1]];
      n
    else 0
  }

  /**
   * String.prototype.trim: the slice of `s` left once the leading and the
   * trailing white space are removed.
   */
  function Trim(s: string): (r: string)
    ensures |r| <= |s| - LeadingSpaces(s)
    ensures r == s[LeadingSpaces(s)..LeadingSpaces(s) + |r|]
    ensures AllSpace(s[LeadingSpaces(s) + |r|..])
    ensures r != [] ==> !IsJsSpace(r[0]) && !IsJsSpace(r[|r| - 1])
  {
    var i := LeadingSpaces(s);
    if i == |s| then []
    else
      var j := |s| - TrailingSpaces(s);
      s[i..j]
  }

  /** Text that neither starts nor ends with white space is its own trim. */
  lemma TrimOfTrimmed(s: string)
    requires s != [] ==> !IsJsSpace(s[0]) && !IsJsSpace(s[|s| - 1])
    ensures Trim(s) == s
  {
    if s != [] {
      assert LeadingSpaces(s) == 0 && TrailingSpaces(s) == 0;
      assert s[0..|s|] == s;
    }
  }

  /** An occurrence inside a slice is an occurrence in the whole text. */
  lemma OccursInSlice(t: string, p: string, i: nat, j: nat, x: int)
    requires i <= j <= |t| && OccursAt(t[i..j], p, x)
    ensures OccursAt(t, p, i + x)
  {
    forall k | 0 <= k < |p| ensures t[i + x + k] == p[k] {
      assert t[i..j][x..x + |p|][k] == p[k];
    }
  }
}
