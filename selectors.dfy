/**
 * Selector matching of BlreCompositeLeafNode.is
 * (RescueEditor/js/persistance/composite.js), stated over the chain of
 * global ids that starts at the node itself and climbs to the root.
 */
module Selectors {
  import opened Wrappers

  /**
   * One element of a selector array: an optional `gId` and the `isParent`
   * flag (strict "is the next one up" instead of loose "is some ancestor").
   */
  datatype Criterion = Criterion(gId: Option<int>, isParent: bool)

  type Selector = seq<Criterion>

  /** The single gId matcher: a missing or zero (falsy) gId matches any node. */
  predicate CriterionMatches(c: Criterion, id: int)
  {
    c.gId.None? || c.gId.value == 0 || id == c.gId.value
  }

  /** `{gId: x}` */
  function ById(x: int): Criterion
  {
    Criterion(Some(x), false)
  }

  /** `{gId: x, isParent: true}` */
  function ParentById(x: int): Criterion
  {
    Criterion(Some(x), true)
  }

  /** `{}`: the default selector element of ancestors and ancestor. */
  const AnyNode: Criterion := Criterion(None, false)

  /** The write `is` performs before matching: the last criterion is made strict. */
  function MarkLast(sel: Selector): (r: Selector)
    requires sel != []
    ensures |r| == |sel| && r[|r| - 1].isParent
    ensures forall k :: 0 <= k < |sel| ==> r[k].gId == sel[k].gId
    ensures forall k :: 0 <= k < |sel| - 1 ==> r[k] == sel[k]
  {
    sel[..|sel| - 1] + [sel[|sel| - 1].(isParent := true)]
  }

  /** The first position at or after `cur` whose id the criterion matches. */
  function FirstFrom(chain: seq<int>, c: Criterion, cur: nat): (r: Option<nat>)
    decreases |chain| - cur
    ensures r.Some? ==> cur <= r.value < |chain| && CriterionMatches(c, chain[r.value])
    ensures r.Some? ==> forall k :: cur <= k < r.value ==> !CriterionMatches(c, chain[k])
    ensures r.None? ==> forall k :: cur <= k < |chain| ==> !CriterionMatches(c, chain[k])
  {
    if cur >= |chain| then None
    else if CriterionMatches(c, chain[cur]) then Some(cur)
    else FirstFrom(chain, c, cur + 1)
  }

  /**
   * The cursor loop of `is`, as written: criteria are taken from index `i`
   * down to 0 with the cursor `cur` on the chain. None stands for the
   * TypeError raised when a strict criterion reads past the chain's end.
   */
  function GreedyAsWritten(chain: seq<int>, sel: Selector, i: int, cur: nat): (r: Option<bool>)
    requires -1 <= i < |sel|
    decreases i + 1
  {
    if i < 0 then Some(true)
    else if sel[i].isParent then
      if cur >= |chain| then None
      else if !CriterionMatches(sel[i], chain[cur]) then Some(false)
      else GreedyAsWritten(chain, sel, i - 1, cur + 1)
    else
      match FirstFrom(chain, sel[i], cur)
      case None => Some(false)
      case Some(k) => GreedyAsWritten(chain, sel, i - 1, k + 1)
  }

  /** `is` as written: None when it throws (an empty selector fails at the write of line 100). */
  function MatchAsWritten(chain: seq<int>, sel: Selector): (r: Option<bool>)
  {
    if sel == [] then None else GreedyAsWritten(chain, MarkLast(sel), |sel| - 1, 0)
  }

  /** The cursor loop with a bounds guard: a strict criterion past the chain's end does not match. */
  function Greedy(chain: seq<int>, sel: Selector, i: int, cur: nat): (b: bool)
    requires -1 <= i < |sel|
    decreases i + 1
  {
    if i < 0 then true
    else if sel[i].isParent then
      cur < |chain| && CriterionMatches(sel[i], chain[cur]) && Greedy(chain, sel, i - 1, cur + 1)
    else
      match FirstFrom(chain, sel[i], cur)
      case None => false
      case Some(k) => Greedy(chain, sel, i - 1, k + 1)
  }

  /** `is` with both crashes removed: the empty selector matches every node. */
  function Matches(chain: seq<int>, sel: Selector): bool
  {
    sel == [] || Greedy(chain, MarkLast(sel), |sel| - 1, 0)
  }

  /** One turn of the guarded loop. */
  lemma GreedyStep(chain: seq<int>, sel: Selector, i: int, cur: nat)
    requires 0 <= i < |sel|
    ensures sel[i].isParent ==>
              Greedy(chain, sel, i, cur) == (cur < |chain| && CriterionMatches(sel[i], chain[cur]) && Greedy(chain, sel, i - 1, cur + 1))
    ensures !sel[i].isParent ==>
              Greedy(chain, sel, i, cur) == (FirstFrom(chain, sel[i], cur).Some? && Greedy(chain, sel, i - 1, FirstFrom(chain, sel[i], cur).value + 1))
  {
  }

  /** Where the guarded loop and the loop as written both give an answer, they agree. */
  lemma {:induction false} GreedyAgrees(chain: seq<int>, sel: Selector, i: int, cur: nat)
    requires -1 <= i < |sel|
    decreases i + 1
    ensures GreedyAsWritten(chain, sel, i, cur).Some? ==> GreedyAsWritten(chain, sel, i, cur).value == Greedy(chain, sel, i, cur)
  {
    if i >= 0 {
      if sel[i].isParent {
        if cur < |chain| && CriterionMatches(sel[i], chain[cur]) {
          GreedyAgrees(chain, sel, i - 1, cur + 1);
        }
      } else {
        var f := FirstFrom(chain, sel[i], cur);
        if f.Some? {
          GreedyAgrees(chain, sel, i - 1, f.value + 1);
        }
      }
    }
  }

  /** The corrected matcher only changes the answer where the source throws. */
  lemma MatchesAgrees(chain: seq<int>, sel: Selector)
    ensures MatchAsWritten(chain, sel).Some? ==> MatchAsWritten(chain, sel).value == Matches(chain, sel)
  {
    if sel != [] {
      GreedyAgrees(chain, MarkLast(sel), |sel| - 1, 0);
    }
  }

  /** The loop as written throws on an empty selector. */
  lemma EmptySelectorThrows(chain: seq<int>)
    ensures MatchAsWritten(chain, []) == None
    ensures Matches(chain, [])
  {
  }

  /**
   * The loop as written throws on a root node with id 2 for
   * `[{gId: 1, isParent: true}, {gId: 2}]`: after the node itself is matched
   * the strict criterion reads the missing parent.
   */
  lemma StrictPastRootThrows()
    ensures MatchAsWritten([2], [ParentById(1), ById(2)]) == None
    ensures !Matches([2], [ParentById(1), ById(2)])
  {
    var s := MarkLast([ParentById(1), ById(2)]);
    assert s == [ParentById(1), ParentById(2)];
    assert GreedyAsWritten([2], s, 0, 1) == None;
  }

  /** Writing the mark again changes nothing: the write of line 100 is idempotent for later calls. */
  lemma MarkLastIdempotent(chain: seq<int>, sel: Selector)
    requires sel != []
    ensures MarkLast(MarkLast(sel)) == MarkLast(sel)
    ensures Matches(chain, MarkLast(sel)) == Matches(chain, sel)
  {
    var m := MarkLast(sel);
    assert m[..|m| - 1] == sel[..|sel| - 1];
  }

  // ---------------------------------------------------------------------
  // What a match means: an embedding of the selector into the chain
  // ---------------------------------------------------------------------

  /**
   * `pos[j]` is the chain position criterion `j` (for `j <= i`) is matched
   * to: every criterion matches its position; criterion `i` is at `cur` when
   * strict and at or above it otherwise; each lower criterion is the next one
   * up (strict) or somewhere above (loose) the one after it.
   */
  predicate EmbedFrom(chain: seq<int>, sel: Selector, i: int, cur: nat, pos: seq<nat>)
    requires -1 <= i < |sel|
  {
    && |pos| == i + 1
    && (forall j :: 0 <= j <= i ==> pos[j] < |chain| && CriterionMatches(sel[j], chain[pos[j]]))
    && (0 <= i ==> if sel[i].isParent then pos[i] == cur else pos[i] >= cur)
    && (forall j :: 0 <= j < i ==> if sel[j].isParent then pos[j] == pos[j + 1] + 1 else pos[j] > pos[j + 1])
  }

  /** A whole-selector embedding: the last criterion is the node itself. */
  predicate Embedding(chain: seq<int>, sel: Selector, pos: seq<nat>)
  {
    sel != [] && EmbedFrom(chain, MarkLast(sel), |sel| - 1, 0, pos)
  }

  /** Whatever the greedy loop accepts is an embedding (soundness), with the witness returned. */
  lemma {:induction false} GreedySound(chain: seq<int>, sel: Selector, i: int, cur: nat) returns (pos: seq<nat>)
    requires -1 <= i < |sel|
    requires Greedy(chain, sel, i, cur)
    decreases i + 1
    ensures EmbedFrom(chain, sel, i, cur, pos)
  {
    if i < 0 {
      pos := [];
    } else {
      var next: nat;
      if sel[i].isParent {
        next := cur;
      } else {
        next := FirstFrom(chain, sel[i], cur).value;
      }
      var rest := GreedySound(chain, sel, i - 1, next + 1);
      pos := rest + [next];
      assert pos[i] == next;
      forall j | 0 <= j < i
        ensures pos[j] == rest[j]
      {
      }
    }
  }

  /** Every selector `is` accepts embeds into the chain. */
  lemma MatchesSound(chain: seq<int>, sel: Selector) returns (pos: seq<nat>)
    requires sel != [] && Matches(chain, sel)
    ensures Embedding(chain, sel, pos)
  {
    pos := GreedySound(chain, MarkLast(sel), |sel| - 1, 0);
  }

  /**
   * With only loose criteria from `i` down, the leftmost choice is never
   * worse: if any embedding exists, the greedy loop finds one.
   */
  lemma {:induction false} GreedyCompleteLoose(chain: seq<int>, sel: Selector, i: int, cur: nat, pos: seq<nat>)
    requires -1 <= i < |sel|
    requires forall j :: 0 <= j <= i ==> !sel[j].isParent
    requires EmbedFrom(chain, sel, i, cur, pos)
    decreases i + 1
    ensures Greedy(chain, sel, i, cur)
  {
    if i >= 0 {
      var f := FirstFrom(chain, sel[i], cur);
      assert f.Some? by {
        assert cur <= pos[i] < |chain| && CriterionMatches(sel[i], chain[pos[i]]);
      }
      var k := f.value;
      assert k <= pos[i];
      var rest := pos[..i];
      assert EmbedFrom(chain, sel, i - 1, k + 1, rest) by {
        forall j | 0 <= j < i
          ensures rest[j] == pos[j]
        {
        }
        if i > 0 {
          assert rest[i - 1] == pos[i - 1] > pos[i];
        }
      }
      GreedyCompleteLoose(chain, sel, i - 1, k + 1, rest);
    }
  }

  /**
   * For a selector whose criteria before the last are all loose ancestor
   * criteria, `is` holds exactly when the selector embeds into the chain.
   */
  lemma MatchesCompleteLoose(chain: seq<int>, sel: Selector, pos: seq<nat>)
    requires sel != [] && forall j :: 0 <= j < |sel| - 1 ==> !sel[j].isParent
    requires Embedding(chain, sel, pos)
    ensures Matches(chain, sel)
  {
    var s := MarkLast(sel);
    var n := |sel| - 1;
    assert pos[n] == 0 && CriterionMatches(s[n], chain[0]);
    var rest := pos[..n];
    assert EmbedFrom(chain, s, n - 1, 1, rest) by {
      forall j | 0 <= j < n
        ensures rest[j] == pos[j]
      {
      }
      if n > 0 {
        assert rest[n - 1] == pos[n - 1] > pos[n];
      }
    }
    GreedyCompleteLoose(chain, s, n - 1, 1, rest);
  }

  /**
   * A strict criterion after a loose one can be missed: on the chain
   * 3, 2, 9, 2, 1 (node first), `[{gId: 1, isParent: true}, {gId: 2}, {gId: 3}]`
   * embeds (the 2 at position 3 has parent 1) but the loop commits to the
   * nearest 2 and answers false.
   */
  lemma GreedyMissesStrictAfterLoose()
    ensures Embedding([3, 2, 9, 2, 1], [ParentById(1), ById(2), ById(3)], [4, 3, 0])
    ensures !Matches([3, 2, 9, 2, 1], [ParentById(1), ById(2), ById(3)])
  {
    var chain := [3, 2, 9, 2, 1];
    var s := MarkLast([ParentById(1), ById(2), ById(3)]);
    assert s == [ParentById(1), ById(2), ParentById(3)];
    assert FirstFrom(chain, ById(2), 1) == Some(1);
    assert !Greedy(chain, s, 0, 2);
  }

  // ---------------------------------------------------------------------
  // The behaviour the doc comment of `is` describes
  // ---------------------------------------------------------------------

  /** `[{gId: x}]` matches exactly the node whose id is x (for a non-zero x). */
  lemma SingleIdSelector(chain: seq<int>, x: int)
    requires chain != [] && x != 0
    ensures Matches(chain, [ById(x)]) <==> chain[0] == x
  {
    assert MarkLast([ById(x)]) == [ParentById(x)];
  }

  /** A criterion without a gId matches any node: `[{}]`, the default of ancestors, always holds. */
  lemma AnySelectorMatches(chain: seq<int>)
    requires chain != []
    ensures Matches(chain, [AnyNode])
  {
    assert MarkLast([AnyNode]) == [Criterion(None, true)];
  }

  /** `[{gId: 0}]`: a zero gId is falsy, so the selector matches every node. */
  lemma ZeroIdSelector(chain: seq<int>)
    requires chain != []
    ensures Matches(chain, [ById(0)])
  {
    assert MarkLast([ById(0)]) == [ParentById(0)];
  }

  /**
   * On root(1) -> A(2) -> B(3), B's chain is 3, 2, 1: `[{gId:1},{gId:3}]`
   * matches B, `[{gId:1,isParent:true},{gId:3}]` does not, and
   * `[{gId:2,isParent:true},{gId:3}]` does.
   */
  lemma DocumentedExamples()
    ensures Matches([3, 2, 1], [ById(1), ById(3)])
    ensures !Matches([3, 2, 1], [ParentById(1), ById(3)])
    ensures Matches([3, 2, 1], [ParentById(2), ById(3)])
  {
    assert MarkLast([ById(1), ById(3)]) == [ById(1), ParentById(3)];
    assert FirstFrom([3, 2, 1], ById(1), 1) == Some(2);
    assert MarkLast([ParentById(1), ById(3)]) == [ParentById(1), ParentById(3)];
    assert MarkLast([ParentById(2), ById(3)]) == [ParentById(2), ParentById(3)];
  }

  /**
   * The loop of `is` on the ids of the node and its ancestors: criteria
   * from last to first, a cursor climbing the chain, with the two crashes
   * of the original answered as no match and match.
   */
  method MatchLoop(chain: seq<int>, sel: Selector) returns (b: bool)
    ensures b == Matches(chain, sel)
  {
    if sel == [] {
      return true;
    }
    var marked := MarkLast(sel);
    var cur: nat := 0;
    var i := |sel| - 1;
    while i >= 0
      invariant -1 <= i < |sel| && cur <= |chain|
      invariant Greedy(chain, marked, |sel| - 1, 0) == Greedy(chain, marked, i, cur)
      decreases i + 1
    {
      GreedyStep(chain, marked, i, cur);
      if marked[i].isParent {
        if cur >= |chain| || !CriterionMatches(marked[i], chain[cur]) {
          return false;
        }
      } else {
        ghost var from := cur;
        while cur < |chain| && !CriterionMatches(marked[i], chain[cur])
          invariant from <= cur <= |chain|
          invariant FirstFrom(chain, marked[i], cur) == FirstFrom(chain, marked[i], from)
        {
          cur := cur + 1;
        }
        if cur >= |chain| {
          return false;
        }
      }
      cur := cur + 1;
      i := i - 1;
    }
    return true;
  }
}
