/** The tail matcher `tailWithinOneEdit`: decides whether a leaf's stored
    suffix and the rest of the input are within the edits still affordable. */
module TailMatch {
  import opened EditDistance

  /** `tailWithinOneEdit(a, b, edits)`, where `a` is the dictionary leaf's
      suffix and `b` the remaining input. With the budget spent only an exact
      match passes; with it free, an equal-length pair passes on a single
      differing position or on a swap at the first mismatch, and a pair whose
      lengths differ by one passes the greedy skip-one scan. */
  function TailWithinOneEdit(a: string, b: string, edits: nat): bool {
    if edits > 1 then false
    else if edits == 1 then a == b
    else if a == b then true
    else if |a| == |b| then
      Mismatches(a, b, 0, 0) == 1 || SwapAtFirstMismatch(a, b, 0)
    else if |b| == |a| + 1 then GreedySkip(a, b, 0, 0, false)
    else if |a| == |b| + 1 then GreedySkip(b, a, 0, 0, false)
    else false
  }

  /** The counting loop: the number of differing positions from `i` on,
      added to `diff`, stopping as soon as the count passes one. */
  function Mismatches(a: string, b: string, i: nat, diff: nat): nat
    requires |a| == |b| && i <= |a|
    decreases |a| - i
  {
    if i == |a| then diff
    else if a[i] != b[i] then
      if diff + 1 > 1 then diff + 1 else Mismatches(a, b, i + 1, diff + 1)
    else Mismatches(a, b, i + 1, diff)
  }

  /** The transposition loop: at the first mismatch (which must leave room
      for a second letter) the two letters must be swapped and everything
      after them equal. */
  function SwapAtFirstMismatch(a: string, b: string, i: nat): bool
    requires |a| == |b| && i <= |a|
    decreases |a| - i
  {
    if i + 1 >= |a| then false
    else if a[i] != b[i] then a[i] == b[i + 1] && a[i + 1] == b[i] && a[i + 2..] == b[i + 2..]
    else SwapAtFirstMismatch(a, b, i + 1)
  }

  /** The insertion and deletion loops: walk the shorter string `s` and the
      longer `l` together and skip one letter of `l` at the first mismatch; a
      second mismatch fails. The deletion loop is this scan with the roles of
      the two tails exchanged. */
  function GreedySkip(s: string, l: string, i: nat, j: nat, skipped: bool): bool
    requires i <= |s| && j <= |l|
    decreases |s| - i + |l| - j
  {
    if i < |s| && j < |l| then
      if s[i] == l[j] then GreedySkip(s, l, i + 1, j + 1, skipped)
      else if !skipped then GreedySkip(s, l, i, j + 1, true)
      else false
    else true
  }

  // ---------------------------------------------------------------------
  // The counting loop finds exactly one mismatch.

  ghost predicate OnlyMismatchAt(a: string, b: string, i: nat, k: nat)
    requires |a| == |b| && i <= k < |a|
  {
    a[i..k] == b[i..k] && a[k] != b[k] && a[k + 1..] == b[k + 1..]
  }

  lemma {:induction false} MismatchesAfterOne(a: string, b: string, i: nat)
    requires |a| == |b| && i <= |a|
    ensures Mismatches(a, b, i, 1) == 1 <==> a[i..] == b[i..]
    decreases |a| - i
  {
    if i < |a| {
      MismatchesAfterOne(a, b, i + 1);
      assert a[i..] == [a[i]] + a[i + 1..];
      assert b[i..] == [b[i]] + b[i + 1..];
    }
  }

  lemma {:induction false} MismatchesOne(a: string, b: string, i: nat)
    requires |a| == |b| && i <= |a|
    ensures Mismatches(a, b, i, 0) == 1 <==> exists k :: i <= k < |a| && OnlyMismatchAt(a, b, i, k)
    decreases |a| - i
  {
    if i < |a| {
      if a[i] != b[i] {
        MismatchesAfterOne(a, b, i + 1);
        if Mismatches(a, b, i, 0) == 1 {
          assert OnlyMismatchAt(a, b, i, i);
        }
      } else {
        var j := i + 1;
        MismatchesOne(a, b, j);
        if exists k :: j <= k < |a| && OnlyMismatchAt(a, b, j, k) {
          var k :| j <= k < |a| && OnlyMismatchAt(a, b, j, k);
          assert a[i..k] == [a[i]] + a[i + 1..k];
          assert b[i..k] == [b[i]] + b[i + 1..k];
          assert OnlyMismatchAt(a, b, i, k);
        }
        if exists k :: i <= k < |a| && OnlyMismatchAt(a, b, i, k) {
          var k :| i <= k < |a| && OnlyMismatchAt(a, b, i, k);
          assert k != i;
          assert a[i + 1..k] == a[i..k][1..];
          assert b[i + 1..k] == b[i..k][1..];
          assert OnlyMismatchAt(a, b, i + 1, k);
        }
      }
    }
  }

  // ---------------------------------------------------------------------
  // The transposition loop.

  lemma {:induction false} SwapFound(a: string, b: string, i: nat, k: nat)
    requires |a| == |b| && i <= k && k + 1 < |a|
    requires a[i..k] == b[i..k] && a[k] != b[k]
    requires a[k] == b[k + 1] && a[k + 1] == b[k] && a[k + 2..] == b[k + 2..]
    ensures SwapAtFirstMismatch(a, b, i)
    decreases k - i
  {
    if i < k {
      assert a[i] == a[i..k][0] && b[i] == b[i..k][0];
      assert a[i + 1..k] == a[i..k][1..] && b[i + 1..k] == b[i..k][1..];
      SwapFound(a, b, i + 1, k);
    }
  }

  lemma {:induction false} SwapMeansEdit(a: string, b: string, i: nat)
    requires |a| == |b| && i <= |a| && a[..i] == b[..i]
    requires SwapAtFirstMismatch(a, b, i)
    ensures WithinOneEdit(a, b)
    decreases |a| - i
  {
    if a[i] != b[i] {
      assert a == a[..i] + [a[i], a[i + 1]] + a[i + 2..];
      assert b == b[..i] + [b[i], b[i + 1]] + b[i + 2..];
      EditHere(a[..i], [a[i], a[i + 1]], [b[i], b[i + 1]], a[i + 2..]);
    } else {
      assert a[..i + 1] == a[..i] + [a[i]];
      assert b[..i + 1] == b[..i] + [b[i]];
      SwapMeansEdit(a, b, i + 1);
    }
  }

  // ---------------------------------------------------------------------
  // The skip-one scan.

  lemma {:induction false} SkippedScan(s: string, l: string, i: nat, j: nat)
    requires i <= |s| && j <= |l| && |l| - j == |s| - i
    ensures GreedySkip(s, l, i, j, true) <==> s[i..] == l[j..]
    decreases |s| - i
  {
    if i < |s| {
      SkippedScan(s, l, i + 1, j + 1);
      assert s[i..] == [s[i]] + s[i + 1..];
      assert l[j..] == [l[j]] + l[j + 1..];
    }
  }

  ghost predicate DropAt(s: string, l: string, i: nat, k: nat)
    requires i <= k < |l| && i <= |s|
  {
    s[i..] == l[i..k] + l[k + 1..]
  }

  lemma {:induction false} UnskippedScan(s: string, l: string, i: nat)
    requires |l| == |s| + 1 && i <= |s|
    ensures GreedySkip(s, l, i, i, false) <==> exists k :: i <= k < |l| && DropAt(s, l, i, k)
    decreases |s| - i, 1
  {
    if i == |s| {
      assert DropAt(s, l, i, |s|);
    } else if s[i] == l[i] {
      UnskippedMatch(s, l, i);
    } else {
      UnskippedMismatch(s, l, i);
    }
  }

  lemma {:induction false} UnskippedMatch(s: string, l: string, i: nat)
    requires |l| == |s| + 1 && i < |s| && s[i] == l[i]
    ensures GreedySkip(s, l, i, i, false) <==> exists k :: i <= k < |l| && DropAt(s, l, i, k)
    decreases |s| - i, 0
  {
    var j := i + 1;
    UnskippedScan(s, l, j);
    assert GreedySkip(s, l, i, i, false) == GreedySkip(s, l, j, j, false);
    if exists k :: j <= k < |l| && DropAt(s, l, j, k) {
      var k :| j <= k < |l| && DropAt(s, l, j, k);
      DropStep(s, l, i, k);
    }
    if exists k :: i <= k < |l| && DropAt(s, l, i, k) {
      var k :| i <= k < |l| && DropAt(s, l, i, k);
      if k == i {
        DropShift(s, l, i);
      } else {
        DropStep(s, l, i, k);
      }
    }
  }

  /** Past a common letter, dropping `l[k]` works from `i` iff from `i + 1`. */
  lemma DropStep(s: string, l: string, i: nat, k: nat)
    requires i < k < |l| && i < |s| && s[i] == l[i]
    ensures DropAt(s, l, i, k) <==> DropAt(s, l, i + 1, k)
  {
    assert l[i..k] == [l[i]] + l[i + 1..k];
    assert s[i..] == [s[i]] + s[i + 1..];
  }

  /** Dropping the first letter of a run can be moved one place along. */
  lemma DropShift(s: string, l: string, i: nat)
    requires i < |s| && |l| == |s| + 1 && s[i] == l[i] && DropAt(s, l, i, i)
    ensures DropAt(s, l, i + 1, i + 1)
  {
    assert s[i..] == l[i + 1..];
    assert s[i] == l[i + 1];
    assert s[i + 1..] == s[i..][1..];
    assert l[i + 1..i + 1] + l[i + 2..] == l[i + 1..][1..];
  }

  lemma UnskippedMismatch(s: string, l: string, i: nat)
    requires |l| == |s| + 1 && i < |s| && s[i] != l[i]
    ensures GreedySkip(s, l, i, i, false) <==> exists k :: i <= k < |l| && DropAt(s, l, i, k)
  {
    SkippedScan(s, l, i, i + 1);
    assert DropAt(s, l, i, i) <==> s[i..] == l[i + 1..];
  }

  /** The skip-one scan accepts exactly the pairs where the longer string is
      the shorter with one letter inserted. */
  lemma GreedySkipSpec(s: string, l: string)
    requires |l| == |s| + 1
    ensures GreedySkip(s, l, 0, 0, false) <==> WithinOneEdit(s, l)
  {
    UnskippedScan(s, l, 0);
    if GreedySkip(s, l, 0, 0, false) {
      var k :| 0 <= k < |l| && DropAt(s, l, 0, k);
      DropIsEdit(s, l, k);
    }
    if WithinOneEdit(s, l) {
      EditIsDrop(s, l);
    }
  }

  lemma DropIsEdit(s: string, l: string, k: nat)
    requires k < |l| && DropAt(s, l, 0, k)
    ensures WithinOneEdit(s, l)
  {
    assert s == l[..k] + [] + l[k + 1..];
    assert l == l[..k] + [l[k]] + l[k + 1..];
    EditHere(l[..k], [], [l[k]], l[k + 1..]);
  }

  lemma EditIsDrop(s: string, l: string)
    requires |l| == |s| + 1 && WithinOneEdit(s, l)
    ensures exists k :: 0 <= k < |l| && DropAt(s, l, 0, k)
  {
    var u, x, y, v :| EditAt(s, l, u, x, y, v);
    assert |x| == 0 && |y| == 1;
    assert l[..|u|] == u && l[|u| + 1..] == v;
    assert DropAt(s, l, 0, |u|);
  }

  /** For equal lengths, one edit is a substitution or an adjacent swap. */
  lemma EqualLengthSpec(a: string, b: string)
    requires |a| == |b| && a != b
    ensures (Mismatches(a, b, 0, 0) == 1 || SwapAtFirstMismatch(a, b, 0)) <==> WithinOneEdit(a, b)
  {
    if Mismatches(a, b, 0, 0) == 1 {
      SubstitutionIsEdit(a, b);
    }
    if SwapAtFirstMismatch(a, b, 0) {
      SwapMeansEdit(a, b, 0);
    }
    if WithinOneEdit(a, b) {
      EditIsSubstitutionOrSwap(a, b);
    }
  }

  lemma SubstitutionIsEdit(a: string, b: string)
    requires |a| == |b| && Mismatches(a, b, 0, 0) == 1
    ensures WithinOneEdit(a, b)
  {
    MismatchesOne(a, b, 0);
    var k :| 0 <= k < |a| && OnlyMismatchAt(a, b, 0, k);
    assert a[..k] == a[0..k] && b[..k] == b[0..k];
    SubstituteAt(a, b, k);
  }

  lemma SubstituteAt(a: string, b: string, k: nat)
    requires |a| == |b| && k < |a| && a[..k] == b[..k] && a[k + 1..] == b[k + 1..]
    ensures WithinOneEdit(a, b)
  {
    assert a == a[..k] + [a[k]] + a[k + 1..];
    assert b == a[..k] + [b[k]] + a[k + 1..];
    EditHere(a[..k], [a[k]], [b[k]], a[k + 1..]);
  }

  lemma EditIsSubstitutionOrSwap(a: string, b: string)
    requires |a| == |b| && a != b && WithinOneEdit(a, b)
    ensures Mismatches(a, b, 0, 0) == 1 || SwapAtFirstMismatch(a, b, 0)
  {
    var u, x, y, v :| EditAt(a, b, u, x, y, v);
    if |x| == 1 {
      SubstitutionCounted(a, b, u, x, y, v);
    } else {
      SwapDetected(a, b, u, x, y, v);
    }
  }

  lemma SubstitutionCounted(a: string, b: string, u: string, x: string, y: string, v: string)
    requires EditAt(a, b, u, x, y, v) && |x| == 1 && |y| == 1
    ensures Mismatches(a, b, 0, 0) == 1 || a == b
  {
    var k := |u|;
    if x != y {
      assert a[..k] == u == b[..k];
      assert a[k + 1..] == v == b[k + 1..];
      assert OnlyMismatchAt(a, b, 0, k);
      MismatchesOne(a, b, 0);
    }
  }

  lemma SwapDetected(a: string, b: string, u: string, x: string, y: string, v: string)
    requires EditAt(a, b, u, x, y, v) && |a| == |b| && a != b && |x| != 1
    ensures SwapAtFirstMismatch(a, b, 0)
  {
    var k := |u|;
    assert |x| == 2 && y == [x[1], x[0]];
    assert a[..k] == u == b[..k];
    assert a[k] == x[0] && b[k] == x[1] && a[k + 1] == x[1] && b[k + 1] == x[0];
    assert a[k + 2..] == v == b[k + 2..];
    SwapFound(a, b, 0, k);
  }

  /** With the budget free the tail matcher accepts exactly the pairs within
      one edit; with one edit spent exactly the equal pairs; with more, none. */
  lemma TailMatchSpec(a: string, b: string, edits: nat)
    ensures TailWithinOneEdit(a, b, edits) <==>
      if edits == 0 then WithinOneEdit(a, b)
      else edits == 1 && a == b
  {
    if edits == 0 {
      if a == b {
        Reflexive(a);
      } else if |a| == |b| {
        EqualLengthSpec(a, b);
      } else if |b| == |a| + 1 {
        GreedySkipSpec(a, b);
      } else if |a| == |b| + 1 {
        GreedySkipSpec(b, a);
        if WithinOneEdit(a, b) { Symmetric(a, b); }
        if WithinOneEdit(b, a) { Symmetric(b, a); }
      } else if WithinOneEdit(a, b) {
        LengthsClose(a, b);
      }
    }
  }
}
