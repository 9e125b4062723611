/**
  Reducing a coordinate path to its end points and the points where it
  turns: the specification of the corner extraction.
 */
module Corners {
  import opened Tiles

  /** Whether the interior point `s[i]` is kept: it shares its column with
      the point before and not with the point after, or likewise its row. */
  predicate KeepsTurn(s: seq<Pair>, i: int)
    requires 1 <= i < |s| - 1
  {
    || (s[i].x == s[i - 1].x && s[i].x != s[i + 1].x)
    || (s[i].y == s[i - 1].y && s[i].y != s[i + 1].y)
  }

  /** The kept interior points among `s[1..k]`, in order. */
  function TurnsBefore(s: seq<Pair>, k: int): seq<Pair>
    requires 0 <= k < |s|
  {
    if k <= 1 then [] else TurnsBefore(s, k - 1) + (if KeepsTurn(s, k - 1) then [s[k - 1]] else [])
  }

  /** The corners of a path: its first point, its kept interior points and
      its last point. A path of one point yields that point twice. */
  function CornersOf(s: seq<Pair>): (r: seq<Pair>)
    requires |s| >= 1
    ensures |r| >= 2 && r[0] == s[0] && r[|r| - 1] == s[|s| - 1]
  {
    if |s| == 1 then [s[0], s[0]] else [s[0]] + TurnsBefore(s, |s| - 1) + [s[|s| - 1]]
  }

  /** `a` is `b` with some elements left out (greedy matching from the end). */
  predicate IsSubsequence(a: seq<Pair>, b: seq<Pair>)
    decreases |b|
  {
    if a == [] then true
    else if b == [] then false
    else if a[|a| - 1] == b[|b| - 1] then IsSubsequence(a[..|a| - 1], b[..|b| - 1])
    else IsSubsequence(a, b[..|b| - 1])
  }

  /** The kept interior points are exactly the interior points before `k`
      that turn. */
  lemma {:induction false} TurnsBeforeMembers(s: seq<Pair>, k: int)
    requires 0 <= k < |s|
    ensures |TurnsBefore(s, k)| <= if k <= 1 then 0 else k - 1
    ensures forall p :: p in TurnsBefore(s, k) ==>
      exists i :: 1 <= i < k && s[i] == p && KeepsTurn(s, i)
    ensures forall i :: 1 <= i < k && KeepsTurn(s, i) ==> s[i] in TurnsBefore(s, k)
  {
    if k > 1 {
      TurnsBeforeMembers(s, k - 1);
    }
  }

  lemma {:induction false} SubsequenceDropLast(a: seq<Pair>, b: seq<Pair>)
    requires IsSubsequence(a, b) && a != []
    ensures IsSubsequence(a[..|a| - 1], b)
    decreases |b|
  {
    var a' := a[..|a| - 1];
    if b != [] && a' != [] {
      var b' := b[..|b| - 1];
      if a[|a| - 1] == b[|b| - 1] {
        if a'[|a'| - 1] == b[|b| - 1] {
          SubsequenceDropLast(a', b');
        }
      } else {
        SubsequenceDropLast(a, b');
        if a'[|a'| - 1] == b[|b| - 1] {
          SubsequenceDropLast(a', b');
        }
      }
    }
  }

  lemma SubsequenceExtend(a: seq<Pair>, b: seq<Pair>, x: Pair)
    requires IsSubsequence(a, b)
    ensures IsSubsequence(a, b + [x])
  {
    assert (b + [x])[..|b|] == b;
    if a != [] && a[|a| - 1] == x {
      SubsequenceDropLast(a, b);
    }
  }

  lemma {:induction false} TurnsAreSubsequence(s: seq<Pair>, k: int)
    requires 1 <= k < |s|
    ensures IsSubsequence([s[0]] + TurnsBefore(s, k), s[..k])
  {
    if k == 1 {
      assert [s[0]] + TurnsBefore(s, k) == [s[0]];
      assert s[..1] == [s[0]];
    } else {
      TurnsAreSubsequence(s, k - 1);
      var a := [s[0]] + TurnsBefore(s, k - 1);
      assert s[..k] == s[..k - 1] + [s[k - 1]];
      if KeepsTurn(s, k - 1) {
        var a' := a + [s[k - 1]];
        assert [s[0]] + TurnsBefore(s, k) == a';
        assert a'[..|a'| - 1] == a;
        assert s[..k][..k - 1] == s[..k - 1];
      } else {
        assert [s[0]] + TurnsBefore(s, k) == a;
        SubsequenceExtend(a, s[..k - 1], s[k - 1]);
      }
    }
  }

  /** For a path of two or more points the corners keep the input's order
      and are no more than the input. */
  lemma CornersAreSubsequence(s: seq<Pair>)
    requires |s| >= 2
    ensures IsSubsequence(CornersOf(s), s)
    ensures |CornersOf(s)| <= |s|
  {
    var k := |s| - 1;
    var a := [s[0]] + TurnsBefore(s, k);
    var r := a + [s[k]];
    assert CornersOf(s) == r;
    assert |TurnsBefore(s, k)| <= k - 1 by {
      TurnsBeforeMembers(s, k);
    }
    assert IsSubsequence(r, s) by {
      TurnsAreSubsequence(s, k);
      assert s[..k] == s[..|s| - 1];
      assert r[..|r| - 1] == a;
      assert r[|r| - 1] == s[|s| - 1];
    }
  }

  /** On a path whose steps go to orthogonal neighbours, an interior point
      is kept exactly when the path switches between horizontal and
      vertical movement there. */
  lemma KeepsTurnIffAxisChanges(s: seq<Pair>, i: int)
    requires 1 <= i < |s| - 1
    requires Adjacent(s[i - 1], s[i]) && Adjacent(s[i], s[i + 1])
    ensures KeepsTurn(s, i) <==> ((s[i - 1].x == s[i].x) != (s[i].x == s[i + 1].x))
  {
  }
}
