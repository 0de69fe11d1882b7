/** Whose turn it is: a cyclic cursor over n slaves, of which some are eligible at any moment. */
module Scheduler {

  /** The index d places after cur, going round once at most. */
  function After(cur: nat, d: nat, n: nat): (i: nat)
    requires cur < n && d <= n
    ensures i < n
  {
    if cur + d >= n then cur + d - n else cur + d
  }

  /** The iterator's step: one on, and round to the start past the end. */
  lemma AfterNext(cur: nat, d: nat, n: nat)
    requires cur < n && d <= n
    ensures After(cur, 0, n) == cur
    ensures d > 0 ==> After(cur, d, n) == if After(cur, d - 1, n) + 1 == n then 0 else After(cur, d - 1, n) + 1
    ensures After(cur, d, n) == cur <==> d == 0 || d == n
  {
  }

  /** How far after cur the index j comes up; a full round for cur itself. */
  function Distance(cur: nat, j: nat, n: nat): (d: nat)
    requires cur < n && j < n
    ensures 1 <= d <= n && After(cur, d, n) == j
  {
    if j > cur then j - cur else j + n - cur
  }

  lemma DistanceIsOnly(cur: nat, d: nat, n: nat)
    requires cur < n && 1 <= d <= n
    ensures Distance(cur, After(cur, d, n), n) == d
  {
  }

  /**
    One call of slave_poll moves the cursor from cur to next, never over a slave that stays
    eligible throughout the call.
   */
  ghost predicate Turn(cur: nat, next: nat, n: nat, steady: set<nat>) {
    cur < n && next < n &&
    forall j :: j in steady && j < n ==> Distance(cur, j, n) >= Distance(cur, next, n)
  }

  /**
    Starvation freedom: a slave that stays eligible is selected within n calls, whatever happens
    to the eligibility of the others.
   */
  lemma {:induction false} SelectedInTime(c: seq<nat>, n: nat, steady: seq<set<nat>>, j: nat) returns (i: nat)
    requires j < n && |steady| == |c| - 1
    requires forall k :: 0 <= k < |c| - 1 ==> Turn(c[k], c[k + 1], n, steady[k]) && j in steady[k]
    requires |c| > 1 && c[0] < n && |c| - 1 >= Distance(c[0], j, n)
    ensures 1 <= i <= Distance(c[0], j, n) && c[i] == j
    decreases |c|
  {
    if c[1] == j {
      i := 1;
    } else {
      NearerAfterTurn(c[0], c[1], n, steady[0], j);
      assert c[1..][0] == c[1];
      forall k | 0 <= k < |c[1..]| - 1
        ensures Turn(c[1..][k], c[1..][k + 1], n, steady[1..][k]) && j in steady[1..][k]
      {
        assert Turn(c[k + 1], c[k + 2], n, steady[k + 1]) && j in steady[k + 1];
      }
      i := SelectedInTime(c[1..], n, steady[1..], j);
      i := i + 1;
    }
  }

  /** Among the cursors, j is among any n in a row after the first. */
  ghost predicate NeverStarved(c: seq<nat>, n: nat, j: nat) {
    forall m :: 0 <= m < |c| - n ==> j in Window(c, m, n)
  }

  function Window(c: seq<nat>, m: nat, n: nat): seq<nat>
    requires m + n < |c|
  {
    c[m+1..m+n+1]
  }

  /**
    The cursors of a run of calls: those in core are eligible throughout each of them, and a call
    that moves the cursor moves it to one of those seen eligible.
   */
  ghost predicate Rounds(c: seq<nat>, n: nat, steady: seq<set<nat>>, core: set<nat>, seen: set<nat>) {
    && |c| == |steady| + 1 && c[0] < n
    && forall k :: 0 <= k < |steady| ==>
         Turn(c[k], c[k + 1], n, steady[k]) && core <= steady[k] && (c[k + 1] == c[k] || c[k + 1] in seen)
  }

  lemma RoundsSnoc(c: seq<nat>, n: nat, steady: seq<set<nat>>, was: set<nat>, had: set<nat>,
                   next: nat, st: set<nat>, core: set<nat>, seen: set<nat>)
    requires Rounds(c, n, steady, was, had) && Turn(c[|c|-1], next, n, st)
    requires core <= was && core <= st && had <= seen && (next == c[|c|-1] || next in seen)
    ensures Rounds(c + [next], n, steady + [st], core, seen)
  {
    hide Turn;
  }

  lemma InEveryWindow(c: seq<nat>, n: nat, steady: seq<set<nat>>, core: set<nat>, seen: set<nat>, j: nat)
    requires j < n && Rounds(c, n, steady, core, seen) && j in core
    ensures NeverStarved(c, n, j)
  {
    hide Distance;
    forall m: nat | m < |c| - n
      ensures j in Window(c, m, n)
    {
      var w, v := c[m..m+n+1], steady[m..m+n];
      assert Turn(c[m], c[m + 1], n, steady[m]);
      forall k | 0 <= k < |w| - 1
        ensures Turn(w[k], w[k + 1], n, v[k]) && j in v[k]
      {
        assert Turn(c[m + k], c[m + k + 1], n, steady[m + k]);
      }
      var i := SelectedInTime(w, n, v, j);
      assert Window(c, m, n)[i - 1] == w[i];
    }
  }

  lemma NearerAfterTurn(cur: nat, next: nat, n: nat, steady: set<nat>, j: nat)
    requires Turn(cur, next, n, steady) && j in steady && j < n && next != j
    ensures Distance(next, j, n) == Distance(cur, j, n) - Distance(cur, next, n)
    ensures Distance(next, j, n) < Distance(cur, j, n)
  {
    assert Distance(cur, j, n) >= Distance(cur, next, n);
  }

  // ---------------------------------------------------------------- fixed eligibility

  /** The selection loop on fixed flags: the nearest eligible index after offset d, else all round. */
  function Search(cur: nat, d: nat, ok: seq<bool>): (e: nat)
    requires cur < |ok| && 1 <= d <= |ok|
    ensures d <= e <= |ok|
    ensures e < |ok| ==> ok[After(cur, e, |ok|)]
    ensures forall k :: d <= k < e ==> !ok[After(cur, k, |ok|)]
    decreases |ok| - d
  {
    if d == |ok| || ok[After(cur, d, |ok|)] then d else Search(cur, d + 1, ok)
  }

  function NextTurn(cur: nat, ok: seq<bool>): nat
    requires cur < |ok|
  {
    After(cur, Search(cur, 1, ok), |ok|)
  }

  /** With fixed eligibility a turn that stops at an eligible slave, or goes all round, is this one. */
  lemma TurnIsNext(cur: nat, next: nat, ok: seq<bool>, steady: set<nat>)
    requires Turn(cur, next, |ok|, steady)
    requires forall j :: 0 <= j < |ok| && ok[j] ==> j in steady
    requires next == cur || ok[next]
    ensures next == NextTurn(cur, ok)
  {
    var e, d := Search(cur, 1, ok), Distance(cur, next, |ok|);
    if e < |ok| {
      DistanceIsOnly(cur, e, |ok|);
      assert Distance(cur, After(cur, e, |ok|), |ok|) >= d;
    }
  }

  /** The slaves selected by the next k calls. */
  function Turns(cur: nat, k: nat, ok: seq<bool>): seq<nat>
    requires cur < |ok|
    decreases k
  {
    if k == 0 then [] else [NextTurn(cur, ok)] + Turns(NextTurn(cur, ok), k - 1, ok)
  }

  /** The eligible slaves still to come in a round from cur of which o places are done. */
  function Rest(cur: nat, o: nat, ok: seq<bool>): seq<nat>
    requires cur < |ok| && o <= |ok|
    decreases |ok| - o
  {
    if o == |ok| then []
    else
      var i := After(cur, o + 1, |ok|);
      (if ok[i] then [i] else []) + Rest(cur, o + 1, ok)
  }

  /** How often j occurs. */
  function Times(s: seq<nat>, j: nat): nat {
    if s == [] then 0 else (if s[0] == j then 1 else 0) + Times(s[1..], j)
  }

  lemma {:induction false} RestCounts(cur: nat, o: nat, ok: seq<bool>, j: nat)
    requires cur < |ok| && o <= |ok|
    ensures Times(Rest(cur, o, ok), j) ==
            if j < |ok| && ok[j] && Distance(cur, j, |ok|) > o then 1 else 0
    decreases |ok| - o
  {
    if o < |ok| {
      RestCounts(cur, o + 1, ok, j);
      DistanceIsOnly(cur, o + 1, |ok|);
      var i := After(cur, o + 1, |ok|);
      if ok[i] {
        assert Rest(cur, o, ok)[1..] == Rest(cur, o + 1, ok);
      } else {
        assert Rest(cur, o, ok) == Rest(cur, o + 1, ok);
      }
    }
  }

  /** The nearest eligible slave is the next one of the round. */
  lemma {:induction false} RestBegins(cur: nat, o: nat, ok: seq<bool>, e: nat)
    requires cur < |ok| && o < |ok| && o < e <= |ok|
    requires ok[After(cur, e, |ok|)]
    requires forall k :: o < k < e ==> !ok[After(cur, k, |ok|)]
    ensures Rest(cur, o, ok) == [After(cur, e, |ok|)] + Rest(cur, e, ok)
    decreases e - o
  {
    hide After;
    if o + 1 < e {
      RestBegins(cur, o + 1, ok, e);
    }
  }

  lemma RestStep(cur: nat, o: nat, ok: seq<bool>)
    requires cur < |ok| && o < |ok|
    ensures var i := After(cur, o + 1, |ok|);
            Rest(cur, o, ok) == (if ok[i] then [i] else []) + Rest(cur, o + 1, ok)
    ensures Rest(cur, |ok|, ok) == []
  {
  }

  /** The first eligible offset beyond o. */
  lemma {:induction false} RestFirst(cur: nat, o: nat, ok: seq<bool>) returns (e: nat)
    requires cur < |ok| && o < |ok| && Rest(cur, o, ok) != []
    ensures o < e <= |ok| && ok[After(cur, e, |ok|)]
    ensures forall k :: o < k < e ==> !ok[After(cur, k, |ok|)]
    decreases |ok| - o
  {
    RestStep(cur, o, ok);
    hide After, Rest;
    if ok[After(cur, o + 1, |ok|)] {
      e := o + 1;
    } else {
      e := RestFirst(cur, o + 1, ok);
    }
  }

  /** The search from a place in the round finds the next of the round. */
  lemma NextOfRound(cur: nat, o: nat, ok: seq<bool>, e: nat)
    requires cur < |ok| && o < e <= |ok|
    requires ok[After(cur, e, |ok|)]
    requires forall k :: o < k < e ==> !ok[After(cur, k, |ok|)]
    ensures NextTurn(After(cur, o, |ok|), ok) == After(cur, e, |ok|)
  {
    var n, from := |ok|, After(cur, o, |ok|);
    var d := Search(from, 1, ok);
    OffsetsAdd(cur, o, e, n);
    forall k | 1 <= k < e - o
      ensures !ok[After(from, k, n)]
    {
      OffsetsAdd(cur, o, o + k, n);
    }
    assert d == e - o;
  }

  lemma {:induction false} TurnsFollowTheRound(cur: nat, o: nat, ok: seq<bool>)
    requires cur < |ok| && o <= |ok|
    ensures Turns(After(cur, o, |ok|), |Rest(cur, o, ok)|, ok) == Rest(cur, o, ok)
    decreases |ok| - o
  {
    if Rest(cur, o, ok) != [] {
      hide Search, NextTurn, After;
      var e := RestFirst(cur, o, ok);
      RestBegins(cur, o, ok, e);
      NextOfRound(cur, o, ok, e);
      TurnsFollowTheRound(cur, e, ok);
    }
  }

  lemma OffsetsAdd(cur: nat, o: nat, e: nat, n: nat)
    requires cur < n && o < e <= n
    ensures After(After(cur, o, n), e - o, n) == After(cur, e, n)
  {
  }

  predicate Eligible(ok: seq<bool>, j: nat) { j < |ok| && ok[j] }

  /**
    With eligibility fixed, as many calls as there are eligible slaves select each of them exactly
    once and nobody else, wherever the cursor stands.
   */
  lemma EachOnceARound(cur: nat, ok: seq<bool>)
    requires cur < |ok|
    ensures var e := |set j: nat | j < |ok| && ok[j]|;
            forall j: nat :: Times(Turns(cur, e, ok), j) == if Eligible(ok, j) then 1 else 0
  {
    var r := Rest(cur, 0, ok);
    forall j: nat
      ensures Times(r, j) == if Eligible(ok, j) then 1 else 0
    {
      RestCounts(cur, 0, ok, j);
    }
    RoundSize(r, set j: nat | j < |ok| && ok[j]);
    TurnsFollowTheRound(cur, 0, ok);
    assert After(cur, 0, |ok|) == cur;
  }

  lemma {:induction false} RoundSize(r: seq<nat>, s: set<nat>)
    requires forall j: nat :: Times(r, j) == if j in s then 1 else 0
    ensures |r| == |s|
    decreases |r|
  {
    if r == [] {
      assert forall j: nat :: Times(r, j) == 0;
      assert s == {};
    } else {
      var k := r[0];
      assert Times(r, k) >= 1;
      forall j: nat
        ensures Times(r[1..], j) == if j in s - {k} then 1 else 0
      {
        assert Times(r, j) == (if j == k then 1 else 0) + Times(r[1..], j);
      }
      RoundSize(r[1..], s - {k});
    }
  }

  // ---------------------------------------------------------------- a run with fixed eligibility

  /** Any |core| cursors in a row after the first are those in core, each once. */
  ghost predicate EachOnce(c: seq<nat>, core: set<nat>) {
    forall m: nat, j: nat :: m < |c| - |core| ==>
      Times(Window(c, m, |core|), j) == if j in core then 1 else 0
  }

  function Flags(core: set<nat>, n: nat): seq<bool> { seq(n, j requires 0 <= j < n => j in core) }

  lemma {:induction false} RoundsAreTurns(c: seq<nat>, n: nat, steady: seq<set<nat>>, core: set<nat>, seen: set<nat>,
                                          m: nat, e: nat)
    requires Rounds(c, n, steady, core, seen) && seen <= core && m + e < |c|
    ensures c[m] < n && Window(c, m, e) == Turns(c[m], e, Flags(core, n))
    decreases e
  {
    hide NextTurn;
    CursorInRange(c, n, steady, core, seen, m);
    if e > 0 {
      var ok := Flags(core, n);
      assert Turn(c[m], c[m + 1], n, steady[m]);
      TurnIsNext(c[m], c[m + 1], ok, steady[m]);
      RoundsAreTurns(c, n, steady, core, seen, m + 1, e - 1);
      assert Window(c, m, e) == [c[m + 1]] + Window(c, m + 1, e - 1);
    }
  }

  lemma CursorInRange(c: seq<nat>, n: nat, steady: seq<set<nat>>, core: set<nat>, seen: set<nat>, m: nat)
    requires Rounds(c, n, steady, core, seen) && m < |c|
    ensures c[m] < n
  {
    if m > 0 {
      assert Turn(c[m - 1], c[m - 1 + 1], n, steady[m - 1]);
    }
  }

  /** When nobody is seen eligible but those who always are, they take turns exactly. */
  lemma FixedIsFair(c: seq<nat>, n: nat, steady: seq<set<nat>>, core: set<nat>, seen: set<nat>)
    requires Rounds(c, n, steady, core, seen) && seen <= core && forall j :: j in core ==> j < n
    ensures EachOnce(c, core)
  {
    var ok := Flags(core, n);
    assert (set j: nat | j < |ok| && ok[j]) == core;
    forall m: nat, j: nat | m < |c| - |core|
      ensures Times(Window(c, m, |core|), j) == if j in core then 1 else 0
    {
      RoundsAreTurns(c, n, steady, core, seen, m, |core|);
      EachOnceARound(c[m], ok);
      assert Eligible(ok, j) <==> j in core;
    }
  }
}
