/** map_notation: matching brackets with a stack, and the sorted list of
    opening positions that main derives from the result. */
module Pairing {
  import opened Notation

  /** Number of `(` minus number of `)` in s[..i]; any other character is
      skipped, as the scan skips it. */
  function Depth(s: string, i: nat): int
    requires i <= |s|
  {
    if i == 0 then 0
    else Depth(s, i - 1) + (if s[i - 1] == '(' then 1 else if s[i - 1] == ')' then -1 else 0)
  }

  /** No prefix of s closes more brackets than it has opened. */
  ghost predicate NoExcessClose(s: string)
  {
    forall q :: 0 <= q <= |s| ==> Depth(s, q) >= 0
  }

  /** j is the first `)` that makes a prefix close more than it opened. */
  ghost predicate FirstExcessClose(s: string, j: nat)
  {
    && j < |s| && s[j] == ')' && Depth(s, j + 1) < 0
    && forall q :: 0 <= q <= j ==> Depth(s, q) >= 0
  }

  /** The `(` at k is still open after the first i characters. */
  ghost predicate OpenAt(s: string, k: nat, i: nat)
  {
    && k < i <= |s| && s[k] == '('
    && forall q :: k < q <= i ==> Depth(s, q) > Depth(s, k)
  }

  /** The `(` at k is closed by the `)` at j: j is the first position after k
      whose character brings the depth back to the level before k. */
  ghost predicate IsMatch(s: string, k: nat, j: nat)
  {
    && k < j < |s| && s[k] == '(' && Depth(s, j + 1) == Depth(s, k)
    && forall q :: k < q <= j ==> Depth(s, q) > Depth(s, k)
  }

  /** pm holds exactly the matched pairs of s. */
  ghost predicate MatchesOf(s: string, pm: map<nat, nat>)
  {
    && (forall k :: k in pm ==> IsMatch(s, k, pm[k]))
    && (forall k, j :: IsMatch(s, k, j) ==> k in pm)
  }

  /** No prefix of the first i characters closes more than it opened. */
  ghost predicate PrefixBalanced(s: string, i: nat)
  {
    i <= |s| && forall q :: 0 <= q <= i ==> Depth(s, q) >= 0
  }

  /** The stack holds the still-open `(`, the one at depth d in slot d. */
  ghost predicate StackOpen(s: string, stack: seq<nat>, pm: map<nat, nat>, i: nat)
  {
    forall d :: 0 <= d < |stack| ==> OpenAt(s, stack[d], i) && Depth(s, stack[d]) == d && stack[d] !in pm
  }

  /** The table holds only matches closed among the first i characters. */
  ghost predicate TableDone(s: string, pm: map<nat, nat>, i: nat)
  {
    forall k :: k in pm ==> IsMatch(s, k, pm[k]) && pm[k] < i
  }

  /** Every `(` seen so far and not yet in the table is still open. */
  ghost predicate OthersOpen(s: string, pm: map<nat, nat>, i: nat)
  {
    i <= |s| && forall k :: 0 <= k < i && s[k] == '(' && k !in pm ==> OpenAt(s, k, i)
  }

  /** Every `)` seen so far closes an entry of the table. */
  ghost predicate ClosesRecorded(s: string, pm: map<nat, nat>, i: nat)
  {
    i <= |s| && forall j :: 0 <= j < i && s[j] == ')' ==> j in pm.Values
  }

  /** What the stack walk knows after its first i characters. */
  ghost predicate WalkInv(s: string, stack: seq<nat>, pm: map<nat, nat>, i: nat)
  {
    && i <= |s|
    && |stack| == Depth(s, i)
    && PrefixBalanced(s, i)
    && StackOpen(s, stack, pm, i)
    && TableDone(s, pm, i)
    && OthersOpen(s, pm, i)
    && ClosesRecorded(s, pm, i)
  }

  /** An open `(` stays open while the depth stays above its level. */
  lemma StillOpen(s: string, k: nat, i: nat)
    requires i < |s| && OpenAt(s, k, i) && Depth(s, i + 1) > Depth(s, k)
    ensures OpenAt(s, k, i + 1)
  {
  }

  /** An `(` at i is open once it has been read. */
  lemma OpensItself(s: string, i: nat)
    requires i < |s| && s[i] == '('
    ensures OpenAt(s, i, i + 1)
  {
    assert Depth(s, i + 1) == Depth(s, i) + 1;
  }

  lemma PushStack(s: string, stack: seq<nat>, pm: map<nat, nat>, i: nat)
    requires i < |s| && s[i] == '(' && |stack| == Depth(s, i)
    requires StackOpen(s, stack, pm, i) && TableDone(s, pm, i)
    ensures StackOpen(s, stack + [i], pm, i + 1)
  {
    assert Depth(s, i + 1) == Depth(s, i) + 1;
    var st := stack + [i];
    forall d | 0 <= d < |st| ensures OpenAt(s, st[d], i + 1) && Depth(s, st[d]) == d && st[d] !in pm {
      if d < |stack| {
        StillOpen(s, stack[d], i);
      } else {
        OpensItself(s, i);
        if i in pm {
          MatchCloses(s, i, pm[i]);
        }
      }
    }
  }

  lemma PushOthers(s: string, pm: map<nat, nat>, i: nat)
    requires i < |s| && s[i] == '(' && OthersOpen(s, pm, i)
    ensures OthersOpen(s, pm, i + 1)
  {
    assert Depth(s, i + 1) == Depth(s, i) + 1;
    forall k | 0 <= k < i + 1 && s[k] == '(' && k !in pm ensures OpenAt(s, k, i + 1) {
      if k < i {
        StillOpen(s, k, i);
      } else {
        OpensItself(s, i);
      }
    }
  }

  lemma PushStep(s: string, stack: seq<nat>, pm: map<nat, nat>, i: nat)
    requires WalkInv(s, stack, pm, i) && i < |s| && s[i] == '('
    ensures WalkInv(s, stack + [i], pm, i + 1)
  {
    assert Depth(s, i + 1) == Depth(s, i) + 1;
    PushStack(s, stack, pm, i);
    PushOthers(s, pm, i);
  }

  /** Every open `(` other than the top of the stack lies below it, and so
      stays open when the `)` at i closes the top. */
  lemma OpenBelowTop(s: string, top: nat, i: nat, k: nat)
    requires i < |s| && s[i] == ')' && OpenAt(s, top, i) && Depth(s, top) == Depth(s, i) - 1
    requires OpenAt(s, k, i) && k != top
    ensures OpenAt(s, k, i + 1)
  {
    if k < top {
      assert Depth(s, top) > Depth(s, k);
    }
    assert Depth(s, i + 1) == Depth(s, i) - 1;
  }

  lemma PopStack(s: string, stack: seq<nat>, pm: map<nat, nat>, i: nat)
    requires i < |s| && s[i] == ')' && stack != [] && |stack| == Depth(s, i)
    requires StackOpen(s, stack, pm, i)
    ensures StackOpen(s, stack[..|stack| - 1], pm[stack[|stack| - 1] := i], i + 1)
  {
    assert Depth(s, i + 1) == Depth(s, i) - 1;
    var st := stack[..|stack| - 1];
    var pm' := pm[stack[|stack| - 1] := i];
    forall d | 0 <= d < |st| ensures OpenAt(s, st[d], i + 1) && Depth(s, st[d]) == d && st[d] !in pm' {
      assert st[d] == stack[d];
      StillOpen(s, stack[d], i);
    }
  }

  lemma PopOthers(s: string, stack: seq<nat>, pm: map<nat, nat>, i: nat)
    requires i < |s| && s[i] == ')' && stack != [] && |stack| == Depth(s, i)
    requires StackOpen(s, stack, pm, i) && OthersOpen(s, pm, i)
    ensures OthersOpen(s, pm[stack[|stack| - 1] := i], i + 1)
  {
    var top := stack[|stack| - 1];
    assert OpenAt(s, top, i) && Depth(s, top) == Depth(s, i) - 1;
    forall k | 0 <= k < i + 1 && s[k] == '(' && k !in pm[top := i] ensures OpenAt(s, k, i + 1) {
      OpenBelowTop(s, top, i, k);
    }
  }

  lemma PopTable(s: string, stack: seq<nat>, pm: map<nat, nat>, i: nat)
    requires i < |s| && s[i] == ')' && stack != [] && |stack| == Depth(s, i)
    requires StackOpen(s, stack, pm, i) && TableDone(s, pm, i) && ClosesRecorded(s, pm, i)
    ensures TableDone(s, pm[stack[|stack| - 1] := i], i + 1)
    ensures ClosesRecorded(s, pm[stack[|stack| - 1] := i], i + 1)
  {
    var top := stack[|stack| - 1];
    var pm' := pm[top := i];
    assert Depth(s, i + 1) == Depth(s, i) - 1;
    assert OpenAt(s, top, i) && Depth(s, top) == Depth(s, i) - 1 && top !in pm;
    assert IsMatch(s, top, i);
    forall j | 0 <= j < i + 1 && s[j] == ')' ensures j in pm'.Values {
      if j < i {
        var k :| k in pm && pm[k] == j;
        assert pm'[k] == j;
      } else {
        assert pm'[top] == j;
      }
    }
  }

  lemma PopStep(s: string, stack: seq<nat>, pm: map<nat, nat>, i: nat)
    requires WalkInv(s, stack, pm, i) && i < |s| && s[i] == ')' && stack != []
    ensures WalkInv(s, stack[..|stack| - 1], pm[stack[|stack| - 1] := i], i + 1)
  {
    assert Depth(s, i + 1) == Depth(s, i) - 1;
    PopStack(s, stack, pm, i);
    PopOthers(s, stack, pm, i);
    PopTable(s, stack, pm, i);
  }

  lemma SkipStep(s: string, stack: seq<nat>, pm: map<nat, nat>, i: nat)
    requires WalkInv(s, stack, pm, i) && i < |s| && s[i] != '(' && s[i] != ')'
    ensures WalkInv(s, stack, pm, i + 1)
  {
    assert Depth(s, i + 1) == Depth(s, i);
    forall d | 0 <= d < |stack| ensures OpenAt(s, stack[d], i + 1) {
      StillOpen(s, stack[d], i);
    }
    forall k | 0 <= k < i + 1 && s[k] == '(' && k !in pm ensures OpenAt(s, k, i + 1) {
      StillOpen(s, k, i);
    }
  }

  /** The stack walk of map_notation. A `)` on an empty stack is the failure
      of stack.pop(); an `(` still on the stack at the end is dropped. */
  method MapNotation(s: string) returns (r: Result<map<nat, nat>>)
    ensures r.Ok? <==> NoExcessClose(s)
    ensures r.Ok? ==> MatchesOf(s, r.value)
    ensures r.Ok? ==> forall j :: 0 <= j < |s| && s[j] == ')' ==> j in r.value.Values
    ensures r.Err? ==> r.error.UnmatchedClose? && FirstExcessClose(s, r.error.at)
  {
    var stack: seq<nat> := [];
    var pm: map<nat, nat> := map[];
    for i := 0 to |s|
      invariant WalkInv(s, stack, pm, i)
    {
      if s[i] == '(' {
        PushStep(s, stack, pm, i);
        stack := stack + [i];
      } else if s[i] == ')' {
        if stack == [] {
          assert Depth(s, i + 1) == -1;
          return Err(UnmatchedClose(i));
        }
        PopStep(s, stack, pm, i);
        var top := stack[|stack| - 1];
        stack := stack[..|stack| - 1];
        pm := pm[top := i];
      } else {
        SkipStep(s, stack, pm, i);
      }
    }
    return Ok(pm);
  }

  lemma MatchUnique(s: string, k: nat, j1: nat, j2: nat)
    requires IsMatch(s, k, j1) && IsMatch(s, k, j2)
    ensures j1 == j2
  {
  }

  /** A match joins an `(` to a `)` that comes after it. */
  lemma MatchCloses(s: string, k: nat, j: nat)
    requires IsMatch(s, k, j)
    ensures k < j < |s| && s[k] == '(' && s[j] == ')'
  {
    assert Depth(s, j) > Depth(s, k);
  }

  /** No `)` closes two different `(`. */
  lemma MatchInjective(s: string, a: nat, b: nat, j: nat)
    requires IsMatch(s, a, j) && IsMatch(s, b, j)
    ensures a == b
  {
  }

  /** Matches never cross: a pair opened inside another closes inside it. */
  lemma MatchNested(s: string, a: nat, b: nat, c: nat, d: nat)
    requires IsMatch(s, a, b) && IsMatch(s, c, d) && a < c < b
    ensures d < b
  {
    assert Depth(s, c) > Depth(s, a);
    if d == b {
      MatchInjective(s, a, c, b);
    }
  }

  /** The table map_notation returns is a pairing table in which no
      position appears twice and pairs nest. */
  lemma MatchesShape(s: string, pm: map<nat, nat>)
    requires MatchesOf(s, pm)
    ensures PairTable(pm, |s|) && OnePairEach(pm)
    ensures forall k :: k in pm ==> s[k] == '(' && s[pm[k]] == ')'
    ensures forall a, c :: a in pm && c in pm && a < c < pm[a] ==> pm[c] < pm[a]
    ensures forall k, j :: k in pm && IsMatch(s, k, j) ==> pm[k] == j
  {
    forall k | k in pm ensures k < pm[k] < |s| && s[k] == '(' && s[pm[k]] == ')' {
      MatchCloses(s, k, pm[k]);
    }
    forall a, b | a in pm && b in pm && pm[a] == pm[b] ensures a == b {
      MatchInjective(s, a, b, pm[a]);
    }
    forall a, c | a in pm && c in pm && a < c < pm[a] ensures pm[c] < pm[a] {
      MatchNested(s, a, pm[a], c, pm[c]);
    }
    forall k, j | k in pm && IsMatch(s, k, j) ensures pm[k] == j {
      MatchUnique(s, k, pm[k], j);
    }
  }

  /** Without excess closes, every `)` has its `(`: searching backwards from
      the `)` finds the last position at the level it returns to. */
  lemma {:induction false} CloseHasOpener(s: string, j: nat)
    requires NoExcessClose(s) && j < |s| && s[j] == ')'
    ensures exists k :: IsMatch(s, k, j)
  {
    var e := Depth(s, j + 1);
    assert Depth(s, j) == e + 1;
    var k := FindOpener(s, e, j, j);
    assert IsMatch(s, k, j);
  }

  lemma {:induction false} FindOpener(s: string, e: int, c: nat, j: nat) returns (k: nat)
    requires NoExcessClose(s) && e >= 0 && c <= j < |s|
    requires forall q :: c <= q <= j ==> Depth(s, q) > e
    ensures k < c && s[k] == '(' && Depth(s, k) == e
    ensures forall q :: k < q <= j ==> Depth(s, q) > e
    decreases c
  {
    assert Depth(s, c) > e;
    assert c > 0 by { assert Depth(s, 0) == 0; }
    assert Depth(s, c) == Depth(s, c - 1) + (if s[c - 1] == '(' then 1 else if s[c - 1] == ')' then -1 else 0);
    if Depth(s, c - 1) == e {
      k := c - 1;
    } else {
      k := FindOpener(s, e, c - 1, j);
    }
  }

  /** An `(` that is never closed is not an error: `((.)` is accepted and
      only its inner pair is recorded. */
  lemma UnclosedOpenExample()
    ensures NoExcessClose("((.)")
    ensures MatchesOf("((.)", map[1 := 3])
  {
    var s := "((.)";
    assert Depth(s, 1) == 1 && Depth(s, 2) == 2 && Depth(s, 3) == 2 && Depth(s, 4) == 1;
    assert IsMatch(s, 1, 3);
    forall k, j | IsMatch(s, k, j) ensures k in map[1 := 3] {
      assert k != 0;
    }
  }

  /** The smallest element of a non-empty set, found by one pass over it. */
  method MinOf(xs: set<nat>) returns (m: nat)
    requires xs != {}
    ensures m in xs && forall y :: y in xs ==> m <= y
  {
    m :| m in xs;
    var todo := xs - {m};
    while todo != {}
      invariant todo <= xs && m in xs
      invariant forall y :: y in xs && y !in todo ==> m <= y
      decreases todo
    {
      var y :| y in todo;
      if y < m {
        m := y;
      }
      todo := todo - {y};
    }
  }

  /** list(position_map.keys()) followed by sort(): the opening positions
      in increasing order, each once. */
  method SortKeys(pm: map<nat, nat>) returns (ps: seq<nat>)
    ensures forall i, j :: 0 <= i < j < |ps| ==> ps[i] < ps[j]
    ensures forall k :: k in pm <==> k in ps
  {
    ps := [];
    var rest := pm.Keys;
    while rest != {}
      invariant rest <= pm.Keys
      invariant forall k :: k in pm <==> k in rest || k in ps
      invariant forall i, j :: 0 <= i < j < |ps| ==> ps[i] < ps[j]
      invariant forall i, y :: 0 <= i < |ps| && y in rest ==> ps[i] < y
      decreases rest
    {
      var m := MinOf(rest);
      ps := ps + [m];
      rest := rest - {m};
    }
  }
}
