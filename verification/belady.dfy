/** Belady's bound, the claim behind the optimal policy: with the same frames
    and the same references, no demand-paging policy faults less often than
    the one that evicts the resident page requested farthest in the future.

    Resident sets are plain sets here; `Achievable` says which fault counts
    some sequence of eviction choices can reach, and the two exchange lemmas
    show that the farthest-in-future choice is never worse than any other. */
module Belady {
  import opened Pages

  /** Position of the first request of `p` in `s`, or `|s|` when there is none. */
  function NextIdx(s: seq<Page>, p: Page): (r: nat)
    ensures r <= |s|
    ensures r < |s| ==> s[r] == p
    ensures forall j :: 0 <= j < r ==> s[j] != p
  {
    if |s| == 0 then 0
    else if s[0] == p then 0
    else 1 + NextIdx(s[1..], p)
  }

  /** Some demand-paging policy with `k` frames, starting from resident set
      `c`, serves `s` with exactly `f` faults: a hit changes nothing; a fault
      with a free frame admits the page; a fault with every frame in use
      evicts one resident page, whichever the policy likes. */
  ghost predicate Achievable(k: nat, c: set<Page>, s: seq<Page>, f: nat)
    decreases |s|
  {
    if |s| == 0 then f == 0
    else if s[0] in c then Achievable(k, c, s[1..], f)
    else
      && f >= 1
      && if |c| < k then Achievable(k, c + {s[0]}, s[1..], f - 1)
         else exists v :: v in c && Achievable(k, c - {v} + {s[0]}, s[1..], f - 1)
  }

  // ---------------------------------------------------------------- set sizes

  lemma {:induction false} SubsetCard(x: set<Page>, y: set<Page>)
    requires x <= y
    ensures |x| <= |y|
    decreases |y|
  {
    if y != {} {
      var e :| e in y;
      SubsetCard(x - {e}, y - {e});
    }
  }

  /** A subset at least as large as its superset is the superset. */
  lemma FullSubset(x: set<Page>, y: set<Page>)
    requires x <= y && |y| <= |x|
    ensures x == y
  {
    if x != y {
      var e :| e in y && e !in x;
      SubsetCard(x, y - {e});
    }
  }

  /** Swapping a resident page for an absent one keeps the size. */
  lemma SwapCard(c: set<Page>, v: Page, q: Page)
    requires v in c && q !in c
    ensures |c - {v} + {q}| == |c|
  {
  }

  // ---------------------------------------------------------------- moves

  /** `c'` is a resident set a demand-paging policy may hold after serving
      `q` from `c` with `k` frames. */
  ghost predicate Moves(k: nat, c: set<Page>, q: Page, c': set<Page>) {
    && (q in c ==> c' == c)
    && (q !in c && |c| < k ==> c' == c + {q})
    && (q !in c && |c| >= k ==> exists v :: v in c && c' == c - {v} + {q})
  }

  /** Every legal move keeps the page just served and stays within `k`
      frames, and nothing but that page arrives. */
  lemma MovesBounds(k: nat, c: set<Page>, q: Page, c': set<Page>)
    requires |c| <= k && Moves(k, c, q, c')
    ensures |c'| <= k && q in c' && c' - {q} <= c
  {
    if q !in c && |c| >= k {
      var v :| v in c && c' == c - {v} + {q};
      SwapCard(c, v, q);
    }
  }

  /** Unfolds a reachable count at reference `q`: the policy's move and the
      count it reaches for the rest. */
  lemma Unfold(k: nat, c: set<Page>, q: Page, rest: seq<Page>, f: nat) returns (c': set<Page>, f': nat)
    requires Achievable(k, c, [q] + rest, f)
    ensures Moves(k, c, q, c') && Achievable(k, c', rest, f')
    ensures f == if q in c then f' else f' + 1
  {
    assert ([q] + rest)[0] == q && ([q] + rest)[1..] == rest;
    if q in c {
      c', f' := c, f;
    } else if |c| < k {
      c', f' := c + {q}, f - 1;
    } else {
      var v :| v in c && Achievable(k, c - {v} + {q}, rest, f - 1);
      c', f' := c - {v} + {q}, f - 1;
    }
  }

  /** Conversely, any legal move on reference `q` extends a reachable count
      for the rest by one fault, or by none on a hit. */
  lemma DemandStep(k: nat, c: set<Page>, q: Page, rest: seq<Page>, c': set<Page>, g: nat)
    requires Moves(k, c, q, c') && Achievable(k, c', rest, g)
    ensures Achievable(k, c, [q] + rest, if q in c then g else g + 1)
  {
    assert ([q] + rest)[0] == q && ([q] + rest)[1..] == rest;
  }

  // ---------------------------------------------------------------- exchange

  /** A move for `a` that keeps the difference to `b` from growing while `b`
      moves to `b'`, and shrinks it when only `b` already held `q`. */
  lemma Follow(k: nat, a: set<Page>, b: set<Page>, q: Page, b': set<Page>) returns (a': set<Page>)
    requires |a| <= k && |b| <= k && a != b && Moves(k, b, q, b')
    ensures Moves(k, a, q, a') && |a'| <= k
    ensures b' - a' <= (b - a) - {q}
  {
    MovesBounds(k, b, q, b');
    if q in a {
      a' := a;
    } else if |a| < k {
      a' := a + {q};
    } else if q !in b && |b| >= k && exists v :: v in a && b' == b - {v} + {q} {
      var v :| v in a && b' == b - {v} + {q};
      a' := a - {v} + {q};
    } else {
      var w := Outside(k, a, b);
      a' := a - {w} + {q};
    }
    MovesBounds(k, a, q, a');
  }

  /** A policy starting from `a` can copy any policy starting from `b`, paying
      at most one extra fault for each page `b` holds and `a` does not. */
  lemma {:induction false} Mimic(k: nat, a: set<Page>, b: set<Page>, s: seq<Page>, f: nat) returns (g: nat)
    requires |a| <= k && |b| <= k && Achievable(k, b, s, f)
    ensures Achievable(k, a, s, g) && g <= f + |b - a|
    decreases |s|
  {
    if |s| == 0 || a == b {
      g := f;
      return;
    }
    var q, rest := s[0], s[1..];
    assert s == [q] + rest;
    var b', fb := Unfold(k, b, q, rest, f);
    MovesBounds(k, b, q, b');
    var a' := Follow(k, a, b, q, b');
    var g' := Mimic(k, a', b', rest, fb);
    SubsetCard(b' - a', (b - a) - {q});
    DemandStep(k, a, q, rest, a', g');
    g := if q in a then g' else g' + 1;
  }

  /** A full resident set that differs from `b` has a page `b` lacks. */
  lemma Outside(k: nat, a: set<Page>, b: set<Page>) returns (w: Page)
    requires |b| <= k <= |a| && a != b
    ensures w in a && w !in b
  {
    if a <= b {
      SubsetCard(a, b);
      FullSubset(a, b);
    }
    w :| w in a && w !in b;
  }

  /** Keeping `x`, requested no earlier than `y`, never beats keeping `y`:
      whatever a policy holding `base + {x}` achieves, one holding
      `base + {y}` achieves with no more faults. */
  lemma {:induction false} Exchange(k: nat, base: set<Page>, x: Page, y: Page, s: seq<Page>, f: nat) returns (g: nat)
    requires x != y && x !in base && y !in base && |base| + 1 <= k
    requires Achievable(k, base + {x}, s, f)
    requires NextIdx(s, y) <= NextIdx(s, x)
    ensures Achievable(k, base + {y}, s, g) && g <= f
    decreases |s|, 2
  {
    var a, b := base + {y}, base + {x};
    if |s| == 0 {
      g := 0;
      return;
    }
    var q, rest := s[0], s[1..];
    assert s == [q] + rest;
    var b', fb := Unfold(k, b, q, rest, f);
    if q == y {
      g := ExchangeOnRequest(k, base, x, y, rest, b', fb);
    } else if q in base {
      var g' := Exchange(k, base, x, y, rest, f);
      DemandStep(k, a, q, rest, a, g');
      g := g';
    } else if q != x {
      assert NextIdx(rest, y) <= NextIdx(rest, x);
      var a', g' := ExchangeOnFault(k, base, x, y, q, rest, b', fb);
      DemandStep(k, a, q, rest, a', g');
      g := g' + 1;
    } else {
      assert false;
    }
  }

  /** The step of `Exchange` where `y` is requested: the set holding `y` hits
      and then copies whatever the other set does, one page apart. */
  lemma ExchangeOnRequest(k: nat, base: set<Page>, x: Page, y: Page, rest: seq<Page>, b': set<Page>, fb: nat)
    returns (g: nat)
    requires x != y && x !in base && y !in base && |base| + 1 <= k
    requires Moves(k, base + {x}, y, b') && Achievable(k, b', rest, fb)
    ensures Achievable(k, base + {y}, [y] + rest, g) && g <= fb + 1
  {
    var a, b := base + {y}, base + {x};
    MovesBounds(k, b, y, b');
    var g' := Mimic(k, a, b', rest, fb);
    SubsetCard(b' - a, {x});
    DemandStep(k, a, y, rest, a, g');
    g := g';
  }

  /** The step of `Exchange` where both resident sets fault: the one holding
      `y` makes the matching move and stays one exchange away. */
  lemma {:induction false} ExchangeOnFault(k: nat, base: set<Page>, x: Page, y: Page, q: Page, rest: seq<Page>,
                                           b': set<Page>, fb: nat) returns (a': set<Page>, g: nat)
    requires x != y && x !in base && y !in base && |base| + 1 <= k
    requires q !in base && q != x && q != y
    requires Moves(k, base + {x}, q, b') && Achievable(k, b', rest, fb)
    requires NextIdx(rest, y) <= NextIdx(rest, x)
    ensures Moves(k, base + {y}, q, a') && Achievable(k, a', rest, g) && g <= fb
    decreases |rest| + 1, 1
  {
    var a, b := base + {y}, base + {x};
    assert |a| == |base| + 1 == |b|;
    if |b| < k {
      assert b' == (base + {q}) + {x};
      g := Exchange(k, base + {q}, x, y, rest, fb);
      a' := a + {q};
      assert a' == (base + {q}) + {y};
    } else {
      var v :| v in b && b' == b - {v} + {q};
      if v == x {
        a' := EvictKept(base, x, y, q, b');
        g := fb;
      } else {
        a', g := ExchangeOnEvict(k, base, x, y, q, rest, v, b', fb);
      }
    }
  }

  /** Both sets evict their odd page out and end up equal. */
  lemma EvictKept(base: set<Page>, x: Page, y: Page, q: Page, b': set<Page>) returns (a': set<Page>)
    requires x !in base && y !in base && b' == base + {x} - {x} + {q}
    ensures y in base + {y} && a' == base + {y} - {y} + {q} && a' == b'
  {
    a' := base + {y} - {y} + {q};
  }

  /** Both sets evict the same shared page `v` and stay one exchange away. */
  lemma {:induction false} ExchangeOnEvict(k: nat, base: set<Page>, x: Page, y: Page, q: Page, rest: seq<Page>,
                                           v: Page, b': set<Page>, fb: nat) returns (a': set<Page>, g: nat)
    requires x != y && x !in base && y !in base && |base| + 1 <= k
    requires q !in base && q != x && q != y && v in base
    requires b' == base + {x} - {v} + {q} && Achievable(k, b', rest, fb)
    requires NextIdx(rest, y) <= NextIdx(rest, x)
    ensures v in base + {y} && a' == base + {y} - {v} + {q} && Achievable(k, a', rest, g) && g <= fb
    decreases |rest| + 1, 0
  {
    var base' := base - {v} + {q};
    SwapCard(base, v, q);
    assert b' == base' + {x};
    g := Exchange(k, base', x, y, rest, fb);
    a' := base + {y} - {v} + {q};
    assert a' == base' + {y};
  }

  // ---------------------------------------------------------------- greedy steps

  /** Swapping `v` for `q` is swapping `x` for `q` with `v` and `x` traded. */
  lemma Regroup(c: set<Page>, v: Page, x: Page, q: Page)
    requires v in c && x in c && v != x && q !in c
    ensures var base := c - {v} - {x} + {q};
            && c - {v} + {q} == base + {x} && c - {x} + {q} == base + {v}
            && x !in base && v !in base && |base| + 1 == |c|
  {
    var base := c - {v} - {x} + {q};
    assert |c - {v} - {x}| == |c| - 2;
  }

  /** Evicting a page whose next request is the farthest ahead costs nothing
      against any other policy: whatever count is reachable before the fault
      is reachable, less the fault itself, after it. */
  lemma FarthestStep(k: nat, c: set<Page>, q: Page, rest: seq<Page>, x: Page, f: nat) returns (g: nat)
    requires |c| == k && q !in c && x in c
    requires forall y :: y in c ==> NextIdx(rest, y) <= NextIdx(rest, x)
    requires Achievable(k, c, [q] + rest, f)
    ensures Achievable(k, c - {x} + {q}, rest, g) && g + 1 <= f
  {
    var b', fb := Unfold(k, c, q, rest, f);
    var v :| v in c && b' == c - {v} + {q};
    if v == x {
      g := fb;
    } else {
      var base := c - {v} - {x} + {q};
      Regroup(c, v, x, q);
      g := Exchange(k, base, x, v, rest, fb);
    }
  }


  /** The faults the trace of resident sets `cs` and running fault totals
      `fs` along `s` still incurs from position `n` on are reachable from
      `cs[n]`. */
  ghost predicate Remaining(k: nat, cs: seq<set<Page>>, fs: seq<nat>, s: seq<Page>, n: nat)
    requires |cs| == |s| + 1 && |fs| == |s| + 1 && n <= |s|
  {
    fs[|s|] >= fs[n] && Achievable(k, cs[n], s[n..], fs[|s|] - fs[n])
  }

  /** A trace in which every step is a legal move, costing a fault exactly
      when the page was absent, is a demand-paging policy from every
      position on. */
  lemma {:induction false} TraceAchieves(k: nat, cs: seq<set<Page>>, fs: seq<nat>, s: seq<Page>, n: nat)
    requires |cs| == |s| + 1 && |fs| == |s| + 1 && n <= |s|
    requires forall i :: 0 <= i < |s| ==> Moves(k, cs[i], s[i], cs[i + 1])
    requires forall i :: 0 <= i < |s| ==> fs[i + 1] == if s[i] in cs[i] then fs[i] else fs[i] + 1
    ensures Remaining(k, cs, fs, s, n)
    decreases |s| - n
  {
    if n < |s| {
      TraceAchieves(k, cs, fs, s, n + 1);
      TraceStepBack(k, cs, fs, s, n);
    }
  }

  /** One legal move in front of a trace keeps what remains reachable. */
  lemma TraceStepBack(k: nat, cs: seq<set<Page>>, fs: seq<nat>, s: seq<Page>, n: nat)
    requires |cs| == |s| + 1 && |fs| == |s| + 1 && n < |s|
    requires Moves(k, cs[n], s[n], cs[n + 1])
    requires fs[n + 1] == if s[n] in cs[n] then fs[n] else fs[n] + 1
    requires Remaining(k, cs, fs, s, n + 1)
    ensures Remaining(k, cs, fs, s, n)
  {
    var g := fs[|s|] - fs[n + 1];
    DemandStep(k, cs[n], s[n], s[n + 1..], cs[n + 1], g);
    assert s[n..] == [s[n]] + s[n + 1..];
  }

  /** So a whole trace that starts from empty frames with no faults reaches
      its final fault total. */
  lemma TraceFromEmpty(k: nat, cs: seq<set<Page>>, fs: seq<nat>, s: seq<Page>)
    requires |cs| == |s| + 1 && |fs| == |s| + 1 && cs[0] == {} && fs[0] == 0
    requires forall i :: 0 <= i < |s| ==> Moves(k, cs[i], s[i], cs[i + 1])
    requires forall i :: 0 <= i < |s| ==> fs[i + 1] == if s[i] in cs[i] then fs[i] else fs[i] + 1
    ensures Achievable(k, {}, s, fs[|s|])
  {
    TraceAchieves(k, cs, fs, s, 0);
    assert s[0..] == s;
  }
}
