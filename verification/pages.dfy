/** Vocabulary shared by every model of the page-replacement engine: pages,
    policy tags, frame sets kept as duplicate-free sequences, and the small
    array primitives (`indexOf`, `filter`, `splice`, `Math.floor`) that the
    engine's loops are built from. */
module Pages {

  /** A page identifier; only equality between pages matters. */
  type Page = nat

  /** The six policy tags the engine dispatches on. */
  datatype Policy = Fifo | Lru | Optimal | Clock | Nfu | Random

  datatype Option<+T> = None | Some(value: T)

  /** A number that may be `Infinity`, as the scans seed their running minimum. */
  datatype ExtNat = Infinity | Fin(n: nat)

  /** `x < e` where `e` may be `Infinity`. */
  predicate Below(x: nat, e: ExtNat) {
    e.Infinity? || x < e.n
  }

  /** A frame set holds each page at most once. The quantifier fires only on
      an explicit `Apart` term, so a proof that needs two slots to differ
      asks for it (see `Distinct`). */
  predicate NoDups(s: seq<Page>) {
    forall i, j {:trigger Apart(s, i, j)} :: 0 <= i < j < |s| ==> Apart(s, i, j)
  }

  /** Slots `i` and `j` of `s` hold different pages. */
  predicate Apart(s: seq<Page>, i: int, j: int) {
    0 <= i < |s| && 0 <= j < |s| && s[i] != s[j]
  }

  /** Two different slots of a duplicate-free sequence hold different pages. */
  lemma Distinct(s: seq<Page>, i: nat, j: nat)
    requires NoDups(s) && i < |s| && j < |s| && i != j
    ensures s[i] != s[j]
  {
    if i < j {
      assert Apart(s, i, j);
    } else {
      assert Apart(s, j, i);
    }
  }

  /** In a duplicate-free sequence a page sits in one slot only. */
  lemma SameSlot(s: seq<Page>, i: nat, j: nat)
    requires NoDups(s) && i < |s| && j < |s| && s[i] == s[j]
    ensures i == j
  {
    if i != j {
      Distinct(s, i, j);
      assert false;
    }
  }

  /** A page put in front of a sequence keeps it duplicate-free exactly when
      the page is new and the sequence was duplicate-free. */
  lemma NoDupsCons(x: Page, s: seq<Page>)
    ensures NoDups([x] + s) <==> x !in s && NoDups(s)
  {
    var t := [x] + s;
    if NoDups(t) {
      forall i, j | 0 <= i < j < |s|
        ensures Apart(s, i, j)
      {
        assert Apart(t, i + 1, j + 1);
      }
      forall m | 0 <= m < |s|
        ensures s[m] != x
      {
        assert Apart(t, 0, m + 1);
      }
    }
    if x !in s && NoDups(s) {
      forall i, j | 0 <= i < j < |t|
        ensures Apart(t, i, j)
      {
        if i > 0 {
          assert Apart(s, i - 1, j - 1);
        } else {
          assert t[j] == s[j - 1];
        }
      }
    }
  }

  /** A page put after a sequence keeps it duplicate-free exactly when the
      page is new and the sequence was duplicate-free. */
  lemma NoDupsSnoc(s: seq<Page>, x: Page)
    ensures NoDups(s + [x]) <==> NoDups(s) && x !in s
  {
    var t := s + [x];
    if NoDups(t) {
      forall i, j | 0 <= i < j < |s|
        ensures Apart(s, i, j)
      {
        assert Apart(t, i, j);
      }
      forall m | 0 <= m < |s|
        ensures s[m] != x
      {
        assert Apart(t, m, |s|);
      }
    }
    if x !in s && NoDups(s) {
      forall i, j | 0 <= i < j < |t|
        ensures Apart(t, i, j)
      {
        if j < |s| {
          assert Apart(s, i, j);
        } else {
          assert t[i] == s[i];
        }
      }
    }
  }

  /** Every slice of a duplicate-free sequence is duplicate-free. */
  lemma NoDupsSlice(s: seq<Page>, a: nat, b: nat)
    requires NoDups(s) && a <= b <= |s|
    ensures NoDups(s[a..b])
  {
    forall i, j | 0 <= i < j < b - a
      ensures Apart(s[a..b], i, j)
    {
      assert Apart(s, a + i, a + j);
    }
  }

  /** The first page of a duplicate-free sequence does not come back. */
  lemma NoDupsHead(s: seq<Page>)
    requires NoDups(s) && |s| > 0
    ensures s[0] !in s[1..] && NoDups(s[1..])
  {
    assert s == [s[0]] + s[1..];
    NoDupsCons(s[0], s[1..]);
  }

  /** The resident pages of a frame sequence, forgetting order. */
  function Elems(s: seq<Page>): set<Page> {
    set x | x in s
  }

  /** `s.indexOf(p, from)`: the first position at or after `from` that holds
      `p`, or -1 when there is none. */
  function IndexFrom(s: seq<Page>, p: Page, from: nat): (r: int)
    ensures r == -1 <==> forall k :: from <= k < |s| ==> s[k] != p
    ensures r != -1 ==> from <= r < |s| && s[r] == p
    ensures r != -1 ==> forall k :: from <= k < r ==> s[k] != p
    decreases |s| - from
  {
    if from >= |s| then -1
    else if s[from] == p then from
    else IndexFrom(s, p, from + 1)
  }

  /** `s.indexOf(p)`. */
  function IndexOf(s: seq<Page>, p: Page): (r: int)
    ensures r == -1 <==> p !in s
    ensures r != -1 ==> 0 <= r < |s| && s[r] == p && p !in s[..r]
  {
    IndexFrom(s, p, 0)
  }

  /** `s.filter(x => x !== p)`. */
  function Without(s: seq<Page>, p: Page): (r: seq<Page>)
    ensures forall x :: x in r <==> x in s && x != p
    ensures |r| <= |s|
    ensures p in s ==> |r| < |s|
    ensures p !in s ==> |r| == |s|
    ensures NoDups(s) && p in s ==> |r| == |s| - 1
    ensures NoDups(s) ==> NoDups(r)
  {
    if |s| == 0 then []
    else
      var rest := Without(s[1..], p);
      assert s == [s[0]] + s[1..];
      NoDupsCons(s[0], s[1..]);
      if s[0] == p then rest
      else
        NoDupsCons(s[0], rest);
        [s[0]] + rest
  }

  /** Filtering removes exactly `p` from the pages held. */
  lemma WithoutElems(s: seq<Page>, p: Page)
    ensures Elems(Without(s, p)) == Elems(s) - {p}
  {
  }

  /** In a duplicate-free sequence, filtering out a resident page removes
      exactly its slot and keeps the relative order of every other page. */
  lemma {:induction false} WithoutResident(s: seq<Page>, k: nat)
    requires NoDups(s) && k < |s|
    ensures Without(s, s[k]) == s[..k] + s[k + 1..]
    decreases |s|
  {
    NoDupsHead(s);
    if k == 0 {
      WithoutAbsent(s[1..], s[0]);
    } else {
      Distinct(s, 0, k);
      WithoutResident(s[1..], k - 1);
      assert s[1..][..k - 1] + s[1..][k..] == s[1..k] + s[k + 1..];
      assert s == [s[0]] + s[1..];
    }
  }

  /** Filtering out an absent page changes nothing. */
  lemma {:induction false} WithoutAbsent(s: seq<Page>, p: Page)
    requires p !in s
    ensures Without(s, p) == s
    decreases |s|
  {
    if |s| > 0 {
      WithoutAbsent(s[1..], p);
      assert s == [s[0]] + s[1..];
    }
  }

  /** `Set.add` on a set kept in insertion order: a new member goes last. */
  function SetAdd(s: seq<Page>, p: Page): (r: seq<Page>)
    ensures Elems(r) == Elems(s) + {p}
    ensures NoDups(s) ==> NoDups(r)
    ensures p !in s ==> |r| == |s| + 1
  {
    NoDupsSnoc(s, p);
    if p in s then s else s + [p]
  }

  /** `a.splice(k, 1)`: removes one element; a negative start counts from the
      end, and a start past the end removes nothing. */
  function SpliceOne<T>(s: seq<T>, k: int): (r: seq<T>)
    ensures 0 <= k < |s| ==> r == s[..k] + s[k + 1..]
    ensures k < 0 && -k <= |s| ==> r == s[..|s| + k] + s[|s| + k + 1..]
  {
    var start := if k < 0 then (if |s| + k < 0 then 0 else |s| + k) else k;
    if start < |s| then s[..start] + s[start + 1..] else s
  }

  /** A duplicate-free sequence has as many distinct pages as slots. */
  lemma {:induction false} NoDupsCard(s: seq<Page>)
    requires NoDups(s)
    ensures |Elems(s)| == |s|
    decreases |s|
  {
    if |s| > 0 {
      var t := s[..|s| - 1];
      assert s == t + [s[|s| - 1]];
      NoDupsSnoc(t, s[|s| - 1]);
      NoDupsCard(t);
      assert Elems(s) == Elems(t) + {s[|s| - 1]};
      assert s[|s| - 1] !in Elems(t);
    }
  }

  /** Replacing a slot of a duplicate-free sequence by an absent page keeps it
      duplicate-free and swaps exactly one member of its set. */
  lemma ReplaceSlot(s: seq<Page>, k: nat, p: Page)
    requires NoDups(s) && k < |s| && p !in s
    ensures NoDups(s[k := p])
    ensures Elems(s[k := p]) == Elems(s) - {s[k]} + {p}
  {
    var r := s[k := p];
    forall i, j | 0 <= i < j < |r|
      ensures Apart(r, i, j)
    {
      if i != k && j != k {
        assert Apart(s, i, j);
      }
    }
    forall x | x in Elems(s) - {s[k]} + {p}
      ensures x in Elems(r)
    {
      if x != p {
        var j :| 0 <= j < |s| && s[j] == x;
        assert r[j] == x;
      } else {
        assert r[k] == p;
      }
    }
    forall j | 0 <= j < |r| && j != k
      ensures r[j] != s[k]
    {
      Distinct(s, j, k);
    }
  }

  /** `shift()` then `push(p)`: the oldest slot leaves and `p` arrives last. */
  lemma ShiftPush(s: seq<Page>, p: Page)
    requires |s| > 0 && NoDups(s) && p !in s
    ensures NoDups(s[1..] + [p])
    ensures Elems(s[1..] + [p]) == Elems(s) - {s[0]} + {p}
  {
    NoDupsHead(s);
    NoDupsSnoc(s[1..], p);
    assert s == [s[0]] + s[1..];
  }

  /** ASCII upper case, as `toUpperCase` acts on the identifiers it meets. */
  function Upper(s: string): (r: string)
    ensures |r| == |s|
    ensures forall i :: 0 <= i < |s| ==> r[i] == if 'a' <= s[i] <= 'z' then s[i] - 'a' + 'A' else s[i]
  {
    seq(|s|, i requires 0 <= i < |s| => if 'a' <= s[i] <= 'z' then s[i] - 'a' + 'A' else s[i])
  }

  /** ASCII lower case, as `toLowerCase` acts on the identifiers it meets. */
  function Lower(s: string): (r: string)
    ensures |r| == |s|
    ensures forall i :: 0 <= i < |s| ==> r[i] == if 'A' <= s[i] <= 'Z' then s[i] - 'A' + 'a' else s[i]
  {
    seq(|s|, i requires 0 <= i < |s| => if 'A' <= s[i] <= 'Z' then s[i] - 'A' + 'a' else s[i])
  }

  /** The identifier a policy goes by in the interface (`AlgorithmType`). */
  function Tag(alg: Policy): (r: string)
    ensures Lower(r) == r && |r| > 0
  {
    match alg
    case Fifo => "fifo"
    case Lru => "lru"
    case Optimal => "optimal"
    case Clock => "clock"
    case Nfu => "nfu"
    case Random => "random"
  }

  /** Every page drawn from a `Math.random()` value in [0, 1). */
  predicate ValidDraws(draws: seq<real>) {
    forall i :: 0 <= i < |draws| ==> 0.0 <= draws[i] < 1.0
  }

  /** `Math.floor(u * n)` for a draw `u` of `Math.random()`: an index into a
      collection of `n` slots. */
  function RandomIndex(u: real, n: nat): (k: nat)
    requires 0.0 <= u < 1.0
    ensures n > 0 ==> k < n
    ensures n == 0 ==> k == 0
  {
    var x := u * (n as real);
    assert 0.0 <= x by {
      assert 0.0 <= n as real;
    }
    assert n > 0 ==> x < n as real by {
      if n > 0 {
        assert (1.0 - u) * (n as real) > 0.0;
      }
    }
    x.Floor
  }
}
