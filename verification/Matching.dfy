/**
  The theory behind the process check of the sitter.

  Running processes and process definitions are both ranked by their position
  in a list. A process may serve a definition when `ok` says so; nothing is
  assumed about `ok`. A pairing maps process positions to definition
  positions.
*/
module Matching {

  type Acceptable = (nat, nat) -> bool

  /** No definition serves twice, and only acceptable pairs are made. */
  ghost predicate IsMatching(ok: Acceptable, n: nat, m: nat, pairing: map<nat, nat>) {
    && (forall p :: p in pairing ==> p < n && pairing[p] < m && ok(p, pairing[p]))
    && (forall p, q :: p in pairing && q in pairing && pairing[p] == pairing[q] ==> p == q)
  }

  /** Process `p` and definition `d` both rank each other above what they got. */
  ghost predicate Blocks(ok: Acceptable, pairing: map<nat, nat>, p: nat, d: nat) {
    && ok(p, d)
    && (p in pairing ==> d < pairing[p])
    && (forall q :: q in pairing && pairing[q] == d ==> p < q)
  }

  ghost predicate Stable(ok: Acceptable, n: nat, m: nat, pairing: map<nat, nat>) {
    && IsMatching(ok, n, m, pairing)
    && (forall p: nat, d: nat :: p < n && d < m ==> !Blocks(ok, pairing, p, d))
  }

  /** The definitions no process was paired with. */
  ghost predicate Unserved(pairing: map<nat, nat>, d: nat) {
    forall p :: p in pairing ==> pairing[p] != d
  }

  // ----- Growing a stable pairing by one more process -----

  lemma ExtendPaired(ok: Acceptable, i: nat, m: nat, pairing: map<nat, nat>, d: nat)
    requires Stable(ok, i, m, pairing) && d < m && ok(i, d) && Unserved(pairing, d)
    requires forall e: nat :: e < d && ok(i, e) ==> !Unserved(pairing, e)
    ensures Stable(ok, i + 1, m, pairing[i := d])
    ensures forall e: nat :: Unserved(pairing[i := d], e) <==> Unserved(pairing, e) && e != d
  {
    var longer := pairing[i := d];
    forall e: nat
      ensures Unserved(longer, e) <==> Unserved(pairing, e) && e != d
    {
      if Unserved(longer, e) {
        assert longer[i] != e;
        assert forall p :: p in pairing ==> longer[p] == pairing[p];
      }
    }
    forall p: nat, e: nat | p < i + 1 && e < m
      ensures !Blocks(ok, longer, p, e)
    {
      if p < i {
        assert !Blocks(ok, pairing, p, e);
        if q :| q in pairing && pairing[q] == e && q <= p {
          assert longer[q] == e;
        }
      } else if e < d && ok(i, e) {
        var q :| q in pairing && pairing[q] == e;
        assert longer[q] == e;
      }
    }
  }

  lemma ExtendUnpaired(ok: Acceptable, i: nat, n: nat, m: nat, pairing: map<nat, nat>)
    requires Stable(ok, i, m, pairing) && i <= n
    requires forall p: nat, e: nat :: i <= p < n && e < m && ok(p, e) ==> !Unserved(pairing, e)
    ensures Stable(ok, n, m, pairing)
  {
    forall p: nat, e: nat | p < n && e < m
      ensures !Blocks(ok, pairing, p, e)
    {
      if i <= p && ok(p, e) {
        var q :| q in pairing && pairing[q] == e;
      }
    }
  }

  // ----- The list of what is still unserved -----

  ghost predicate Ascending(positions: seq<nat>) {
    forall i, k :: 0 <= i < k < |positions| ==> positions[i] < positions[k]
  }

  ghost predicate UnservedList(missing: seq<nat>, pairing: map<nat, nat>, m: nat) {
    && Ascending(missing)
    && (forall k :: 0 <= k < |missing| ==> missing[k] < m && Unserved(pairing, missing[k]))
    && (forall d: nat :: d < m && Unserved(pairing, d) ==> d in missing)
  }

  lemma EraseKeepsOthers(positions: seq<nat>, j: nat)
    requires Ascending(positions) && j < |positions|
    ensures var rest := positions[..j] + positions[j + 1..];
            && Ascending(rest)
            && (forall k :: 0 <= k < |rest| ==> rest[k] in positions && rest[k] != positions[j])
            && (forall d :: d in positions && d != positions[j] ==> d in rest)
  {
    var rest := positions[..j] + positions[j + 1..];
    forall d | d in positions && d != positions[j]
      ensures d in rest
    {
      var k :| 0 <= k < |positions| && positions[k] == d;
      assert rest[if k < j then k else k - 1] == d;
    }
  }

  lemma AllUnserved(m: nat) returns (missing: seq<nat>)
    ensures missing == seq(m, k => k)
    ensures UnservedList(missing, map[], m)
  {
    missing := seq(m, k => k);
    forall d: nat | d < m
      ensures d in missing
    {
      assert missing[d] == d;
    }
  }

  /** Crossing off the first one left that suits `i` keeps the pairing stable. */
  lemma Cross(ok: Acceptable, i: nat, m: nat, pairing: map<nat, nat>, missing: seq<nat>, j: nat)
    requires Stable(ok, i, m, pairing) && UnservedList(missing, pairing, m)
    requires j < |missing| && ok(i, missing[j])
    requires forall k :: 0 <= k < j ==> !ok(i, missing[k])
    ensures Stable(ok, i + 1, m, pairing[i := missing[j]])
    ensures UnservedList(missing[..j] + missing[j + 1..], pairing[i := missing[j]], m)
  {
    forall e: nat | e < missing[j] && ok(i, e)
      ensures !Unserved(pairing, e)
    {
      assert e !in missing;
    }
    ExtendPaired(ok, i, m, pairing, missing[j]);
    EraseKeepsOthers(missing, j);
  }

  lemma Pass(ok: Acceptable, i: nat, m: nat, pairing: map<nat, nat>, missing: seq<nat>)
    requires Stable(ok, i, m, pairing) && UnservedList(missing, pairing, m)
    requires forall k :: 0 <= k < |missing| ==> !ok(i, missing[k])
    ensures Stable(ok, i + 1, m, pairing)
  {
    ExtendUnpaired(ok, i, i + 1, m, pairing);
  }

  lemma {:induction false} AscendingIsUnique(one: seq<nat>, two: seq<nat>)
    requires Ascending(one) && Ascending(two)
    requires forall d :: d in one <==> d in two
    ensures one == two
  {
    if one == [] {
      assert forall i :: 0 <= i < |two| ==> two[i] in two;
    } else {
      assert one[0] in two && (two != [] ==> two[0] in one);
      assert one[0] == two[0];
      forall d
        ensures d in one[1..] <==> d in two[1..]
      {
        assert d in one[1..] <==> d in one && d > one[0];
        assert d in two[1..] <==> d in two && d > two[0];
      }
      AscendingIsUnique(one[1..], two[1..]);
    }
  }

  // ----- There is only one stable pairing -----

  /** Two stable pairings that agree before `p` agree at `p`, seen from the first. */
  lemma StableStep(ok: Acceptable, n: nat, m: nat, one: map<nat, nat>, two: map<nat, nat>, p: nat)
    requires Stable(ok, n, m, one) && Stable(ok, n, m, two)
    requires forall q: nat :: q < p ==> (q in one <==> q in two) && (q in one ==> one[q] == two[q])
    requires p in one
    ensures p in two && two[p] <= one[p]
  {
    assert !Blocks(ok, two, p, one[p]);
  }

  lemma {:induction false} StableAgree(
    ok: Acceptable, n: nat, m: nat, one: map<nat, nat>, two: map<nat, nat>, p: nat)
    requires Stable(ok, n, m, one) && Stable(ok, n, m, two)
    ensures forall q: nat :: q < p ==> (q in one <==> q in two) && (q in one ==> one[q] == two[q])
  {
    if p > 0 {
      StableAgree(ok, n, m, one, two, p - 1);
      if p - 1 in one { StableStep(ok, n, m, one, two, p - 1); }
      if p - 1 in two { StableStep(ok, n, m, two, one, p - 1); }
    }
  }

  lemma StableIsUnique(ok: Acceptable, n: nat, m: nat, one: map<nat, nat>, two: map<nat, nat>)
    requires Stable(ok, n, m, one) && Stable(ok, n, m, two)
    ensures one == two
  {
    StableAgree(ok, n, m, one, two, n);
    assert one.Keys == two.Keys;
  }

  // ----- How much of the definitions it serves -----

  /** Every process that suits a definition got an earlier one. */
  ghost predicate AllSpent(ok: Acceptable, n: nat, pairing: map<nat, nat>, d: nat) {
    forall p: nat :: p < n && ok(p, d) ==> p in pairing && pairing[p] < d
  }

  /** Exactly which definitions stay unserved, whatever the acceptable pairs are. */
  lemma UnservedExactly(ok: Acceptable, n: nat, m: nat, pairing: map<nat, nat>, d: nat)
    requires Stable(ok, n, m, pairing) && d < m
    ensures Unserved(pairing, d) <==> AllSpent(ok, n, pairing, d)
  {
    forall p: nat | p < n && ok(p, d) && Unserved(pairing, d)
      ensures p in pairing && pairing[p] < d
    {
      assert !Blocks(ok, pairing, p, d);
    }
    if AllSpent(ok, n, pairing, d) {
      forall p | p in pairing
        ensures pairing[p] != d
      {
        assert pairing[p] == d ==> ok(p, d);
      }
    }
  }

  /** When no process suits two definitions, "unserved" means "nothing suitable runs". */
  lemma UnservedWhenUnambiguous(ok: Acceptable, n: nat, m: nat, pairing: map<nat, nat>, d: nat)
    requires Stable(ok, n, m, pairing) && d < m
    requires forall p: nat, a: nat, b: nat ::
               p < n && a < m && b < m && ok(p, a) && ok(p, b) ==> a == b
    ensures Unserved(pairing, d) <==> forall p: nat :: p < n ==> !ok(p, d)
  {
    UnservedExactly(ok, n, m, pairing, d);
    forall p: nat | p < n && ok(p, d)
      ensures !(p in pairing && pairing[p] < d)
    {
      assert p in pairing ==> ok(p, pairing[p]);
    }
  }

  /** An injective map has as many values as keys. */
  lemma {:induction false} InjectiveImage(pairs: map<nat, nat>, keys: set<nat>, values: set<nat>)
    requires keys <= pairs.Keys
    requires forall p, q :: p in keys && q in keys && pairs[p] == pairs[q] ==> p == q
    requires forall p :: p in keys ==> pairs[p] in values
    ensures |keys| <= |values|
    decreases keys
  {
    if keys != {} {
      var p :| p in keys;
      InjectiveImage(pairs, keys - {p}, values - {pairs[p]});
    }
  }

  lemma {:induction false} ValuesAtMostKeys(pairs: map<nat, nat>)
    ensures |pairs.Values| <= |pairs|
    decreases |pairs|
  {
    if pairs.Keys == {} {
      assert pairs.Values == {};
    } else {
      var p :| p in pairs;
      var rest := pairs - {p};
      assert rest.Keys == pairs.Keys - {p};
      ValuesAtMostKeys(rest);
      assert pairs.Values <= rest.Values + {pairs[p]} by {
        forall v | v in pairs.Values
          ensures v in rest.Values + {pairs[p]}
        {
          var q :| q in pairs && pairs[q] == v;
          assert q == p || (q in rest && rest[q] == v);
        }
      }
      SubsetSize(pairs.Values, rest.Values + {pairs[p]});
    }
  }

  lemma {:induction false} SubsetSize(small: set<nat>, large: set<nat>)
    requires small <= large
    ensures |small| <= |large|
    decreases small
  {
    if small != {} {
      var x :| x in small;
      SubsetSize(small - {x}, large - {x});
    }
  }

  /** A stable pairing serves at least half of what any pairing could. */
  lemma StableServesHalf(ok: Acceptable, n: nat, m: nat, pairing: map<nat, nat>, other: map<nat, nat>)
    requires Stable(ok, n, m, pairing) && IsMatching(ok, n, m, other)
    ensures |other| <= 2 * |pairing|
  {
    var shared := other.Keys * pairing.Keys;
    var rest := other.Keys - pairing.Keys;
    forall p | p in rest
      ensures other[p] in pairing.Values
    {
      assert !Blocks(ok, pairing, p, other[p]);
    }
    InjectiveImage(other, rest, pairing.Values);
    ValuesAtMostKeys(pairing);
    SubsetSize(shared, pairing.Keys);
    assert other.Keys == shared + rest;
  }

  /** Two processes and two definitions, of which all but the last pair are acceptable. */
  lemma StableOfTwo(ok: Acceptable, n: nat, m: nat, pairing: map<nat, nat>)
    requires n == m == 2 && Stable(ok, n, m, pairing)
    requires ok(0, 0) && ok(0, 1) && ok(1, 0) && !ok(1, 1)
    ensures pairing == map[0 := 0] && |pairing| == 1
    ensures IsMatching(ok, n, m, map[0 := 1, 1 := 0])
  {
    assert !Blocks(ok, pairing, 0, 0);
    assert 0 in pairing && pairing[0] == 0;
    assert pairing == map[0 := 0];
  }

  /** A single definition is served by the first process that suits it. */
  lemma StableOfOne(ok: Acceptable, n: nat, pairing: map<nat, nat>, p: nat)
    requires Stable(ok, n, 1, pairing)
    ensures p in pairing <==> p < n && ok(p, 0) && forall q: nat :: q < p ==> !ok(q, 0)
  {
    if p < n && ok(p, 0) {
      assert !Blocks(ok, pairing, p, 0);
    }
    if p in pairing {
      assert pairing[p] == 0;
      forall q: nat | q < p
        ensures !ok(q, 0)
      {
        assert !Blocks(ok, pairing, q, 0);
      }
    }
  }

  /** A lone process is spent on the first definition it suits. */
  lemma SharedIsSpent(ok: Acceptable, n: nat, m: nat, pairing: map<nat, nat>, a: nat, b: nat)
    requires n == 1 && a < b < m && Stable(ok, n, m, pairing) && ok(0, a)
    ensures AllSpent(ok, n, pairing, b)
  {
    assert !Blocks(ok, pairing, 0, a);
  }
}
