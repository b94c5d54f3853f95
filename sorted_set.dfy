/**
 * The parts of a Redis sorted set that the semaphore relies on. A sorted set
 * maps each member (a string) to a score; members are ordered by score, and
 * members with equal scores by the byte order of their names.
 */
module SortedSet {

  type ZSet = map<string, int>

  /** Lexicographic order on member names: a proper prefix comes first. */
  predicate NameLess(a: string, b: string)
  {
    if a == [] then b != []
    else if b == [] then false
    else if a[0] != b[0] then a[0] < b[0]
    else NameLess(a[1..], b[1..])
  }

  lemma {:induction false} NameLessIrreflexive(a: string)
    ensures !NameLess(a, a)
  {
    if a != [] { NameLessIrreflexive(a[1..]); }
  }

  lemma {:induction false} NameLessAsymmetric(a: string, b: string)
    requires NameLess(a, b)
    ensures !NameLess(b, a)
  {
    if a != [] && b != [] && a[0] == b[0] { NameLessAsymmetric(a[1..], b[1..]); }
  }

  lemma {:induction false} NameLessTransitive(a: string, b: string, c: string)
    requires NameLess(a, b) && NameLess(b, c)
    ensures NameLess(a, c)
  {
    if a != [] && a[0] == b[0] && b[0] == c[0] {
      NameLessTransitive(a[1..], b[1..], c[1..]);
    }
  }

  lemma {:induction false} NameLessTotal(a: string, b: string)
    requires a != b
    ensures NameLess(a, b) || NameLess(b, a)
  {
    if a != [] && b != [] && a[0] == b[0] {
      assert a == [a[0]] + a[1..] && b == [b[0]] + b[1..];
      NameLessTotal(a[1..], b[1..]);
    }
  }

  /** Member `x` with score `sx` sorts before member `y` with score `sy`. */
  predicate Before(sx: int, x: string, sy: int, y: string)
  {
    sx < sy || (sx == sy && NameLess(x, y))
  }

  /** The members that sort strictly before `member`. */
  function Predecessors(z: ZSet, member: string): (p: set<string>)
    requires member in z
    ensures p <= z.Keys - {member}
  {
    NameLessIrreflexive(member);
    set m | m in z && Before(z[m], m, z[member], member)
  }

  /** The 0-based position of `member` in the sorted set (ZRANK). */
  function Rank(z: ZSet, member: string): (r: nat)
    requires member in z
    ensures r < |z|
  {
    var p := Predecessors(z, member);
    assert |z.Keys - {member}| == |z| - 1;
    SubsetCard(p, z.Keys - {member});
    |p|
  }

  lemma {:induction false} SubsetCard<T>(a: set<T>, b: set<T>)
    requires a <= b
    ensures |a| <= |b|
  {
    assert b == a + (b - a);
  }

  /**
   * ZREMRANGEBYSCORE key -inf max: drop every member whose score is at or
   * below `max`; the scores of the members kept are unchanged.
   */
  function RemoveRangeByScore(z: ZSet, max: int): (p: ZSet)
    ensures forall m :: m in p <==> m in z && z[m] > max
    ensures forall m :: m in p ==> p[m] == z[m]
  {
    map m | m in z && z[m] > max :: z[m]
  }

  /** A member that sorts before another has a strictly smaller rank. */
  lemma RankOrder(z: ZSet, x: string, y: string)
    requires x in z && y in z
    requires Before(z[x], x, z[y], y)
    ensures Rank(z, x) < Rank(z, y)
  {
    var px, py := Predecessors(z, x), Predecessors(z, y);
    forall m | m in px
      ensures m in py - {x}
    {
      if z[m] == z[x] && z[x] == z[y] {
        NameLessTransitive(m, x, y);
      }
      NameLessIrreflexive(x);
    }
    assert x in py;
    SubsetCard(px, py - {x});
  }

  /** Distinct members occupy distinct positions. */
  lemma RanksDistinct(z: ZSet, x: string, y: string)
    requires x in z && y in z && x != y
    ensures Rank(z, x) != Rank(z, y)
  {
    NameLessTotal(x, y);
    if Before(z[x], x, z[y], y) {
      RankOrder(z, x, y);
    } else {
      RankOrder(z, y, x);
    }
  }

  /** When `member` has the highest score, every other member precedes it. */
  lemma RankOfNewest(z: ZSet, member: string)
    requires member in z
    requires forall m :: m in z && m != member ==> z[m] < z[member]
    ensures Rank(z, member) == |z| - 1
  {
    assert Predecessors(z, member) == z.Keys - {member};
    assert |z.Keys - {member}| == |z| - 1;
  }

  /** Adding a member and removing it again leaves the rest as it was. */
  lemma AddThenRemove(z: ZSet, name: string, score: int)
    ensures z[name := score] - {name} == z - {name}
  {
    SameEntries(z[name := score] - {name}, z - {name});
  }

  /** Proof helper, not a property: map extensionality, stated once for the solver. */
  lemma SameEntries(x: ZSet, y: ZSet)
    requires x.Keys == y.Keys
    requires forall m :: m in x ==> x[m] == y[m]
    ensures x == y
  {
  }
}
