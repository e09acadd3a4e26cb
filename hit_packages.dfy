/** The hits a single ray collects, keyed by distance (src/core/hit_package.cc).
    Every change goes through one insertion rule, `AddHit`; merging, shifting
    and scaling re-insert hits one at a time through it. */
module HitPackages {
  import opened Hits

  /** The package invariant: no stored hit is a "no hit", and each key is the
      distance of the hit stored under it. */
  ghost predicate WellFormed(m: map<real, Hit>) {
    forall d | d in m :: !m[d].IsNoHit() && m[d].distance == d
  }

  // Insertion rule =============================================================

  /** The map after `AddHit(h)`: a "no hit" is ignored; a new distance is
      inserted; at an occupied distance the new hit wins only if its kind has
      strictly higher priority. */
  function Inserted(m: map<real, Hit>, h: Hit): (r: map<real, Hit>)
    ensures WellFormed(m) ==> WellFormed(r)
    ensures r.Keys == if h.IsNoHit() then m.Keys else m.Keys + {h.distance}
    ensures forall d | d in m && d != h.distance :: r[d] == m[d]
  {
    if h.IsNoHit() then m
    else if h.distance in m && !h.kind.Outranks(m[h.distance].kind) then m
    else m[h.distance := h]
  }

  /** The three outcomes of the insertion rule, with their effect on the count. */
  lemma InsertedCases(m: map<real, Hit>, h: Hit)
    ensures h.IsNoHit() ==> Inserted(m, h) == m
    ensures !h.IsNoHit() && h.distance !in m ==>
      Inserted(m, h) == m[h.distance := h] && |Inserted(m, h)| == |m| + 1
    ensures !h.IsNoHit() && h.distance in m && h.kind.Outranks(m[h.distance].kind) ==>
      Inserted(m, h) == m[h.distance := h] && |Inserted(m, h)| == |m|
    ensures !h.IsNoHit() && h.distance in m && !h.kind.Outranks(m[h.distance].kind) ==>
      Inserted(m, h) == m
  {
    if !h.IsNoHit() && h.distance !in m {
      assert m[h.distance := h].Keys == m.Keys + {h.distance};
    }
    if !h.IsNoHit() && h.distance in m {
      assert m[h.distance := h].Keys == m.Keys;
    }
  }

  /** The insertion changes the map exactly when the source reports success:
      a valid hit at a new distance, or one that outranks the stored hit. */
  lemma InsertedChangesIff(m: map<real, Hit>, h: Hit)
    ensures Inserted(m, h) != m <==>
      !h.IsNoHit() && (h.distance !in m || h.kind.Outranks(m[h.distance].kind))
  {
    if !h.IsNoHit() && h.distance !in m {
      assert h.distance in Inserted(m, h);
    }
    if !h.IsNoHit() && h.distance in m && h.kind.Outranks(m[h.distance].kind) {
      assert Inserted(m, h)[h.distance].kind != m[h.distance].kind;
    }
  }

  /** Re-adding a hit that is already stored changes nothing. */
  lemma InsertedIdempotent(m: map<real, Hit>, h: Hit)
    ensures Inserted(Inserted(m, h), h) == Inserted(m, h)
  {
    var r := Inserted(m, h);
    if !h.IsNoHit() {
      assert h.distance in r;
      assert !h.kind.Outranks(r[h.distance].kind) by {
        Hits.PriorityIsStrictTotalOrder(h.kind, r[h.distance].kind, h.kind);
      }
    }
  }

  // Merging ====================================================================

  /** The result of merging package `b` into package `a`, in closed form: the
      union of both key sets, where at a shared distance `b`'s hit wins only if
      it strictly outranks `a`'s. */
  function MergeSpec(a: map<real, Hit>, b: map<real, Hit>): map<real, Hit> {
    map d | d in a.Keys + b.Keys ::
      if d in b && (d !in a || b[d].kind.Outranks(a[d].kind)) then b[d] else a[d]
  }

  /** What a merge promises: the distances are those of both packages, the
      invariant is kept, a distance held by one package keeps that hit, and at
      a shared distance the other package's hit replaces this one's only if it
      strictly outranks it. */
  lemma MergeSpecProperties(a: map<real, Hit>, b: map<real, Hit>)
    ensures MergeSpec(a, b).Keys == a.Keys + b.Keys
    ensures WellFormed(a) && WellFormed(b) ==> WellFormed(MergeSpec(a, b))
    ensures forall d | d in a && d !in b :: MergeSpec(a, b)[d] == a[d]
    ensures forall d | d in b && d !in a :: MergeSpec(a, b)[d] == b[d]
    ensures forall d | d in a && d in b ::
      MergeSpec(a, b)[d] == (if b[d].kind.Outranks(a[d].kind) then b[d] else a[d])
  {
  }

  /** Merging keeps the higher-priority hit at every shared distance; on a tie
      the receiving package keeps its own hit. */
  lemma MergeKeepsHigherPriority(a: map<real, Hit>, b: map<real, Hit>, d: real)
    requires WellFormed(a) && WellFormed(b)
    requires d in a && d in b
    ensures !a[d].kind.Outranks(MergeSpec(a, b)[d].kind)
    ensures !b[d].kind.Outranks(MergeSpec(a, b)[d].kind)
    ensures a[d].kind == b[d].kind ==> MergeSpec(a, b)[d] == a[d]
  {
    MergeSpecProperties(a, b);
    Hits.PriorityIsStrictTotalOrder(a[d].kind, b[d].kind, a[d].kind);
  }

  /** Merging a package into itself, or merging an empty package, changes nothing. */
  lemma MergeIdentities(a: map<real, Hit>)
    ensures MergeSpec(a, a) == a
    ensures MergeSpec(a, map[]) == a
    ensures MergeSpec(map[], a) == a
  {
    MergeSpecProperties(a, a);
    MergeSpecProperties(a, map[]);
    MergeSpecProperties(map[], a);
    forall d | d in a ensures !a[d].kind.Outranks(a[d].kind) {
      Hits.PriorityIsStrictTotalOrder(a[d].kind, a[d].kind, a[d].kind);
    }
  }

  /** One step of the merge loop: inserting the next hit of `b` extends the set
      of merged distances by that hit's distance. */
  lemma MergeStep(a: map<real, Hit>, b: map<real, Hit>, done: set<real>, d: real)
    requires WellFormed(a) && WellFormed(b)
    requires done <= b.Keys && d in b && d !in done
    ensures Inserted(MergeSpec(a, Restrict(b, done)), b[d]) == MergeSpec(a, Restrict(b, done + {d}))
    ensures done + {d} <= b.Keys && (b.Keys - done) - {d} == b.Keys - (done + {d})
  {
    var before := MergeSpec(a, Restrict(b, done));
    var after := MergeSpec(a, Restrict(b, done + {d}));
    var r := Inserted(before, b[d]);
    assert b[d].distance == d && !b[d].IsNoHit();
    assert r.Keys == after.Keys;
    forall k | k in r ensures r[k] == after[k] {
      if k != d {
        assert r[k] == before[k];
      }
    }
  }

  /** The part of `m` whose distances lie in `keys`. */
  function Restrict(m: map<real, Hit>, keys: set<real>): (r: map<real, Hit>)
    ensures r.Keys == m.Keys * keys
    ensures forall d | d in r :: r[d] == m[d]
    ensures WellFormed(m) ==> WellFormed(r)
  {
    map d | d in m.Keys * keys :: m[d]
  }

  /** Before the merge loop nothing of `b` has been merged. */
  lemma MergeStart(a: map<real, Hit>, b: map<real, Hit>)
    ensures MergeSpec(a, Restrict(b, {})) == a
  {
    assert Restrict(b, {}) == map[];
    MergeIdentities(a);
  }

  /** Restricting to a superset of the distances keeps the whole map. */
  lemma RestrictAll(m: map<real, Hit>, keys: set<real>)
    requires m.Keys <= keys
    ensures Restrict(m, keys) == m
  {
  }

  // Re-insertion in ascending distance order ===================================

  /** A uniform change of every distance: `ShiftHits` or `ScaleDistances`. */
  datatype Rescale = Shift(delta: real) | Scale(factor: real) {

    /** The new distance of a hit that was at distance `d`. */
    function Apply(d: real): real {
      match this
      case Shift(delta) => d + delta
      case Scale(factor) => d * factor
    }

    /** The hit after `Hit::ShiftDistance` or `Hit::ScaleDistance`. */
    function ApplyTo(h: Hit): (r: Hit)
      ensures r.distance == Apply(h.distance)
      ensures r.kind == h.kind && r.textureIndex == h.textureIndex
    {
      match this
      case Shift(delta) => h.ShiftDistance(delta)
      case Scale(factor) => h.ScaleDistance(factor)
    }

    /** Distinct distances stay distinct: every shift, and every non-zero scale. */
    predicate Injective() {
      Shift? || factor != 0.0
    }
  }

  /** Distinct distances stay distinct under an injective rescale. */
  lemma ApplyInjective(t: Rescale, x: real, y: real)
    requires t.Injective() && x != y
    ensures t.Apply(x) != t.Apply(y)
  {
  }

  /** A set of distances is empty or has an element. */
  lemma EmptyOrOccupied(s: set<real>)
    ensures s == {} || exists x :: x in s
  {
    if forall x :: x !in s {
      assert forall x :: x in s <==> x in {};
    }
  }

  /** `k` is the least distance of `s`. */
  predicate IsLeast(k: real, s: set<real>) {
    k in s && forall x | x in s :: k <= x
  }

  /** There is a least element in every non-empty finite set of distances. */
  lemma {:induction false} LeastExists(s: set<real>)
    requires s != {}
    ensures exists k :: IsLeast(k, s)
    decreases |s|
  {
    EmptyOrOccupied(s);
    var y :| y in s;
    if s != {y} {
      LeastExists(s - {y});
      var k :| IsLeast(k, s - {y});
      if y < k {
        forall x | x in s ensures y <= x {
          if x != y { assert x in s - {y}; }
        }
        assert IsLeast(y, s);
      } else {
        forall x | x in s ensures k <= x {
          if x != y { assert x in s - {y}; }
        }
        assert IsLeast(k, s);
      }
    } else {
      assert IsLeast(y, s);
    }
  }

  /** The least distance of a non-empty set: the next key `std::map` visits. */
  ghost function Least(s: set<real>): (k: real)
    requires s != {}
    ensures IsLeast(k, s)
  {
    LeastExists(s);
    var k :| IsLeast(k, s);
    k
  }

  /** A least element is unique. */
  lemma LeastUnique(s: set<real>, k: real)
    requires IsLeast(k, s)
    ensures k == Least(s)
  {
  }

  /** `acc` after rescaling every hit of `pending` and adding it back, in
      ascending order of the old distances, as `ShiftHits` and `ScaleDistances`
      do. */
  ghost function Reinserted(pending: map<real, Hit>, acc: map<real, Hit>, t: Rescale): map<real, Hit>
    decreases |pending|
  {
    if pending == map[] then acc
    else
      var d := Least(pending.Keys);
      Reinserted(pending - {d}, Inserted(acc, t.ApplyTo(pending[d])), t)
  }

  /** Re-insertion keeps the package invariant. */
  lemma {:induction false} ReinsertedWellFormed(pending: map<real, Hit>, acc: map<real, Hit>, t: Rescale)
    requires WellFormed(acc)
    ensures WellFormed(Reinserted(pending, acc, t))
    decreases |pending|
  {
    if pending != map[] {
      var d := Least(pending.Keys);
      ReinsertedWellFormed(pending - {d}, Inserted(acc, t.ApplyTo(pending[d])), t);
    }
  }

  /** Re-insertion never adds more distances than it is given: collisions can
      only merge hits. */
  lemma {:induction false} ReinsertedCountBound(pending: map<real, Hit>, acc: map<real, Hit>, t: Rescale)
    ensures |Reinserted(pending, acc, t)| <= |acc| + |pending|
    decreases |pending|
  {
    if pending != map[] {
      var d := Least(pending.Keys);
      var h := t.ApplyTo(pending[d]);
      var next := Inserted(acc, h);
      assert |next| <= |acc| + 1 by {
        InsertedCases(acc, h);
      }
      assert |pending - {d}| == |pending| - 1 by {
        assert (pending - {d}).Keys == pending.Keys - {d};
      }
      ReinsertedCountBound(pending - {d}, next, t);
    }
  }

  /** No hit of `pending`, once rescaled, lands on a distance already in `acc`. */
  ghost predicate Disjoint(pending: map<real, Hit>, acc: map<real, Hit>, t: Rescale) {
    forall d | d in pending :: t.Apply(d) !in acc
  }

  /** One step of an injective re-insertion: the least hit lands on a fresh
      distance, and the rest still land on fresh distances afterwards. */
  lemma InjectiveStep(pending: map<real, Hit>, acc: map<real, Hit>, t: Rescale)
    requires WellFormed(pending) && t.Injective() && Disjoint(pending, acc, t)
    requires pending != map[]
    ensures var d := Least(pending.Keys);
      var next := Inserted(acc, t.ApplyTo(pending[d]));
      && next == acc[t.Apply(d) := t.ApplyTo(pending[d])]
      && |next| == |acc| + 1
      && WellFormed(pending - {d})
      && Disjoint(pending - {d}, next, t)
      && |pending - {d}| == |pending| - 1
      && Reinserted(pending, acc, t) == Reinserted(pending - {d}, next, t)
  {
    var d := Least(pending.Keys);
    var h := t.ApplyTo(pending[d]);
    InsertedCases(acc, h);
    var next := Inserted(acc, h);
    forall x | x in pending - {d} ensures t.Apply(x) !in next {
      ApplyInjective(t, x, d);
    }
    assert (pending - {d}).Keys == pending.Keys - {d};
  }

  /** Under an injective rescale, hits already in `acc` stay where they are. */
  lemma {:induction false} InjectiveKeeps(pending: map<real, Hit>, acc: map<real, Hit>, t: Rescale, y: real)
    requires WellFormed(pending) && t.Injective() && Disjoint(pending, acc, t)
    requires y in acc
    ensures y in Reinserted(pending, acc, t) && Reinserted(pending, acc, t)[y] == acc[y]
    decreases |pending|
  {
    if pending != map[] {
      InjectiveStep(pending, acc, t);
      var d := Least(pending.Keys);
      InjectiveKeeps(pending - {d}, Inserted(acc, t.ApplyTo(pending[d])), t, y);
    }
  }

  /** Under an injective rescale, the hit at `d` ends up at `t.Apply(d)`. */
  lemma {:induction false} InjectiveMoves(pending: map<real, Hit>, acc: map<real, Hit>, t: Rescale, x: real)
    requires WellFormed(pending) && t.Injective() && Disjoint(pending, acc, t)
    requires x in pending
    ensures t.Apply(x) in Reinserted(pending, acc, t)
    ensures Reinserted(pending, acc, t)[t.Apply(x)] == t.ApplyTo(pending[x])
    decreases |pending|
  {
    InjectiveStep(pending, acc, t);
    var d := Least(pending.Keys);
    var next := Inserted(acc, t.ApplyTo(pending[d]));
    if x == d {
      InjectiveKeeps(pending - {d}, next, t, t.Apply(d));
    } else {
      InjectiveMoves(pending - {d}, next, t, x);
    }
  }

  /** Under an injective rescale, every distance of the result is an old
      distance of `acc` or the image of a distance of `pending`. */
  lemma {:induction false} InjectiveOrigin(pending: map<real, Hit>, acc: map<real, Hit>, t: Rescale, y: real)
    requires WellFormed(pending) && t.Injective() && Disjoint(pending, acc, t)
    requires y in Reinserted(pending, acc, t)
    ensures y in acc || exists x | x in pending :: y == t.Apply(x)
    decreases |pending|
  {
    if pending != map[] {
      InjectiveStep(pending, acc, t);
      var d := Least(pending.Keys);
      var next := Inserted(acc, t.ApplyTo(pending[d]));
      InjectiveOrigin(pending - {d}, next, t, y);
      if y !in acc && y != t.Apply(d) {
        var x :| x in pending - {d} && y == t.Apply(x);
        assert x in pending;
      }
    }
  }

  /** Under an injective rescale nothing collides: the count is the sum. */
  lemma {:induction false} InjectiveCount(pending: map<real, Hit>, acc: map<real, Hit>, t: Rescale)
    requires WellFormed(pending) && t.Injective() && Disjoint(pending, acc, t)
    ensures |Reinserted(pending, acc, t)| == |acc| + |pending|
    decreases |pending|
  {
    if pending != map[] {
      InjectiveStep(pending, acc, t);
      var d := Least(pending.Keys);
      InjectiveCount(pending - {d}, Inserted(acc, t.ApplyTo(pending[d])), t);
    }
  }

  /** Scaling by zero sends every distance to 0: a non-empty package keeps a
      single hit, at distance 0, whose kind no other hit outranks. */
  lemma {:induction false} ReinsertedScaleZero(pending: map<real, Hit>, acc: map<real, Hit>)
    requires WellFormed(pending) && WellFormed(acc)
    requires acc.Keys <= {0.0}
    ensures Reinserted(pending, acc, Scale(0.0)).Keys
      == if pending == map[] then acc.Keys else {0.0}
    ensures forall d | d in pending && 0.0 in Reinserted(pending, acc, Scale(0.0)) ::
      !pending[d].kind.Outranks(Reinserted(pending, acc, Scale(0.0))[0.0].kind)
    ensures 0.0 in acc ==> !acc[0.0].kind.Outranks(Reinserted(pending, acc, Scale(0.0))[0.0].kind)
    decreases |pending|
  {
    var t := Scale(0.0);
    if pending != map[] {
      var d := Least(pending.Keys);
      var h := t.ApplyTo(pending[d]);
      assert h.distance == 0.0;
      var next := Inserted(acc, h);
      assert next.Keys == {0.0};
      assert !h.kind.Outranks(next[0.0].kind) by {
        Hits.PriorityIsStrictTotalOrder(h.kind, next[0.0].kind, h.kind);
      }
      if 0.0 in acc {
        assert !acc[0.0].kind.Outranks(next[0.0].kind) by {
          Hits.PriorityIsStrictTotalOrder(acc[0.0].kind, next[0.0].kind, h.kind);
        }
      }
      ReinsertedScaleZero(pending - {d}, next);
      var r := Reinserted(pending, acc, t);
      assert r == Reinserted(pending - {d}, next, t);
      forall x | x in pending ensures !pending[x].kind.Outranks(r[0.0].kind) {
        if x != d {
          assert x in pending - {d} && (pending - {d})[x] == pending[x];
        } else {
          Hits.PriorityIsStrictTotalOrder(h.kind, next[0.0].kind, r[0.0].kind);
        }
      }
      if 0.0 in acc {
        Hits.PriorityIsStrictTotalOrder(acc[0.0].kind, next[0.0].kind, r[0.0].kind);
      }
    }
  }

  /** Where a hit of the result came from, under an injective rescale: `y` is
      stored exactly when the old package had a hit at `source`, the distance that
      `t` sends to `y`, and the stored hit is that one rescaled. */
  lemma InjectivePoint(m: map<real, Hit>, t: Rescale, y: real, source: real)
    requires WellFormed(m) && t.Injective() && t.Apply(source) == y
    ensures y in Reinserted(m, map[], t) <==> source in m
    ensures y in Reinserted(m, map[], t) ==> Reinserted(m, map[], t)[y] == t.ApplyTo(m[source])
  {
    if y in Reinserted(m, map[], t) {
      InjectiveOrigin(m, map[], t, y);
      var x :| x in m && y == t.Apply(x);
      if x != source {
        ApplyInjective(t, x, source);
      }
    }
    if source in m {
      InjectiveMoves(m, map[], t, source);
    }
  }

  /** `ShiftHits` on a whole package: a hit is stored at `y` exactly when the
      old package had one at `y - s`. */
  lemma ShiftedPackage(m: map<real, Hit>, s: real)
    requires WellFormed(m)
    ensures forall y :: y in Reinserted(m, map[], Shift(s)) <==> y - s in m
  {
    forall y ensures y in Reinserted(m, map[], Shift(s)) <==> y - s in m {
      InjectivePoint(m, Shift(s), y, y - s);
    }
  }

  /** `ShiftHits` keeps the count, so an empty package stays empty. */
  lemma ShiftedCount(m: map<real, Hit>, s: real)
    requires WellFormed(m)
    ensures |Reinserted(m, map[], Shift(s))| == |m|
  {
    InjectiveCount(m, map[], Shift(s));
  }

  /** `ShiftHits` moves each hit: the hit stored at `y` is the old hit at
      `y - s` shifted by `s`, its kind and texture kept. */
  lemma ShiftedHits(m: map<real, Hit>, s: real)
    requires WellFormed(m)
    ensures forall y | y in Reinserted(m, map[], Shift(s)) ::
      y - s in m && Reinserted(m, map[], Shift(s))[y] == m[y - s].ShiftDistance(s)
  {
    forall y | y in Reinserted(m, map[], Shift(s))
      ensures y - s in m && Reinserted(m, map[], Shift(s))[y] == m[y - s].ShiftDistance(s)
    {
      InjectivePoint(m, Shift(s), y, y - s);
    }
  }

  /** `ScaleDistances(k)` on a whole package: the count never grows. For a
      non-zero factor a hit is stored at `y` exactly when the old package had
      one at `y / k`, and it is that hit scaled, kind and texture kept, so the
      count is unchanged. For a zero factor a non-empty package collapses to
      one hit at 0 whose kind no original hit outranks. */
  lemma ScaledPackage(m: map<real, Hit>, k: real)
    requires WellFormed(m)
    ensures |Reinserted(m, map[], Scale(k))| <= |m|
    ensures k != 0.0 ==> forall y :: y in Reinserted(m, map[], Scale(k)) <==> y / k in m
    ensures k != 0.0 ==> forall y | y in Reinserted(m, map[], Scale(k)) ::
      Reinserted(m, map[], Scale(k))[y] == m[y / k].ScaleDistance(k)
    ensures k != 0.0 ==> |Reinserted(m, map[], Scale(k))| == |m|
    ensures k == 0.0 && m != map[] ==> Reinserted(m, map[], Scale(k)).Keys == {0.0}
    ensures k == 0.0 && m != map[] ==> forall d | d in m ::
      !m[d].kind.Outranks(Reinserted(m, map[], Scale(k))[0.0].kind)
  {
    ReinsertedCountBound(m, map[], Scale(k));
    if k != 0.0 {
      forall y
        ensures y in Reinserted(m, map[], Scale(k)) <==> y / k in m
        ensures y in Reinserted(m, map[], Scale(k)) ==> Reinserted(m, map[], Scale(k))[y] == m[y / k].ScaleDistance(k)
      {
        InjectivePoint(m, Scale(k), y, y / k);
      }
      InjectiveCount(m, map[], Scale(k));
    } else {
      ReinsertedScaleZero(m, map[]);
    }
  }

  /** Scaling by a non-negative factor keeps every distance non-negative. */
  lemma ScaledInFront(m: map<real, Hit>, k: real)
    requires WellFormed(m) && 0.0 <= k
    requires forall d | d in m :: d >= 0.0
    ensures forall y | y in Reinserted(m, map[], Scale(k)) :: y >= 0.0
  {
    ScaledPackage(m, k);
    forall y | y in Reinserted(m, map[], Scale(k))
      ensures y >= 0.0
    {
      if k != 0.0 {
        QuotientSign(y, k);
      }
    }
  }

  /** A number whose quotient by a positive number is non-negative is itself non-negative. */
  lemma QuotientSign(y: real, k: real)
    requires 0.0 < k && y / k >= 0.0
    ensures y >= 0.0
  {
    assert y == (y / k) * k;
  }

  // The package object ==========================================================

  /** `HitPackage`: a map from distance to the hit recorded there. */
  class HitPackage {
    var hits: map<real, Hit>

    ghost predicate Valid()
      reads this
    {
      WellFormed(hits)
    }

    /** An empty package. */
    constructor ()
      ensures Valid() && hits == map[]
    {
      hits := map[];
    }

    /** A package holding the hits of `m`, as a room's ray cast returns it. */
    constructor FromHits(m: map<real, Hit>)
      requires WellFormed(m)
      ensures Valid() && hits == m
    {
      hits := m;
    }

    /** The number of distances at which a hit is recorded. */
    function HitCount(): (n: nat)
      reads this
      ensures n == 0 <==> hits == map[]
    {
      |hits|
    }

    /** Adds `hit` by the insertion rule and reports whether the package changed. */
    method AddHit(hit: Hit) returns (added: bool)
      requires Valid()
      modifies this
      ensures Valid()
      ensures hits == Inserted(old(hits), hit)
      ensures added <==> hits != old(hits)
    {
      InsertedChangesIff(hits, hit);
      if hit.IsNoHit() {
        return false;
      }
      if hit.distance in hits {
        var prev := hits[hit.distance];
        if hit.kind.Outranks(prev.kind) {
          hits := hits[hit.distance := hit];
          return true;
        } else {
          return false;
        }
      }
      hits := hits[hit.distance := hit];
      return true;
    }

    /** Adds every hit of `package`, in ascending distance order. Merging a
        package into itself is allowed and changes nothing. */
    method Merge(package: HitPackage)
      requires Valid() && package.Valid()
      modifies this
      ensures Valid()
      ensures hits == MergeSpec(old(hits), old(package.hits))
    {
      ghost var start := hits;
      var source := package.hits;
      var pending := source.Keys;
      ghost var done: set<real> := {};
      MergeStart(start, source);
      while pending != {}
        invariant Valid()
        invariant pending == source.Keys - done && done <= source.Keys
        invariant hits == MergeSpec(start, Restrict(source, done))
        decreases |pending|
      {
        LeastExists(pending);
        var d :| IsLeast(d, pending);
        MergeStep(start, source, done, d);
        var _ := AddHit(source[d]);
        pending := pending - {d};
        done := done + {d};
      }
      RestrictAll(source, done);
    }

    /** Moves every hit `shift` further along the ray, re-adding the hits in
        ascending order of their old distances. */
    method ShiftHits(shift: real)
      requires Valid()
      modifies this
      ensures Valid()
      ensures hits == Reinserted(old(hits), map[], Shift(shift))
    {
      var pending := hits;
      hits := map[];
      while pending != map[]
        invariant Valid() && WellFormed(pending)
        invariant Reinserted(pending, hits, Shift(shift)) == Reinserted(old(hits), map[], Shift(shift))
        decreases |pending|
      {
        LeastExists(pending.Keys);
        var d :| IsLeast(d, pending.Keys);
        LeastUnique(pending.Keys, d);
        var hit := pending[d].ShiftDistance(shift);
        pending := pending - {d};
        var _ := AddHit(hit);
      }
    }

    /** Multiplies every distance by `scale`, re-adding the hits in ascending
        order of their old distances. */
    method ScaleDistances(scale: real)
      requires Valid()
      modifies this
      ensures Valid()
      ensures hits == Reinserted(old(hits), map[], Scale(scale))
    {
      var pending := hits;
      hits := map[];
      while pending != map[]
        invariant Valid() && WellFormed(pending)
        invariant Reinserted(pending, hits, Scale(scale)) == Reinserted(old(hits), map[], Scale(scale))
        decreases |pending|
      {
        LeastExists(pending.Keys);
        var d :| IsLeast(d, pending.Keys);
        LeastUnique(pending.Keys, d);
        var hit := pending[d].ScaleDistance(scale);
        pending := pending - {d};
        var _ := AddHit(hit);
      }
    }
  }
}
