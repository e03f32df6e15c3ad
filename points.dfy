/**
 The value-level view of a cursor trail: a trail point is an age paired with a
 position, and one update of the trail is "decay every age by the same amount,
 then keep, in order, the points whose age is not below zero".

 Ages are modelled as `real`; the program stores them as 32-bit floats.
 */
module TrailPoints {

  /** A position on the visualisation canvas. */
  datatype Vec2 = Vec2(x: real, y: real)

  /** One sample of the cursor: its remaining freshness and where it was. */
  datatype Point = Point(age: real, pos: Vec2)

  /** The age a freshly added point starts with. */
  const FreshAge: real := 1.0

  /** A point after its age has been lowered by `d`; its position is untouched. */
  function Decayed(p: Point, d: real): Point
  {
    p.(age := p.age - d)
  }

  /** The retain test: a point survives unless its age is strictly below zero. */
  predicate Kept(p: Point)
  {
    !(p.age < 0.0)
  }

  /** Every point of `s` decayed by `d`, in the same order. */
  function Decay(s: seq<Point>, d: real): (r: seq<Point>)
    ensures |r| == |s|
    ensures forall i :: 0 <= i < |s| ==> r[i].age == s[i].age - d && r[i].pos == s[i].pos
  {
    if s == [] then [] else [Decayed(s[0], d)] + Decay(s[1..], d)
  }

  /** The order-preserving filter of `s` by `Kept`. */
  function Retain(s: seq<Point>): (r: seq<Point>)
    ensures |r| <= |s|
    ensures forall i :: 0 <= i < |r| ==> Kept(r[i])
  {
    if s == [] then []
    else if Kept(s[0]) then [s[0]] + Retain(s[1..]) else Retain(s[1..])
  }

  /** One update of the trail with per-frame decay `d`. */
  function Step(s: seq<Point>, d: real): seq<Point>
  {
    Retain(Decay(s, d))
  }

  // ---------------------------------------------------------------------------
  // Decay

  lemma {:induction false} DecayAppend(a: seq<Point>, b: seq<Point>, d: real)
    ensures Decay(a + b, d) == Decay(a, d) + Decay(b, d)
  {
    if a == [] {
      assert a + b == b;
    } else {
      assert (a + b)[1..] == a[1..] + b;
      DecayAppend(a[1..], b, d);
    }
  }

  // ---------------------------------------------------------------------------
  // Retain

  /** Filtering distributes over concatenation: survivors keep their relative order. */
  lemma {:induction false} RetainAppend(a: seq<Point>, b: seq<Point>)
    ensures Retain(a + b) == Retain(a) + Retain(b)
  {
    if a == [] {
      assert a + b == b;
    } else {
      assert (a + b)[1..] == a[1..] + b;
      RetainAppend(a[1..], b);
    }
  }

  /** Filtering one more point extends the result by that point exactly when it passes the test. */
  lemma RetainSnoc(s: seq<Point>, i: nat)
    requires i < |s|
    ensures Retain(s[..i + 1]) == Retain(s[..i]) + if Kept(s[i]) then [s[i]] else []
  {
    assert s[..i + 1] == s[..i] + [s[i]];
    RetainAppend(s[..i], [s[i]]);
  }

  /** A point is in the filtered list exactly when it was in the list and passes the test. */
  lemma {:induction false} RetainMembership(s: seq<Point>, p: Point)
    ensures p in Retain(s) <==> p in s && Kept(p)
  {
    if s != [] {
      RetainMembership(s[1..], p);
      assert s == [s[0]] + s[1..];
    }
  }

  /** Each point keeps all its copies if it passes the test, and loses them all otherwise. */
  lemma {:induction false} RetainCount(s: seq<Point>, p: Point)
    ensures multiset(Retain(s))[p] == if Kept(p) then multiset(s)[p] else 0
  {
    if s != [] {
      RetainCount(s[1..], p);
      assert s == [s[0]] + s[1..];
    }
  }

  /** Filtering changes nothing exactly when every point passes the test. */
  lemma {:induction false} RetainUnchanged(s: seq<Point>)
    ensures Retain(s) == s <==> forall i :: 0 <= i < |s| ==> Kept(s[i])
  {
    if s != [] {
      RetainUnchanged(s[1..]);
    }
  }

  // ---------------------------------------------------------------------------
  // One update of the trail

  /**
   Every point of the updated trail is a point of the old trail with its age lowered by `d`
   whose new age is not below zero, and every such point is in the updated trail.
   */
  lemma {:induction false} StepMembership(s: seq<Point>, d: real, p: Point)
    ensures p in Step(s, d) <==> exists i :: 0 <= i < |s| && p == Decayed(s[i], d) && p.age >= 0.0
  {
    RetainMembership(Decay(s, d), p);
    if p in Decay(s, d) {
      var i :| 0 <= i < |s| && Decay(s, d)[i] == p;
      assert p == Decayed(s[i], d);
    }
    if exists i :: 0 <= i < |s| && p == Decayed(s[i], d) && p.age >= 0.0 {
      var i :| 0 <= i < |s| && p == Decayed(s[i], d) && p.age >= 0.0;
      assert Decay(s, d)[i] == p;
    }
  }

  /**
   The update decides each point on its own and in place: the point at index `i` is kept,
   aged by `d`, exactly when its decayed age is not below zero, and it stays between the
   survivors of the points before it and those after it.
   */
  lemma StepAt(s: seq<Point>, i: nat, d: real)
    requires i < |s|
    ensures Step(s, d) == Step(s[..i], d)
                          + (if s[i].age - d >= 0.0 then [Decayed(s[i], d)] else [])
                          + Step(s[i + 1..], d)
  {
    assert s == s[..i] + [s[i]] + s[i + 1..];
    DecayAppend(s[..i] + [s[i]], s[i + 1..], d);
    DecayAppend(s[..i], [s[i]], d);
    RetainAppend(Decay(s[..i], d) + Decay([s[i]], d), Decay(s[i + 1..], d));
    RetainAppend(Decay(s[..i], d), Decay([s[i]], d));
  }

  /** After an update no point has a negative age, and the trail has not grown. */
  lemma StepBounds(s: seq<Point>, d: real)
    ensures |Step(s, d)| <= |s|
    ensures forall i :: 0 <= i < |Step(s, d)| ==> Step(s, d)[i].age >= 0.0
  {
  }

  /**
   A point whose age reaches exactly zero in an update survives it, in its place, with
   age 0 and its position; only ages strictly below zero are pruned.
   */
  lemma ExactZeroSurvives(s: seq<Point>, i: nat, d: real)
    requires i < |s| && s[i].age == d
    ensures Step(s, d) == Step(s[..i], d) + [Point(0.0, s[i].pos)] + Step(s[i + 1..], d)
  {
    StepAt(s, i, d);
  }

  /** Updating a concatenation updates each part separately. */
  lemma StepAppend(a: seq<Point>, b: seq<Point>, d: real)
    ensures Step(a + b, d) == Step(a, d) + Step(b, d)
  {
    DecayAppend(a, b, d);
    RetainAppend(Decay(a, d), Decay(b, d));
  }

  /**
   Two updates in a row, the second with a non-negative decay, are one update by the sum
   of the decays: a point pruned by the first cannot reappear after the second.
   */
  lemma {:induction false} StepStep(s: seq<Point>, d1: real, d2: real)
    requires d2 >= 0.0
    ensures Step(Step(s, d1), d2) == Step(s, d1 + d2)
  {
    if s != [] {
      var p := s[0];
      assert s == [p] + s[1..];
      StepAppend([p], s[1..], d1);
      StepAppend([p], s[1..], d1 + d2);
      assert Decay([p], d1) == [Decayed(p, d1)];
      assert Decay([p], d1 + d2) == [Decayed(p, d1 + d2)];
      var head := Step([p], d1);
      StepAppend(head, Step(s[1..], d1), d2);
      StepStep(s[1..], d1, d2);
      if p.age - d1 >= 0.0 {
        assert head == [Decayed(p, d1)];
        assert Decay(head, d2) == [Decayed(p, d1 + d2)];
      } else {
        assert head == [];
      }
    }
  }

  /**
   A point added just before an update survives it, with age `1 - d`, whenever the
   decay of one update is at most 1; it stays the newest point of the trail.
   */
  lemma AddThenStep(s: seq<Point>, v: Vec2, d: real)
    requires d <= FreshAge
    ensures Step(s + [Point(FreshAge, v)], d) == Step(s, d) + [Point(FreshAge - d, v)]
  {
    var n := Point(FreshAge, v);
    DecayAppend(s, [n], d);
    RetainAppend(Decay(s, d), Decay([n], d));
    assert Decay([n], d) == [Point(FreshAge - d, v)];
  }

  /** The trail after `k` updates with the same decay `d` and no new points. */
  function Iterate(s: seq<Point>, d: real, k: nat): seq<Point>
    decreases k
  {
    if k == 0 then s else Iterate(Step(s, d), d, k - 1)
  }

  /**
   With a decay of one half per update, a fresh point has age 0.5 after one update, is
   still present with age exactly 0 after the second, and is gone after the third.
   */
  lemma HalfDecayLifetime(v: Vec2)
    ensures Iterate([Point(FreshAge, v)], 0.5, 1) == [Point(0.5, v)]
    ensures Iterate([Point(FreshAge, v)], 0.5, 2) == [Point(0.0, v)]
    ensures Iterate([Point(FreshAge, v)], 0.5, 3) == []
  {
    assert Decay([Point(FreshAge, v)], 0.5) == [Point(0.5, v)];
    assert Decay([Point(0.5, v)], 0.5) == [Point(0.0, v)];
    assert Decay([Point(0.0, v)], 0.5) == [Point(-0.5, v)];
  }

  /**
   A trail whose ages all lie in `[0, k * d)`, with `d` positive, is empty after `k`
   updates that add nothing.
   */
  lemma {:induction false} IterateEmpties(s: seq<Point>, d: real, k: nat)
    requires d > 0.0
    requires forall i :: 0 <= i < |s| ==> 0.0 <= s[i].age < k as real * d
    ensures Iterate(s, d, k) == []
    decreases k
  {
    if k > 0 {
      var t := Step(s, d);
      forall j | 0 <= j < |t|
        ensures 0.0 <= t[j].age < (k - 1) as real * d
      {
        assert t[j] in t;
        StepMembership(s, d, t[j]);
      }
      IterateEmpties(t, d, k - 1);
    }
  }

  /** With a non-negative decay, `k` updates by `d` are one update by `k * d`. */
  lemma {:induction false} IterateIsStep(s: seq<Point>, d: real, k: nat)
    requires d >= 0.0 && k > 0
    ensures Iterate(s, d, k) == Step(s, k as real * d)
    decreases k
  {
    if k > 1 {
      var j: nat := k - 1;
      IterateIsStep(Step(s, d), d, j);
      assert j as real * d >= 0.0;
      StepStep(s, d, j as real * d);
      assert d + j as real * d == k as real * d;
    }
  }

  /**
   The life of one point: with a non-negative decay, the point at index `i` is in the trail
   after `k` updates exactly when its age minus `k * d` is not below zero, and then it has
   that age, its position, and its place between the survivors before and after it. As
   that age only falls as `k` grows, a point once pruned never comes back.
   */
  lemma IterateAt(s: seq<Point>, i: nat, d: real, k: nat)
    requires i < |s| && d >= 0.0 && k > 0
    ensures Iterate(s, d, k) == Step(s[..i], k as real * d)
                                + (if s[i].age - k as real * d >= 0.0 then [Decayed(s[i], k as real * d)] else [])
                                + Step(s[i + 1..], k as real * d)
  {
    IterateIsStep(s, d, k);
    StepAt(s, i, k as real * d);
  }

  // ---------------------------------------------------------------------------
  // The fading order of a trail

  /**
   A trail built only by adding fresh points and updating fades in order: no age exceeds
   the fresh age, and older points (nearer the front) are never fresher than newer ones.
   */
  ghost predicate Fading(s: seq<Point>)
  {
    && (forall i :: 0 <= i < |s| ==> s[i].age <= FreshAge)
    && (forall i, j :: 0 <= i < j < |s| ==> s[i].age <= s[j].age)
  }

  lemma FadingAdd(s: seq<Point>, v: Vec2)
    requires Fading(s)
    ensures Fading(s + [Point(FreshAge, v)])
  {
  }

  lemma {:induction false} FadingRetain(s: seq<Point>)
    requires forall i, j :: 0 <= i < j < |s| ==> s[i].age <= s[j].age
    ensures forall i, j :: 0 <= i < j < |Retain(s)| ==> Retain(s)[i].age <= Retain(s)[j].age
  {
    if s != [] {
      FadingRetain(s[1..]);
      var r := Retain(s[1..]);
      if Kept(s[0]) {
        forall i | 0 <= i < |r| ensures s[0].age <= r[i].age {
          assert r[i] in r;
          RetainMembership(s[1..], r[i]);
        }
      }
    }
  }

  /** Adding fresh points and updating with a non-negative decay keeps a trail fading in order. */
  lemma FadingStep(s: seq<Point>, d: real)
    requires Fading(s)
    requires d >= 0.0
    ensures Fading(Step(s, d))
  {
    var t := Decay(s, d);
    FadingRetain(t);
    forall i | 0 <= i < |Retain(t)| ensures Retain(t)[i].age <= FreshAge {
      assert Retain(t)[i] in Retain(t);
      RetainMembership(t, Retain(t)[i]);
    }
  }

  /**
   In a trail that fades in order the points pruned by an update are the oldest ones:
   the survivors are exactly a suffix of the decayed trail.
   */
  lemma {:induction false} RetainSortedIsSuffix(s: seq<Point>)
    requires forall i, j :: 0 <= i < j < |s| ==> s[i].age <= s[j].age
    ensures Retain(s) == s[|s| - |Retain(s)|..]
  {
    if s != [] {
      if Kept(s[0]) {
        RetainUnchanged(s);
        forall i | 0 <= i < |s| ensures Kept(s[i]) {
          assert s[0].age <= s[i].age || i == 0;
        }
      } else {
        RetainSortedIsSuffix(s[1..]);
        assert s[1..][|s[1..]| - |Retain(s[1..])|..] == s[|s| - |Retain(s)|..];
      }
    }
  }
}
