/**
 The trail of recent cursor positions as the program keeps it: a growable list of
 points that is appended to, aged in place and pruned in place once per frame.
 */
module Visualizer {
  import opened TrailPoints

  /** The radius, in canvas units, of the circle drawn for every trail point. */
  const MarkerRadius: real := 2.0

  /**
   One circle the trail asks the renderer to draw: its centre, its radius and its
   opacity as a fraction of full opacity (the colour is always red).
   */
  datatype Circle = Circle(center: Vec2, radius: real, opacity: real)

  class Trail {
    /** The live points, oldest first. */
    var points: seq<Point>
    /** Age units lost per second; set once and never changed. */
    const decayRate: real

    /** A trail with no points that decays at `decayRate`. */
    constructor (decayRate: real)
      ensures points == []
      ensures this.decayRate == decayRate
    {
      points := [];
      this.decayRate := decayRate;
    }

    /** Appends a fresh point at `(x, y)` behind all existing points. */
    method AddNew(x: real, y: real)
      modifies this
      ensures points == old(points) + [Point(FreshAge, Vec2(x, y))]
      ensures old(Fading(points)) ==> Fading(points)
    {
      points := points + [Point(FreshAge, Vec2(x, y))];
      if Fading(old(points)) {
        FadingAdd(old(points), Vec2(x, y));
      }
    }

    /**
     Ages every point by `decayRate * dt`, then removes, keeping the order of the rest,
     every point whose age has dropped below zero.
     */
    method Update(dt: real)
      modifies this
      ensures points == Step(old(points), decayRate * dt)
      ensures |points| <= |old(points)|
      ensures forall i :: 0 <= i < |points| ==> points[i].age >= 0.0
      ensures old(points) == [] ==> points == []
      ensures old(Fading(points)) && decayRate * dt >= 0.0 ==> Fading(points)
    {
      var d := decayRate * dt;
      DecayAll(d);
      RetainKept();
      StepBounds(old(points), d);
      if old(Fading(points)) && d >= 0.0 {
        FadingStep(old(points), d);
      }
    }

    /** Lowers the age of every point by `d` in place, leaving positions and order alone. */
    method DecayAll(d: real)
      modifies this
      ensures points == Decay(old(points), d)
    {
      var i := 0;
      while i < |points|
        invariant 0 <= i <= |points| == |old(points)|
        invariant forall k :: 0 <= k < i ==> points[k] == Decayed(old(points)[k], d)
        invariant forall k :: i <= k < |points| ==> points[k] == old(points)[k]
      {
        points := points[i := Decayed(points[i], d)];
        i := i + 1;
      }
    }

    /**
     Removes in place every point with a negative age, moving each survivor forward over
     the removed ones so that survivors keep their order, then drops the vacated tail.
     */
    method RetainKept()
      modifies this
      ensures points == Retain(old(points))
    {
      ghost var s := points;
      var kept := 0;
      var i := 0;
      while i < |points|
        invariant |points| == |s|
        invariant 0 <= kept <= i <= |s|
        invariant points[..kept] == Retain(s[..i])
        invariant forall k :: i <= k < |s| ==> points[k] == s[k]
      {
        RetainSnoc(s, i);
        if Kept(points[i]) {
          points := points[kept := points[i]];
          kept := kept + 1;
        }
        i := i + 1;
      }
      assert s[..i] == s;
      points := points[..kept];
    }

    /** The circles drawn for the trail, one per point, oldest first so newer ones lie on top. */
    method Draw() returns (circles: seq<Circle>)
      ensures |circles| == |points|
      ensures forall i :: 0 <= i < |points| ==>
                circles[i] == Circle(points[i].pos, MarkerRadius, points[i].age)
    {
      circles := [];
      var i := 0;
      while i < |points|
        invariant 0 <= i <= |points|
        invariant |circles| == i
        invariant forall k :: 0 <= k < i ==> circles[k] == Circle(points[k].pos, MarkerRadius, points[k].age)
      {
        circles := circles + [Circle(points[i].pos, MarkerRadius, points[i].age)];
        i := i + 1;
      }
    }

    /**
     One frame's work on the trail: record the cursor at `(x, y)`, then update with the
     frame time `dt`. When one update decays by at most the fresh age, the new point
     survives as the newest point with age `1 - decayRate * dt`.
     */
    method Frame(x: real, y: real, dt: real)
      modifies this
      ensures points == Step(old(points) + [Point(FreshAge, Vec2(x, y))], decayRate * dt)
      ensures decayRate * dt <= FreshAge ==>
                points == Step(old(points), decayRate * dt) + [Point(FreshAge - decayRate * dt, Vec2(x, y))]
      ensures old(Fading(points)) && decayRate * dt >= 0.0 ==> Fading(points)
    {
      AddNew(x, y);
      Update(dt);
      if decayRate * dt <= FreshAge {
        AddThenStep(old(points), Vec2(x, y), decayRate * dt);
      }
    }
  }
}
