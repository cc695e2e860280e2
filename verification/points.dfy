/** Sampled pixel coordinates and the category registry that stores them. */
module Points {
  import opened Wrappers

  /** Radius of a marker, and how close a right click must be to pick a point up. */
  const Radius: int := 4

  /** A clicked pixel coordinate. */
  datatype Point = Point(x: int, y: int)

  /** The Euclidean distance from `p` to (x, y) is at most `Radius`. The program compares
      sqrt(dx*dx + dy*dy) with 4; for integers that is the same as comparing the squared
      distance with 16, since the square root is monotone and 16 is a perfect square. */
  predicate Near(p: Point, x: int, y: int)
    ensures Near(p, x, y) ==> -Radius <= p.x - x <= Radius && -Radius <= p.y - y <= Radius
    ensures p.y == y ==> (Near(p, x, y) <==> -Radius <= p.x - x <= Radius)
    ensures p.x == x ==> (Near(p, x, y) <==> -Radius <= p.y - y <= Radius)
  {
    SquareWithinRadius(p.x - x);
    SquareWithinRadius(p.y - y);
    (p.x - x) * (p.x - x) + (p.y - y) * (p.y - y) <= Radius * Radius
  }

  /** A square is never negative, and is at most `Radius` squared exactly when the number
      lies within `Radius` of zero. */
  lemma SquareWithinRadius(d: int)
    ensures d * d >= 0
    ensures d * d <= Radius * Radius <==> -Radius <= d <= Radius
  {
    if d > Radius {
      assert d * d > Radius * d;
    } else if d < -Radius {
      assert d * d > -Radius * d;
    } else if d >= 0 {
      assert d * d <= Radius * d;
    } else {
      assert d * d <= -Radius * d;
    }
  }

  /** Position of the first point, in list order, that lies within `Radius` of (x, y). */
  function FirstNear(pts: seq<Point>, x: int, y: int): (k: Option<nat>)
    ensures k.Some? ==> k.value < |pts| && Near(pts[k.value], x, y)
    ensures k.Some? ==> forall j :: 0 <= j < k.value ==> !Near(pts[j], x, y)
    ensures k.None? ==> forall j :: 0 <= j < |pts| ==> !Near(pts[j], x, y)
  {
    if |pts| == 0 then None
    else if Near(pts[0], x, y) then Some(0)
    else
      match FirstNear(pts[1..], x, y)
      case None => None
      case Some(k) => Some(k + 1)
  }

  /** Python's `list.remove(p)`: delete the first element equal to `p` (a missing `p` raises,
      which the callers here never trigger). */
  function RemoveFirst(pts: seq<Point>, p: Point): (r: seq<Point>)
    requires p in pts
    ensures |r| == |pts| - 1
  {
    if pts[0] == p then
      assert pts == [pts[0]] + pts[1..];
      pts[1..]
    else
      assert pts == [pts[0]] + pts[1..];
      [pts[0]] + RemoveFirst(pts[1..], p)
  }

  /** Removing by value deletes exactly position `i` when no earlier element equals `pts[i]`. */
  lemma {:induction false} RemoveFirstAt(pts: seq<Point>, i: nat)
    requires i < |pts|
    requires forall j :: 0 <= j < i ==> pts[j] != pts[i]
    ensures RemoveFirst(pts, pts[i]) == pts[..i] + pts[i + 1..]
  {
    if i == 0 {
      assert pts[..0] + pts[1..] == pts[1..];
    } else {
      var tail := pts[1..];
      assert tail[i - 1] == pts[i];
      assert forall j :: 0 <= j < i - 1 ==> tail[j] == pts[j + 1];
      RemoveFirstAt(tail, i - 1);
      calc {
        RemoveFirst(pts, pts[i]);
        [pts[0]] + RemoveFirst(tail, pts[i]);
        [pts[0]] + (tail[..i - 1] + tail[i..]);
        { assert tail[..i - 1] == pts[1..i]; assert tail[i..] == pts[i + 1..]; }
        [pts[0]] + (pts[1..i] + pts[i + 1..]);
        { assert pts[..i] == [pts[0]] + pts[1..i]; }
        pts[..i] + pts[i + 1..];
      }
    }
  }

  /** `check_point_marked` on one list: find the first point near the click, then remove it
      with `list.remove`, or leave the list alone when no point is near. */
  function RemoveNear(pts: seq<Point>, x: int, y: int): (r: seq<Point>)
    ensures r == pts <==> forall j :: 0 <= j < |pts| ==> !Near(pts[j], x, y)
    ensures |r| == |pts| || |r| == |pts| - 1
    ensures FirstNear(pts, x, y).Some? ==>
      var i := FirstNear(pts, x, y).value;
      r == pts[..i] + pts[i + 1..]
    ensures forall q :: q in r ==> q in pts
  {
    match FirstNear(pts, x, y)
    case None => pts
    case Some(i) =>
      // an earlier element equal to pts[i] would be near too, and would have been found first
      RemoveFirstAt(pts, i);
      assert |RemoveFirst(pts, pts[i])| != |pts|;
      RemoveFirst(pts, pts[i])
  }

  /** A named list of sampled points: one entry of the program's `points_dict`. */
  datatype Category = Category(name: string, points: seq<Point>)

  /** The point registry, in the dictionary's insertion order. */
  type Registry = seq<Category>

  /** The one category the mouse handler writes to. */
  const Background: string := "background"

  /** The registry at start-up: an empty background list. */
  const InitialRegistry: Registry := [Category(Background, [])]

  /** Position of the category called `name`, the dictionary lookup `points_dict[name]`. */
  function Find(reg: Registry, name: string): (k: Option<nat>)
    ensures k.Some? ==> k.value < |reg| && reg[k.value].name == name
    ensures k.None? ==> forall j :: 0 <= j < |reg| ==> reg[j].name != name
  {
    if |reg| == 0 then None
    else if reg[0].name == name then Some(0)
    else
      match Find(reg[1..], name)
      case None => None
      case Some(k) => Some(k + 1)
  }

  /** Dictionary keys are unique. */
  predicate DistinctNames(reg: Registry)
  {
    forall i, j :: 0 <= i < j < |reg| ==> reg[i].name != reg[j].name
  }

  /** Two registries with the same categories in the same order. */
  predicate SameNames(a: Registry, c: Registry)
  {
    |a| == |c| && forall k :: 0 <= k < |a| ==> a[k].name == c[k].name
  }

  /** `points_dict[name].append([p.x, p.y])`. */
  function AddPoint(reg: Registry, name: string, p: Point): (r: Registry)
    requires Find(reg, name).Some?
    ensures SameNames(r, reg)
    ensures r[Find(reg, name).value].points == reg[Find(reg, name).value].points + [p]
    ensures forall k :: 0 <= k < |reg| && k != Find(reg, name).value ==> r[k] == reg[k]
  {
    var i := Find(reg, name).value;
    reg[i := Category(name, reg[i].points + [p])]
  }

  /** `check_point_marked` on the category `name`: at most one point of that list goes, and
      every other category is untouched. */
  function RemoveNearIn(reg: Registry, name: string, x: int, y: int): (r: Registry)
    requires Find(reg, name).Some?
    ensures SameNames(r, reg)
    ensures r[Find(reg, name).value].points == RemoveNear(reg[Find(reg, name).value].points, x, y)
    ensures forall k :: 0 <= k < |reg| && k != Find(reg, name).value ==> r[k] == reg[k]
  {
    var i := Find(reg, name).value;
    reg[i := Category(name, RemoveNear(reg[i].points, x, y))]
  }

  /** Every registered point, category by category, in the order `mask_img` visits them. */
  function AllPoints(reg: Registry): (all: seq<Point>)
    ensures all == [] <==> forall k :: 0 <= k < |reg| ==> reg[k].points == []
  {
    if |reg| == 0 then []
    else
      var rest := AllPoints(reg[1..]);
      assert forall k :: 1 <= k < |reg| ==> reg[k] == reg[1..][k - 1];
      reg[0].points + rest
  }

  /** A point is gathered exactly when some category holds it. */
  lemma {:induction false} AllPointsMember(reg: Registry, p: Point)
    ensures p in AllPoints(reg) <==> exists k :: 0 <= k < |reg| && p in reg[k].points
  {
    if |reg| > 0 {
      AllPointsMember(reg[1..], p);
      if p in AllPoints(reg[1..]) {
        var k :| 0 <= k < |reg[1..]| && p in reg[1..][k].points;
        assert p in reg[k + 1].points;
      }
      if exists k :: 0 <= k < |reg| && p in reg[k].points {
        var k :| 0 <= k < |reg| && p in reg[k].points;
        if k > 0 {
          assert p in reg[1..][k - 1].points;
        }
      }
    }
  }

  /** A click next to a point that was just appended removes that point again, provided no
      earlier point lies within `Radius` of the click. */
  lemma AddThenRemove(pts: seq<Point>, x: int, y: int)
    requires forall j :: 0 <= j < |pts| ==> !Near(pts[j], x, y)
    ensures RemoveNear(pts + [Point(x, y)], x, y) == pts
  {
    var all := pts + [Point(x, y)];
    assert Near(all[|pts|], x, y);
    assert all[..|pts|] == pts;
  }

  /** The removal picks the first point within `Radius` in list order, not the nearest one:
      with (0, 0) stored before (3, 0), a right click on (3, 0) removes (0, 0). */
  lemma FirstNotNearest()
    ensures RemoveNear([Point(0, 0), Point(3, 0)], 3, 0) == [Point(3, 0)]
  {
    assert FirstNear([Point(0, 0), Point(3, 0)], 3, 0) == Some(0);
  }
}
