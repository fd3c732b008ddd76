/** MapShards: the points of a batch are given to the shards of the groups that cover their times. */
module ShardMap {

  /** A shard group covers the times from start up to, but not including, end. */
  datatype Group = Group(start: int, end: int, truncated: bool, truncatedAt: int, shards: seq<nat>)

  /** A point: its time, the hash of its key, and what else it holds. */
  datatype Point = Point(time: int, hash: nat, data: nat)

  predicate Contains(g: Group, t: int) {
    g.start <= t < g.end
  }

  /** Groups are not empty, have shards, and are truncated only within their span. */
  predicate GoodGroup(g: Group) {
    g.start < g.end && g.shards != [] && (g.truncated ==> g.start <= g.truncatedAt <= g.end)
  }

  predicate Apart(g: Group, h: Group) {
    g.end <= h.start || h.end <= g.start
  }

  /** The order of the group list: by end, where a truncated group ends where it was truncated, then by start. */
  predicate Less(g: Group, h: Group) {
    var a := if g.truncated then g.truncatedAt else g.end;
    var b := if h.truncated then h.truncatedAt else h.end;
    if a == b then g.start < h.start else a < b
  }

  /** On groups that do not overlap it is the order in time, truncated or not. */
  lemma LessIsBefore(g: Group, h: Group)
    requires GoodGroup(g) && GoodGroup(h) && Apart(g, h)
    ensures Less(g, h) <==> g.end <= h.start
  {
  }

  /** Good groups, one after the other in time. */
  ghost predicate Ordered(l: seq<Group>) {
    && (forall i :: 0 <= i < |l| ==> GoodGroup(l[i]))
    && forall i, j :: 0 <= i < j < |l| ==> l[i].end <= l[j].start
  }

  /** Append: the list with one more group, sorted again. */
  function Insert(l: seq<Group>, g: Group): seq<Group> {
    if l == [] then [g] else if Less(g, l[0]) then [g] + l else [l[0]] + Insert(l[1..], g)
  }

  lemma {:induction false} InsertOrdered(l: seq<Group>, g: Group)
    requires Ordered(l) && GoodGroup(g) && forall i :: 0 <= i < |l| ==> Apart(g, l[i])
    ensures Ordered(Insert(l, g))
    ensures forall x :: x in Insert(l, g) <==> x == g || x in l
  {
    if l != [] {
      LessIsBefore(g, l[0]);
      if !Less(g, l[0]) {
        var rest := Insert(l[1..], g);
        InsertOrdered(l[1..], g);
        forall j | 0 <= j < |rest| ensures l[0].end <= rest[j].start && GoodGroup(rest[j]) {
          assert rest[j] in rest;
        }
      }
    }
  }

  // ---- looking a group up ----

  predicate EndsAfter(l: seq<Group>, i: nat, t: int)
    requires i < |l|
  {
    l[i].end > t
  }

  /** sort.Search: the first group that ends after t, by halving. */
  method Search(l: seq<Group>, t: int) returns (i: nat)
    requires Ordered(l)
    ensures i <= |l|
    ensures forall k :: 0 <= k < i ==> l[k].end <= t
    ensures i < |l| ==> l[i].end > t
  {
    i := 0;
    var j := |l|;
    while i < j
      invariant 0 <= i <= j <= |l|
      invariant forall k :: 0 <= k < i ==> l[k].end <= t
      invariant j < |l| ==> l[j].end > t
    {
      var h := (i + j) / 2;
      if !EndsAfter(l, h, t) {
        EarlierEnds(l, h);
        i := h + 1;
      } else {
        j := h;
      }
    }
  }

  lemma EarlierEnds(l: seq<Group>, h: nat)
    requires Ordered(l) && h < |l|
    ensures forall k :: 0 <= k < h ==> l[k].end <= l[h].end
  {
    forall k | 0 <= k < h ensures l[k].end <= l[h].end {
      assert l[k].end <= l[h].start;
    }
  }

  datatype Found = Found(group: Group) | Missing

  /** The group of a list that covers t. */
  ghost predicate IsAt(l: seq<Group>, t: int, f: Found) {
    match f
    case Found(g) => g in l && Contains(g, t)
    case Missing => forall g :: g in l ==> !Contains(g, t)
  }

  lemma OnlyOne(l: seq<Group>, t: int, g: Group, h: Group)
    requires Ordered(l) && g in l && h in l && Contains(g, t) && Contains(h, t)
    ensures g == h
  {
    var i :| 0 <= i < |l| && l[i] == g;
    var j :| 0 <= j < |l| && l[j] == h;
    assert i == j;
  }

  method ShardGroupAt(l: seq<Group>, t: int) returns (f: Found)
    requires Ordered(l)
    ensures IsAt(l, t, f)
  {
    var idx := Search(l, t);
    if idx == |l| || t < l[idx].start {
      forall g | g in l ensures !Contains(g, t) {
        var k :| 0 <= k < |l| && l[k] == g;
        if k > idx {
          assert l[idx].end <= l[k].start;
        }
      }
      return Missing;
    }
    return Found(l[idx]);
  }

  method Covers(l: seq<Group>, t: int) returns (r: bool)
    requires Ordered(l)
    ensures r <==> exists g :: g in l && Contains(g, t)
  {
    if |l| == 0 {
      return false;
    }
    var f := ShardGroupAt(l, t);
    return f.Found?;
  }

  // ---- the mapping ----

  /** A slice: its items and its capacity. */
  datatype Slice = Slice(items: seq<Point>, cap: nat)

  class ShardMapping {
    const n: nat
    var points: map<nat, Slice>
    var dropped: seq<Point>

    constructor (n: nat)
      ensures this.n == n && points == map[] && dropped == [] && Valid()
    {
      this.n := n;
      points := map[];
      dropped := [];
    }

    /** Every slice in the map has room for the whole batch. */
    ghost predicate Valid()
      reads this
    {
      forall id :: id in points ==> points[id].cap >= n && |points[id].items| <= points[id].cap
    }

    /** The points of a shard; none if it is not in the map. */
    ghost function Of(id: nat): seq<Point>
      reads this
    {
      if id in points then points[id].items else []
    }

    /** The capacity test makes a new slice only where there was none, so no point is lost. */
    method MapPoint(id: nat, p: Point)
      requires Valid()
      modifies this`points
      ensures Valid() && Of(id) == old(Of(id)) + [p]
      ensures forall other :: other != id ==> Of(other) == old(Of(other))
    {
      var s := if id in points then points[id] else Slice([], 0);
      if s.cap < n {
        s := Slice([], n);
      }
      var cap := s.cap;
      if |s.items| == cap {
        cap := 2 * cap + 1;
      }
      points := points[id := Slice(s.items + [p], cap)];
    }
  }

  /** Where a point goes: a shard of the group that covers it, by its hash, or nowhere. */
  datatype Destination = Shard(id: nat) | Dropped

  ghost function DestinationIn(l: seq<Group>, p: Point): Destination
    requires Ordered(l)
  {
    if exists g :: g in l && Contains(g, p.time) then
      var g :| g in l && Contains(g, p.time);
      Shard(g.shards[p.hash % |g.shards|])
    else Dropped
  }

  /** The points of a batch that go to one destination, in order. */
  ghost function Going(points: seq<Point>, l: seq<Group>, d: Destination): seq<Point>
    requires Ordered(l)
  {
    if points == [] then []
    else
      var n := |points| - 1;
      Going(points[..n], l, d) + (if DestinationIn(l, points[n]) == d then [points[n]] else [])
  }

  /** No two answers of CreateShardGroup overlap, and each covers the time it was asked for. */
  ghost predicate GoodStore(create: int -> Found) {
    && (forall t :: create(t).Found? ==> GoodGroup(create(t).group) && Contains(create(t).group, t))
    && forall t, u :: create(t).Found? && create(u).Found? ==>
         create(t) == create(u) || Apart(create(t).group, create(u).group)
  }

  ghost predicate FromStore(l: seq<Group>, create: int -> Found) {
    forall g :: g in l ==> exists t :: create(t) == Found(g)
  }

  /** The groups for the points that are not older than min; the store may fail. */
  method Groups(points: seq<Point>, min: int, create: int -> Found) returns (failed: bool, l: seq<Group>)
    requires GoodStore(create)
    ensures Ordered(l) && FromStore(l, create)
    ensures !failed ==> forall p :: p in points && p.time >= min ==> exists g :: g in l && Contains(g, p.time)
    ensures failed ==> exists p :: p in points && p.time >= min && create(p.time).Missing?
  {
    hide Ordered, FromStore, GoodStore;
    l := [];
    NoGroups(create);
    for k := 0 to |points|
      invariant Ordered(l) && FromStore(l, create)
      invariant forall i :: 0 <= i < k && points[i].time >= min ==> Covered(l, points[i].time)
    {
      var t := points[k].time;
      if t < min {
        continue;
      }
      var covered := Covers(l, t);
      if covered {
        continue;
      }
      var sg := create(t);
      if sg.Missing? {
        assert points[k] in points;
        return true, l;
      }
      NewGroup(l, t, create);
      l := Insert(l, sg.group);
    }
    failed := false;
  }

  ghost predicate Covered(l: seq<Group>, t: int) {
    exists g :: g in l && Contains(g, t)
  }

  lemma NoGroups(create: int -> Found)
    ensures Ordered([]) && FromStore([], create)
  {
  }

  lemma NewGroup(l: seq<Group>, t: int, create: int -> Found)
    requires Ordered(l) && FromStore(l, create) && GoodStore(create) && create(t).Found? && !Covered(l, t)
    ensures var l' := Insert(l, create(t).group);
      && Ordered(l') && FromStore(l', create) && Covered(l', t)
      && forall u :: Covered(l, u) ==> Covered(l', u)
  {
    hide Ordered, GoodGroup;
    var g := create(t).group;
    forall i | 0 <= i < |l| ensures Apart(g, l[i]) {
      assert l[i] in l;
      var u :| create(u) == Found(l[i]);
      assert !Contains(l[i], t);
    }
    assert create(t) == Found(g);
    InsertOrdered(l, g);
    assert g in Insert(l, g);
  }

  /**
   MapShards: every point is either in the slice of its destination, in the order of the batch, or
   dropped, and only points older than the retention cutoff are dropped.
   */
  method MapShards(points: seq<Point>, min: int, create: int -> Found) returns (failed: bool, l: seq<Group>, mapping: ShardMapping)
    requires GoodStore(create)
    ensures Ordered(l) && FromStore(l, create)
    ensures failed ==> exists p :: p in points && p.time >= min && create(p.time).Missing?
    ensures !failed ==>
      && mapping.Valid() && (forall id :: mapping.Of(id) == Going(points, l, Shard(id)))
      && mapping.dropped == Going(points, l, Dropped)
      && forall p :: p in mapping.dropped ==> p.time < min
  {
    hide Ordered, GoodStore, FromStore, DestinationIn;
    mapping := new ShardMapping(|points|);
    failed, l := Groups(points, min, create);
    if failed {
      return;
    }
    assert points[..0] == [];
    for k := 0 to |points|
      invariant mapping.Valid()
      invariant forall id :: mapping.Of(id) == Going(points[..k], l, Shard(id))
      invariant mapping.dropped == Going(points[..k], l, Dropped)
    {
      var p := points[k];
      assert points[..k + 1][..k] == points[..k];
      var sg := ShardGroupAt(l, p.time);
      DestinationIs(l, p, sg);
      if sg.Missing? {
        mapping.dropped := mapping.dropped + [p];
        continue;
      }
      mapping.MapPoint(sg.group.shards[p.hash % |sg.group.shards|], p);
    }
    assert points[..|points|] == points;
    OldDropped(points, points, l, min);
  }

  lemma DestinationIs(l: seq<Group>, p: Point, f: Found)
    requires Ordered(l) && IsAt(l, p.time, f)
    ensures f.Missing? ==> DestinationIn(l, p) == Dropped
    ensures f.Found? ==> f.group.shards != [] && DestinationIn(l, p) == Shard(f.group.shards[p.hash % |f.group.shards|])
  {
    if f.Found? {
      var i :| 0 <= i < |l| && l[i] == f.group;
      assert GoodGroup(l[i]);
      var g :| g in l && Contains(g, p.time) && DestinationIn(l, p) == Shard(g.shards[p.hash % |g.shards|]);
      OnlyOne(l, p.time, g, f.group);
    }
  }

  lemma {:induction false} OldDropped(points: seq<Point>, all: seq<Point>, l: seq<Group>, min: int)
    requires Ordered(l) && forall p :: p in points ==> p in all
    requires forall p :: p in all && p.time >= min ==> exists g :: g in l && Contains(g, p.time)
    ensures forall p :: p in Going(points, l, Dropped) ==> p.time < min
    decreases |points|
  {
    hide Ordered;
    if points != [] {
      var n := |points| - 1;
      OldDropped(points[..n], all, l, min);
      assert points[n] in points;
    }
  }

  /** A point lands as often as it is in the batch, all at its own destination and nowhere else. */
  lemma {:induction false} LandsOnce(points: seq<Point>, l: seq<Group>, p: Point, d: Destination)
    requires Ordered(l)
    ensures multiset(Going(points, l, d))[p] == if DestinationIn(l, p) == d then multiset(points)[p] else 0
    decreases |points|
  {
    hide Ordered, DestinationIn;
    if points != [] {
      var n := |points| - 1;
      LandsOnce(points[..n], l, p, d);
      assert points == points[..n] + [points[n]];
    }
  }
}
