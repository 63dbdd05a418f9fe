/** The antenna neighbour graph. Antenna rows with identical coordinates form
    one tower; a planar triangulation of the towers (taken here as a given
    neighbour structure) makes towers adjacent, and every antenna is linked
    to all antennas of the towers adjacent to its own. */
module Geo {
  import opened Common

  /** Position of an antenna row; equal positions mean the same tower. */
  datatype Coord = Coord(long: real, lat: real)

  /** The compressed neighbour lists of a triangulation
      (`vertex_neighbor_vertices`): the neighbours of vertex `p` are
      `indices[indptr[p]:indptr[p + 1]]`. */
  datatype Csr = Csr(indptr: seq<nat>, indices: seq<nat>)

  /** Neighbour lists for `n` vertices that tile `indices` in order. */
  predicate ValidCsr(nb: Csr, n: nat)
  {
    && |nb.indptr| == n + 1
    && nb.indptr[0] == 0
    && nb.indptr[n] == |nb.indices|
    && (forall p, q :: 0 <= p <= q <= n ==> nb.indptr[p] <= nb.indptr[q])
    && (forall q :: 0 <= q < |nb.indices| ==> nb.indices[q] < n)
  }

  /** numpy's `a[lo:hi]` for nonnegative bounds: clamped, empty when
      `lo >= hi`. */
  function NpSlice(a: seq<nat>, lo: nat, hi: nat): (r: seq<nat>)
    ensures |r| <= |a|
  {
    var h := if hi <= |a| then hi else |a|;
    if lo >= h then [] else a[lo..h]
  }

  /** `find_neighbors`. */
  function FindNeighbors(nb: Csr, p: nat): (r: seq<nat>)
    requires p + 1 < |nb.indptr|
    ensures forall x :: x in r ==> x in nb.indices
  {
    NpSlice(nb.indices, nb.indptr[p], nb.indptr[p + 1])
  }

  /** Read in vertex order, the neighbour lists are exactly the `indices`
      array: each list is the slice `indptr` assigns to it. */
  lemma {:induction false} NeighborListsTile(nb: Csr, n: nat, m: nat)
    requires ValidCsr(nb, n) && m <= n
    ensures Concat(seq(m, p requires 0 <= p < m => FindNeighbors(nb, p))) == nb.indices[..nb.indptr[m]]
  {
    var lists := seq(m, p requires 0 <= p < m => FindNeighbors(nb, p));
    if m > 0 {
      NeighborListsTile(nb, n, m - 1);
      assert lists[..m - 1] == seq(m - 1, p requires 0 <= p < m - 1 => FindNeighbors(nb, p));
      assert nb.indptr[m - 1] <= nb.indptr[m] <= |nb.indices|;
      assert nb.indices[..nb.indptr[m]] == nb.indices[..nb.indptr[m - 1]] + nb.indices[nb.indptr[m - 1]..nb.indptr[m]];
    }
  }

  /** The towers: distinct coordinates in order of first appearance. */
  function Towers(coords: seq<Coord>): seq<Coord>
  {
    Dedup(coords)
  }

  /** The tower of each antenna row. */
  function TowerOf(coords: seq<Coord>): (r: seq<nat>)
    ensures |r| == |coords|
    ensures forall a :: 0 <= a < |coords| ==> r[a] < |Towers(coords)| && Towers(coords)[r[a]] == coords[a]
  {
    seq(|coords|, a requires 0 <= a < |coords| => IndexOf(Towers(coords), coords[a]))
  }

  /** Grouping by coordinates: two antenna rows share a tower exactly when
      they share coordinates, and every tower holds at least one row. */
  lemma TowersGroupByCoords(coords: seq<Coord>)
    ensures forall a, b :: 0 <= a < |coords| && 0 <= b < |coords| ==>
              (TowerOf(coords)[a] == TowerOf(coords)[b] <==> coords[a] == coords[b])
    ensures forall t :: 0 <= t < |Towers(coords)| ==> t in TowerOf(coords)
  {
    var ts := Towers(coords);
    var tw := TowerOf(coords);
    forall t | 0 <= t < |ts| ensures t in tw
    {
      assert ts[t] in coords;
      var a :| 0 <= a < |coords| && coords[a] == ts[t];
      IndexOfDistinct(ts, t);
      assert tw[a] == t;
    }
  }

  /** The antenna rows of tower `t`, ascending (pandas' `groupby(...).indices`). */
  function AntInTower(tw: seq<nat>, t: nat): (r: seq<nat>)
    ensures forall a {:trigger a in r} :: a in r <==> 0 <= a < |tw| && tw[a] == t
  {
    if |tw| == 0 then []
    else
      var init := AntInTower(tw[..|tw| - 1], t);
      if tw[|tw| - 1] == t then init + [|tw| - 1] else init
  }

  /** The inner loop of `get_geo`: all antennas of the listed towers. */
  function UnionOfTowers(tw: seq<nat>, ns: seq<nat>): (r: set<nat>)
    ensures forall b {:trigger b in r} :: b in r <==> 0 <= b < |tw| && tw[b] in ns
  {
    if |ns| == 0 then {}
    else
      assert forall x :: x in ns <==> x in ns[..|ns| - 1] || x == ns[|ns| - 1];
      var members := AntInTower(tw, ns[|ns| - 1]);
      UnionOfTowers(tw, ns[..|ns| - 1]) + (set a | a in members)
  }

  /** The outer loop of `get_geo` over towers `0..i-1`; `us[t]` is the set
      the inner loop builds for tower `t`. The antennas of a tower are linked
      only when it has a neighbour tower, because the assignment sits inside
      the neighbour loop. */
  function Links<V>(tw: seq<nat>, nbrs: seq<seq<nat>>, us: seq<V>, i: nat): map<nat, V>
    requires i <= |nbrs| == |us|
  {
    if i == 0 then map[]
    else
      var m := Links(tw, nbrs, us, i - 1);
      if |nbrs[i - 1]| == 0 then m
      else AssignTower(m, tw, i - 1, us[i - 1], |tw|)
  }

  /** After towers `0..i-1`, the linked antennas are those of the towers
      among them that have a neighbour tower. */
  lemma {:induction false} LinksKeys<V>(tw: seq<nat>, nbrs: seq<seq<nat>>, us: seq<V>, i: nat)
    requires i <= |nbrs| == |us|
    requires forall a :: 0 <= a < |tw| ==> tw[a] < |nbrs|
    ensures forall a {:trigger a in Links(tw, nbrs, us, i)} :: a in Links(tw, nbrs, us, i) <==>
              0 <= a < |tw| && tw[a] < i && |nbrs[tw[a]]| > 0
  {
    if i > 0 {
      LinksKeys(tw, nbrs, us, i - 1);
    }
  }

  /** ... and each is linked to the set built for its own tower. */
  lemma {:induction false} LinksValues<V>(tw: seq<nat>, nbrs: seq<seq<nat>>, us: seq<V>, i: nat)
    requires i <= |nbrs| == |us|
    requires forall a :: 0 <= a < |tw| ==> tw[a] < |nbrs|
    ensures forall a :: a in Links(tw, nbrs, us, i) ==> 0 <= a < |tw| && Links(tw, nbrs, us, i)[a] == us[tw[a]]
  {
    if i > 0 {
      var l := Links(tw, nbrs, us, i);
      var m := Links(tw, nbrs, us, i - 1);
      LinksKeys(tw, nbrs, us, i);
      LinksKeys(tw, nbrs, us, i - 1);
      LinksValues(tw, nbrs, us, i - 1);
      if |nbrs[i - 1]| > 0 {
        forall a | a in l ensures 0 <= a < |tw| && l[a] == us[tw[a]]
        {
          if a < |tw| && tw[a] == i - 1 {
            assert l[a] == us[i - 1];
          } else {
            assert l[a] == m[a];
          }
        }
      }
    }
  }

  /** `for ant in ant_in_tower[t]: d[ant] = v`, over the antenna rows
      `0..n-1` in ascending order. */
  function AssignTower<V>(d: map<nat, V>, tw: seq<nat>, t: nat, v: V, n: nat): (r: map<nat, V>)
    requires n <= |tw|
    ensures forall x: nat {:trigger x in r} :: x in r <==> x in d || (x < n && tw[x] == t)
    ensures forall x: nat :: x in r ==> r[x] == if x < n && tw[x] == t then v else d[x]
  {
    if n == 0 then d
    else
      var e := AssignTower(d, tw, t, v, n - 1);
      if tw[n - 1] == t then e[n - 1 := v] else e
  }

  /** The loops of `get_geo` over towers `0..n-1`, antenna row `a` being
      in tower `tw[a]`. */
  function TowerLinks(tw: seq<nat>, nb: Csr, n: nat): (r: map<nat, set<nat>>)
    requires ValidCsr(nb, n)
    requires forall a :: 0 <= a < |tw| ==> tw[a] < n
    ensures forall a {:trigger a in r} :: a in r <==> 0 <= a < |tw| && |FindNeighbors(nb, tw[a])| > 0
    ensures forall a, b {:trigger b in r[a]} :: a in r ==>
              (b in r[a] <==> 0 <= b < |tw| && tw[b] in FindNeighbors(nb, tw[a]))
  {
    var nbrs := seq(n, t requires 0 <= t < n => FindNeighbors(nb, t));
    var us := seq(n, t requires 0 <= t < n => UnionOfTowers(tw, nbrs[t]));
    LinksKeys(tw, nbrs, us, n);
    LinksValues(tw, nbrs, us, n);
    var r := Links(tw, nbrs, us, n);
    forall a | a in r ensures r[a] == UnionOfTowers(tw, FindNeighbors(nb, tw[a]))
    {
      assert nbrs[tw[a]] == FindNeighbors(nb, tw[a]);
    }
    r
  }

  /** `get_geo` with the triangulation supplied as `nb`: maps each antenna
      row with a neighbouring tower to every antenna row whose tower
      neighbours its own. */
  function GetGeo(coords: seq<Coord>, nb: Csr): (r: map<nat, set<nat>>)
    requires ValidCsr(nb, |Towers(coords)|)
    ensures forall a {:trigger a in r} :: a in r <==>
              0 <= a < |coords| && |FindNeighbors(nb, TowerOf(coords)[a])| > 0
    ensures forall a, b {:trigger b in r[a]} :: a in r ==>
              (b in r[a] <==> 0 <= b < |coords| && TowerOf(coords)[b] in FindNeighbors(nb, TowerOf(coords)[a]))
  {
    TowerLinks(TowerOf(coords), nb, |Towers(coords)|)
  }

  /** Tower `t` lists `s` as a neighbour. */
  predicate Adjacent(nb: Csr, s: nat, t: nat)
    requires s + 1 < |nb.indptr|
  {
    t in FindNeighbors(nb, s)
  }

  predicate SymmetricIrreflexive(nb: Csr, n: nat)
    requires |nb.indptr| == n + 1
  {
    && (forall s, t :: 0 <= s < n && 0 <= t < n ==> (Adjacent(nb, s, t) <==> Adjacent(nb, t, s)))
    && (forall s :: 0 <= s < n ==> !Adjacent(nb, s, s))
  }

  /** Over a symmetric, irreflexive tower adjacency, the antenna relation is
      symmetric: a neighbour of an antenna has that antenna as a neighbour. */
  lemma GeoSymmetric(coords: seq<Coord>, nb: Csr, a: nat, b: nat)
    requires ValidCsr(nb, |Towers(coords)|)
    requires SymmetricIrreflexive(nb, |Towers(coords)|)
    requires a in GetGeo(coords, nb) && b in GetGeo(coords, nb)[a]
    ensures b in GetGeo(coords, nb) && a in GetGeo(coords, nb)[b]
  {
    var g := GetGeo(coords, nb);
    var tw := TowerOf(coords);
    assert Adjacent(nb, tw[a], tw[b]);
    assert Adjacent(nb, tw[b], tw[a]);
    assert |FindNeighbors(nb, tw[b])| > 0;
  }

  /** Over an irreflexive tower adjacency, no antenna neighbours itself or
      any antenna sharing its coordinates. */
  lemma GeoIrreflexive(coords: seq<Coord>, nb: Csr, a: nat, b: nat)
    requires ValidCsr(nb, |Towers(coords)|)
    requires SymmetricIrreflexive(nb, |Towers(coords)|)
    requires a in GetGeo(coords, nb) && b < |coords| && coords[a] == coords[b]
    ensures b !in GetGeo(coords, nb)[a]
  {
    var tw := TowerOf(coords);
    TowersGroupByCoords(coords);
    assert tw[a] == tw[b];
    assert !Adjacent(nb, tw[a], tw[a]);
  }
}
