/** Compact Position Reporting, as the ADS-B decoder does it, in exact arithmetic.

    The transmitting side (RTCA DO-260B, Appendix A, section A.1.7.3) is the specification:
    EncodeLat and EncodeLon say what an aircraft at a given position sends. Positions on the
    17-bit grid of a frame are counted in units of 1/131072 of a zone. */
module Cpr {
  import opened Options
  import opened Arithmetic

  const CELLS := 131072
  const SCALE := 131072.0

  // ---------------------------------------------------------------- number of longitude zones

  function Abs(x: real): real {
    if x < 0.0 then -x else x
  }

  /** Number of longitude zones at a latitude. */
  function Nl(lat: real): (n: int)
    ensures 1 <= n <= 59
  {
    var a := Abs(lat);
    if a < 10.47047130 then 59
    else if a < 14.82817437 then 58
    else if a < 18.18626357 then 57
    else if a < 21.02939493 then 56
    else if a < 23.54504487 then 55
    else if a < 25.82924707 then 54
    else if a < 27.93898710 then 53
    else if a < 29.91135686 then 52
    else if a < 31.77209708 then 51
    else if a < 33.53993436 then 50
    else if a < 35.22899598 then 49
    else if a < 36.85025108 then 48
    else if a < 38.41241892 then 47
    else if a < 39.92256684 then 46
    else if a < 41.38651832 then 45
    else if a < 42.80914012 then 44
    else if a < 44.19454951 then 43
    else if a < 45.54626723 then 42
    else if a < 46.86733252 then 41
    else if a < 48.16039128 then 40
    else if a < 49.42776439 then 39
    else if a < 50.67150166 then 38
    else if a < 51.89342469 then 37
    else if a < 53.09516153 then 36
    else if a < 54.27817472 then 35
    else if a < 55.44378444 then 34
    else if a < 56.59318756 then 33
    else if a < 57.72747354 then 32
    else if a < 58.84763776 then 31
    else if a < 59.95459277 then 30
    else if a < 61.04917774 then 29
    else if a < 62.13216659 then 28
    else if a < 63.20427479 then 27
    else if a < 64.26616523 then 26
    else if a < 65.31845310 then 25
    else if a < 66.36171008 then 24
    else if a < 67.39646774 then 23
    else if a < 68.42322022 then 22
    else if a < 69.44242631 then 21
    else if a < 70.45451075 then 20
    else if a < 71.45986473 then 19
    else if a < 72.45884545 then 18
    else if a < 73.45177442 then 17
    else if a < 74.43893416 then 16
    else if a < 75.42056257 then 15
    else if a < 76.39684391 then 14
    else if a < 77.36789461 then 13
    else if a < 78.33374083 then 12
    else if a < 79.29428225 then 11
    else if a < 80.24923213 then 10
    else if a < 81.19801349 then 9
    else if a < 82.13956981 then 8
    else if a < 83.07199445 then 7
    else if a < 83.99173563 then 6
    else if a < 84.89166191 then 5
    else if a < 85.75541621 then 4
    else if a < 86.53536998 then 3
    else if a < 87.00000000 then 2
    else 1
  }

  /** The zone count falls towards the poles, the same north and south, and it skips none: over
      less than 0.46 degrees, the narrowest band, it changes by one at most. */
  lemma NlFalls(a: real, b: real)
    requires Abs(a) <= Abs(b)
    ensures Nl(a) >= Nl(b)
    ensures Abs(b) - Abs(a) < 0.46 ==> Nl(a) <= Nl(b) + 1
    ensures Nl(0.0) == 59 && (Abs(a) >= 87.0 ==> Nl(a) == 1)
  {
  }

  /** Its bands get narrower towards the poles: as far as one can go on from the equator without leaving
      a band, so far back one crosses into the next band only. */
  lemma BandsNarrow(a: real, d: real)
    requires 0.0 <= d <= a && Nl(a + d) == Nl(a) > 1
    ensures Nl(a - d) <= Nl(a) + 1
  {
  }

  /** Zones of one frame parity: one fewer in odd frames, but never none. */
  function ZonesOf(nl: int, odd: bool): (n: int)
    ensures nl >= 1 ==> n >= 1
  {
    var n := if odd then nl - 1 else nl;
    if n < 1 then 1 else n
  }

  function CprN(lat: real, odd: bool): (n: int)
    ensures 1 <= n <= 59
  {
    ZonesOf(Nl(lat), odd)
  }

  function CprDlon(lat: real, odd: bool): (d: real)
    ensures d > 0.0
  {
    360.0 / (CprN(lat, odd) as real)
  }

  function Dlat(odd: bool): real {
    if odd then 360.0 / 59.0 else 360.0 / 60.0
  }

  // ---------------------------------------------------------------- global decoding

  /** The zone index both axes compute from the two counts. */
  function ZoneIndex(zones: int, even: int, odd: int): int {
    (((zones - 1) * even - zones * odd) as real / SCALE + 0.5).Floor
  }

  /** The point at a given count (out of 2^17) of a given zone, zones being d degrees wide. */
  function Place(d: real, zone: int, count: int): real {
    d * (zone as real + count as real / SCALE)
  }

  function Southern(lat: real): real {
    if lat >= 270.0 then lat - 360.0 else lat
  }

  function GlobalLat(evenLat: int, oddLat: int, odd: bool): real {
    var j := ZoneIndex(60, evenLat, oddLat);
    if odd then Southern(Place(Dlat(true), (j % 59 + 59) % 59, oddLat))
    else Southern(Place(Dlat(false), (j % 60 + 60) % 60, evenLat))
  }

  predicate OnGlobe(lat: real) {
    -90.0 <= lat <= 90.0
  }

  function Normalize(lon: real): real {
    lon - ((lon + 180.0) / 360.0).Floor as real * 360.0
  }

  function GlobalLon(lat: real, evenLon: int, oddLon: int, odd: bool): real {
    var ni := CprN(lat, odd);
    var m := ZoneIndex(Nl(lat), evenLon, oddLon);
    Normalize(Place(CprDlon(lat, odd), (m % ni + ni) % ni, if odd then oddLon else evenLon))
  }

  /** Decodes a position from an even and an odd frame; odd says which came last. */
  function DecodeAirborne(evenLat: int, evenLon: int, oddLat: int, oddLon: int, odd: bool)
    : Option<(real, real)>
  {
    var rlat0 := GlobalLat(evenLat, oddLat, false);
    var rlat1 := GlobalLat(evenLat, oddLat, true);
    if !OnGlobe(rlat0) || !OnGlobe(rlat1) then None
    else if Nl(rlat0) != Nl(rlat1) then None
    else
      var rlat := if odd then rlat1 else rlat0;
      Some((rlat, GlobalLon(rlat, evenLon, oddLon, odd)))
  }

  // ---------------------------------------------------------------- the transmitting side

  /** A coordinate in zones of d degrees. */
  function InZones(x: real, d: real): real
    requires d > 0.0
  {
    x / d
  }

  /** The point y units from the origin. */
  function Grid(d: real, y: int): real {
    d * (y as real / SCALE)
  }

  /** A coordinate u, in zones, rounded to a whole number of units. */
  function Units(u: real): int {
    (SCALE * u + 0.5).Floor
  }

  /** The 17 bits sent for a coordinate: the fraction of a zone, rounded, modulo one zone. */
  function Encode(u: real): (bits: int)
    ensures 0 <= bits < CELLS
  {
    (SCALE * (u - u.Floor as real) + 0.5).Floor % CELLS
  }

  function EncodeLat(lat: real, odd: bool): int {
    Encode(InZones(lat, Dlat(odd)))
  }

  /** The latitude a receiver can recover; it is this one that selects the longitude zones. */
  function GridLat(lat: real, odd: bool): real {
    Grid(Dlat(odd), Units(InZones(lat, Dlat(odd))))
  }

  function EncodeLon(lat: real, lon: real, odd: bool): int {
    Encode(InZones(lon, CprDlon(GridLat(lat, odd), odd)))
  }

  /** An even frame has sixty zones from pole to pole and round again, an odd frame fifty-nine; a zone has
      131072 points. Whatever is less than half a point off point c of a zone is sent as c. */
  lemma EncodesPoint(lat: real, zone: int, c: int, off: real, odd: bool)
    requires 0 <= c < 131072 && -0.5 <= off < 0.5
    requires lat == (if odd then 360.0 / 59.0 else 6.0) * (zone as real + (c as real + off) / 131072.0)
    ensures EncodeLat(lat, odd) == c
  {
    var u := zone as real + (c as real + off) / 131072.0;
    assert InZones(lat, Dlat(odd)) == u;
    PointIs(u, zone, c, off);
  }

  lemma PointIs(u: real, zone: int, c: int, off: real)
    requires 0 <= c < 131072 && -0.5 <= off < 0.5 && u == zone as real + (c as real + off) / 131072.0
    ensures Encode(u) == c
  {
    EncodeIsUnits(u);
    assert SCALE * u + 0.5 == (off + 0.5) + (c + CELLS * zone) as real;
    FloorShift(off + 0.5, c + CELLS * zone);
    ModShift(c, zone);
  }

  /** Along a parallel there are as many zones as the count at the latitude the receiver recovers, one
      fewer in odd frames, but never none. */
  lemma EncodesPointAlong(lat: real, lon: real, zone: int, c: int, off: real, odd: bool)
    requires 0 <= c < 131072 && -0.5 <= off < 0.5
    requires var n := Nl(GridLat(lat, odd));
      var zones := if odd && n > 1 then n - 1 else n;
      lon == (360.0 / zones as real) * (zone as real + (c as real + off) / 131072.0)
    ensures EncodeLon(lat, lon, odd) == c
  {
    hide Nl, Encode, GridLat;
    var u := zone as real + (c as real + off) / 131072.0;
    var d := CprDlon(GridLat(lat, odd), odd);
    assert lon == d * u;
    Undone(d, u);
    PointIs(u, zone, c, off);
  }

  lemma Undone(d: real, u: real)
    requires d > 0.0
    ensures InZones(d * u, d) == u
  {
  }

  // ---------------------------------------------------------------- rounding

  /** What is sent is the number of units modulo one zone. */
  lemma EncodeIsUnits(u: real)
    ensures Encode(u) == Units(u) % CELLS
  {
    var whole := u.Floor;
    var a := SCALE * (u - whole as real) + 0.5;
    assert SCALE * u + 0.5 == a + (CELLS * whole) as real;
    FloorShift(a, CELLS * whole);
    assert Units(u) == a.Floor + CELLS * whole;
    ModShift(a.Floor, whole);
  }

  lemma FloorShift(a: real, k: int)
    ensures (a + k as real).Floor == a.Floor + k
  {
  }

  lemma ModShift(a: int, k: int)
    ensures (a + CELLS * k) % CELLS == a % CELLS
  {
  }

  lemma UnitsClose(u: real)
    ensures -0.5 <= SCALE * u - Units(u) as real < 0.5
  {
  }

  lemma FloorHalf(x: int)
    ensures (x as real / SCALE + 0.5).Floor == (x + CELLS / 2) / CELLS
  {
    var q := (x + CELLS / 2) / CELLS;
    var y := x as real / SCALE + 0.5;
    assert y * SCALE == (x + CELLS / 2) as real;
    assert CELLS * q <= x + CELLS / 2 < CELLS * q + CELLS;
    assert q as real <= y < q as real + 1.0;
  }

  // ---------------------------------------------------------------- the zone index

  /** The index computed from the two 17-bit counts is n z1 - (n-1) z0, where z0 and z1 are the
      true zone numbers, exactly when the true positions disagree by less than half a zone
      after scaling. */
  lemma ZoneIndexExact(n: int, y0: int, y1: int)
    ensures ZoneIndex(n, y0 % CELLS, y1 % CELLS) == n * (y1 / CELLS) - (n - 1) * (y0 / CELLS) <==>
      -CELLS / 2 <= (n - 1) * y0 - n * y1 < CELLS / 2
  {
    var z0, z1, e0, e1 := y0 / CELLS, y1 / CELLS, y0 % CELLS, y1 % CELLS;
    var k := n * z1 - (n - 1) * z0;
    var x := (n - 1) * e0 - n * e1;
    FloorHalf(x);
    assert y0 == CELLS * z0 + e0 && y1 == CELLS * z1 + e1;
    Distribute(n - 1, CELLS, z0, e0);
    Distribute(n, CELLS, z1, e1);
    assert (n - 1) * y0 - n * y1 == x - CELLS * k;
    DivIs(x + CELLS / 2, k);
  }

  lemma Distribute(a: int, c: int, z: int, e: int)
    ensures a * (c * z + e) == c * (a * z) + a * e
  {
  }

  lemma DivIs(x: int, k: int)
    ensures x / CELLS == k <==> 0 <= x - CELLS * k < CELLS
  {
  }

  /** The index reduced modulo a zone count gives back the zone number of that parity. */
  lemma IndexModulo(n: int, z0: int, z1: int)
    requires n >= 1
    ensures (n * z1 - (n - 1) * z0) % n == z0 % n
    ensures n >= 2 ==> (n * z1 - (n - 1) * z0) % (n - 1) == z1 % (n - 1)
  {
    MultipleDrops(z0, z1 - z0, n);
    assert n * z1 - (n - 1) * z0 == z0 + n * (z1 - z0);
    if n >= 2 {
      MultipleDrops(z1, z1 - z0, n - 1);
      assert n * z1 - (n - 1) * z0 == z1 + (n - 1) * (z1 - z0);
    }
  }

  /** Real multiplication, named so that proofs can treat a product as one quantity. */
  function Times(a: real, b: real): real {
    a * b
  }

  /** How far apart two positions may be, in fractions t of a full circle, for frames of n and
      n - 1 zones to be combined: n (n-1) |t0 - t1| zones must stay below half a zone, less the
      rounding of the two frames. */
  ghost predicate CloseEnough(n: int, t0: real, t1: real) {
    SCALE * Times(Times(n as real, (n - 1) as real), Abs(t0 - t1)) + (2 * n - 1) as real / 2.0 < SCALE / 2.0
  }

  lemma CloseUnits(n: int, t0: real, t1: real)
    requires n >= 1 && CloseEnough(n, t0, t1)
    ensures var d := (n - 1) * Units(Times(n as real, t0)) - n * Units(Times((n - 1) as real, t1));
      -CELLS / 2 <= d < CELLS / 2
  {
    hide Units, Abs, Times;
    var a, b := n as real, (n - 1) as real;
    var k0, k1 := Units(Times(a, t0)), Units(Times(b, t1));
    UnitsClose(Times(a, t0));
    UnitsClose(Times(b, t1));
    var r0, r1 := SCALE * Times(a, t0) - k0 as real, SCALE * Times(b, t1) - k1 as real;
    Expand(a, b, t0, t1, r0, r1, k0 as real, k1 as real);
    TimesBound(b, r0);
    TimesBound(a, r1);
    ProductNonnegative(a, b);
    AbsProduct(Times(a, b), t0 - t1);
    Products(n, k0, k1);
  }

  lemma Products(n: int, k0: int, k1: int)
    ensures ((n - 1) * k0 - n * k1) as real == Times((n - 1) as real, k0 as real) - Times(n as real, k1 as real)
  {
  }

  lemma ProductNonnegative(a: real, b: real)
    requires a >= 0.0 && b >= 0.0
    ensures Times(a, b) >= 0.0
  {
  }

  lemma Expand(a: real, b: real, t0: real, t1: real, r0: real, r1: real, k0: real, k1: real)
    requires k0 == SCALE * Times(a, t0) - r0 && k1 == SCALE * Times(b, t1) - r1
    ensures Times(b, k0) - Times(a, k1) == SCALE * Times(Times(a, b), t0 - t1) - Times(b, r0) + Times(a, r1)
  {
    assert b * k0 == SCALE * (a * b * t0) - b * r0;
    assert a * k1 == SCALE * (a * b * t1) - a * r1;
  }

  lemma TimesBound(a: real, r: real)
    requires a >= 0.0 && -0.5 <= r <= 0.5
    ensures -a / 2.0 <= Times(a, r) <= a / 2.0
  {
  }

  lemma AbsProduct(a: real, t: real)
    requires a >= 0.0
    ensures -Times(a, Abs(t)) <= Times(a, t) <= Times(a, Abs(t))
  {
  }

  // ---------------------------------------------------------------- global round trip

  /** The angle b less k full turns. */
  function Turn(b: real, k: int): real {
    b - 360.0 * k as real
  }

  /** Equal up to whole turns. */
  ghost predicate SameMeridian(a: real, b: real) {
    exists k: int :: a == Turn(b, k)
  }

  function GridLon(lat: real, lon: real, odd: bool): real {
    var d := CprDlon(GridLat(lat, odd), odd);
    Grid(d, Units(InZones(lon, d)))
  }

  /** The zone number and the count within the zone, put together again, give the position on
      the grid less some whole turns. */
  lemma ZonePosition(ni: int, d: real, y: int)
    requires ni >= 1 && d == 360.0 / ni as real
    ensures Place(d, (y / CELLS) % ni, y % CELLS) == Turn(Grid(d, y), (y / CELLS) / ni)
  {
    var z, e := y / CELLS, y % CELLS;
    var q, r := z / ni, z % ni;
    assert y as real / SCALE == z as real + e as real / SCALE;
    assert z as real == ni as real * q as real + r as real;
    SplitTurns(d, ni as real, q as real, r as real, e as real / SCALE);
  }

  lemma SplitTurns(d: real, n: real, q: real, r: real, f: real)
    requires n > 0.0 && d == 360.0 / n
    ensures d * (r + f) == d * (n * q + r + f) - 360.0 * q
  {
    assert d * n == 360.0;
    assert d * (n * q) == (d * n) * q;
  }

  lemma PythonModulo(j: int, n: int)
    requires n >= 1
    ensures (j % n + n) % n == j % n
  {
    OneMore(j % n, n);
    DivModUnique(j % n, n, 0, j % n);
  }

  lemma GridLatClose(lat: real, odd: bool)
    requires OnGlobe(lat)
    ensures OnGlobe(GridLat(lat, odd))
    ensures Abs(GridLat(lat, odd) - lat) <= Dlat(odd) / 262144.0
  {
    var u := lat / Dlat(odd);
    UnitsClose(u);
    if odd {
      assert -14.75 <= u <= 14.75;
      assert -1933312 <= Units(u) <= 1933312;
    } else {
      assert -15.0 <= u <= 15.0;
      assert -1966080 <= Units(u) <= 1966080;
    }
  }

  lemma LatitudeRecovered(lat0: real, lat1: real, odd: bool)
    requires OnGlobe(lat0) && OnGlobe(lat1) && CloseEnough(60, lat0 / 360.0, lat1 / 360.0)
    ensures GlobalLat(EncodeLat(lat0, false), EncodeLat(lat1, true), odd)
         == GridLat(if odd then lat1 else lat0, odd)
  {
    hide Units, Encode, Abs, ZoneIndex;
    var u0, u1 := InZones(lat0, Dlat(false)), InZones(lat1, Dlat(true));
    var y0, y1 := Units(u0), Units(u1);
    EncodeIsUnits(u0);
    EncodeIsUnits(u1);
    CloseUnits(60, lat0 / 360.0, lat1 / 360.0);
    assert Times(60.0, lat0 / 360.0) == u0 && Times(59.0, lat1 / 360.0) == u1;
    ZoneIndexExact(60, y0, y1);
    IndexModulo(60, y0 / CELLS, y1 / CELLS);
    GridLatClose(lat0, false);
    GridLatClose(lat1, true);
    var j := ZoneIndex(60, y0 % CELLS, y1 % CELLS);
    if odd {
      PythonModulo(j, 59);
      ZonePosition(59, Dlat(true), y1);
      SouthernTurn(GridLat(lat1, true), y1, 59);
    } else {
      PythonModulo(j, 60);
      ZonePosition(60, Dlat(false), y0);
      SouthernTurn(GridLat(lat0, false), y0, 60);
    }
  }

  /** A latitude less the turns its zone number contains is either itself or 360 more. */
  lemma SouthernTurn(g: real, y: int, n: int)
    requires OnGlobe(g) && (n == 59 || n == 60)
    requires g == Grid(if n == 59 then Dlat(true) else Dlat(false), y)
    ensures Southern(Turn(g, (y / CELLS) / n)) == g
  {
    var z := y / CELLS;
    if y >= 0 {
      assert 0 <= z < n;
    } else {
      assert -n <= z < 0;
    }
  }

  lemma NormalizeTurns(a: real)
    ensures Normalize(a) == Turn(a, ((a + 180.0) / 360.0).Floor)
    ensures -180.0 <= Normalize(a) < 180.0
  {
    var t := (a + 180.0) / 360.0;
    assert t.Floor as real <= t < t.Floor as real + 1.0;
    assert t * 360.0 == a + 180.0;
  }

  lemma TurnTwice(b: real, k: int, l: int)
    ensures Turn(Turn(b, k), l) == Turn(b, k + l)
  {
  }

  function Width(n: int): (d: real)
    requires n >= 1
    ensures d > 0.0
  {
    360.0 / n as real
  }

  lemma PerZone(x: real, n: int)
    requires n >= 1
    ensures InZones(x, Width(n)) == Times(n as real, x / 360.0)
  {
    var d := 360.0 / n as real;
    assert d * n as real == 360.0;
    QuotientIs(x, d, n as real * (x / 360.0));
  }

  lemma QuotientIs(x: real, d: real, q: real)
    requires d != 0.0 && d * q == x
    ensures x / d == q
  {
  }

  /** The zone index modulo the zone count of the frame in use is that frame's zone number. */
  lemma LongitudeIndex(nl: int, lon0: real, lon1: real, odd: bool)
    requires nl >= 1 && CloseEnough(nl, lon0 / 360.0, lon1 / 360.0)
    ensures var ni := ZonesOf(nl, odd);
      var y0 := Units(InZones(lon0, Width(ZonesOf(nl, false))));
      var y1 := Units(InZones(lon1, Width(ZonesOf(nl, true))));
      ZoneIndex(nl, y0 % CELLS, y1 % CELLS) % ni == ((if odd then y1 else y0) / CELLS) % ni
  {
    hide Units, Abs, ZoneIndex, Times, CloseEnough;
    if nl >= 2 {
      PerZone(lon0, nl);
      PerZone(lon1, nl - 1);
      var y0 := Units(Times(nl as real, lon0 / 360.0));
      var y1 := Units(Times((nl - 1) as real, lon1 / 360.0));
      CloseUnits(nl, lon0 / 360.0, lon1 / 360.0);
      ZoneIndexExact(nl, y0, y1);
      IndexModulo(nl, y0 / CELLS, y1 / CELLS);
    } else {
      assert ZonesOf(nl, odd) == 1;
    }
  }

  lemma LongitudeRecovered(lat: real, lon0: real, lon1: real, odd: bool)
    requires CloseEnough(Nl(lat), lon0 / 360.0, lon1 / 360.0)
    ensures var d0, d1 := CprDlon(lat, false), CprDlon(lat, true);
      var lon := GlobalLon(lat, Encode(InZones(lon0, d0)), Encode(InZones(lon1, d1)), odd);
      && SameMeridian(lon, if odd then Grid(d1, Units(InZones(lon1, d1))) else Grid(d0, Units(InZones(lon0, d0))))
      && -180.0 <= lon < 180.0
  {
    hide Nl, Units, Abs, ZoneIndex, ZonesOf, CloseEnough, Encode, Normalize, SameMeridian, Grid, Place, InZones, Width;
    var nl := Nl(lat);
    var d0, d1 := CprDlon(lat, false), CprDlon(lat, true);
    WidthOfZones(lat);
    var y0, y1 := Units(InZones(lon0, d0)), Units(InZones(lon1, d1));
    EncodeIsUnits(InZones(lon0, d0));
    EncodeIsUnits(InZones(lon1, d1));
    LongitudeIndex(nl, lon0, lon1, odd);
    var m := ZoneIndex(nl, y0 % CELLS, y1 % CELLS);
    PlaceLongitude(ZonesOf(nl, odd), m, if odd then y1 else y0);
  }

  lemma WidthOfZones(lat: real)
    ensures CprDlon(lat, false) == Width(ZonesOf(Nl(lat), false))
    ensures CprDlon(lat, true) == Width(ZonesOf(Nl(lat), true))
  {
    hide Nl;
  }

  lemma PlaceLongitude(ni: int, m: int, y: int)
    requires ni >= 1 && m % ni == (y / CELLS) % ni
    ensures var lon := Normalize(Place(Width(ni), (m % ni + ni) % ni, y % CELLS));
      SameMeridian(lon, Grid(Width(ni), y)) && -180.0 <= lon < 180.0
  {
    hide Normalize, Turn, Place, Grid;
    PythonModulo(m, ni);
    ZonePosition(ni, Width(ni), y);
    var grid := Grid(Width(ni), y);
    var k := (y / CELLS) / ni;
    var raw := Turn(grid, k);
    NormalizeTurns(raw);
    var l := ((raw + 180.0) / 360.0).Floor;
    TurnTwice(grid, k, l);
    assert Normalize(raw) == Turn(grid, k + l);
  }

  lemma GridLonClose(lat: real, lon: real, odd: bool)
    ensures Abs(GridLon(lat, lon, odd) - lon) <= CprDlon(GridLat(lat, odd), odd) / 262144.0
  {
    hide Nl, Units, GridLat, Grid, InZones, Abs;
    var d := CprDlon(GridLat(lat, odd), odd);
    UnitsClose(InZones(lon, d));
    GridError(d, lon, Units(InZones(lon, d)));
  }

  /** Rounding moves a point by at most half a unit. */
  lemma GridError(d: real, x: real, y: int)
    requires d > 0.0 && -0.5 <= SCALE * InZones(x, d) - y as real <= 0.5
    ensures Abs(Grid(d, y) - x) <= d / 262144.0
  {
    var u := x / d;
    var e := y as real / SCALE - u;
    assert -1.0 / 262144.0 <= e <= 1.0 / 262144.0;
    assert d * u == x;
    assert Grid(d, y) - x == d * e by { DistributeReal(d, y as real / SCALE, u); }
    ScaledBound(d, e, 1.0 / 262144.0);
  }

  lemma DistributeReal(d: real, a: real, b: real)
    ensures d * (a - b) == d * a - d * b
  {
  }

  lemma ScaledBound(d: real, e: real, c: real)
    requires d > 0.0 && -c <= e <= c
    ensures -(d * c) <= d * e <= d * c
  {
  }

  /** Global decoding of two frames of one aircraft, possibly sent from different places. If the
      two places are close enough for the zone counts in use, decoding fails exactly when the
      two recovered latitudes lie in different longitude-zone bands; otherwise the answer is the
      grid point of the later frame: within half a grid step of the truth in both axes. */
  lemma GlobalRoundTrip(lat0: real, lon0: real, lat1: real, lon1: real, odd: bool)
    requires OnGlobe(lat0) && OnGlobe(lat1) && CloseEnough(60, lat0 / 360.0, lat1 / 360.0)
    requires Nl(GridLat(lat0, false)) == Nl(GridLat(lat1, true)) ==>
      CloseEnough(Nl(GridLat(lat0, false)), lon0 / 360.0, lon1 / 360.0)
    ensures var r := DecodeAirborne(EncodeLat(lat0, false), EncodeLon(lat0, lon0, false),
                                    EncodeLat(lat1, true), EncodeLon(lat1, lon1, true), odd);
      var lat, lon := if odd then lat1 else lat0, if odd then lon1 else lon0;
      && (r.None? <==> Nl(GridLat(lat0, false)) != Nl(GridLat(lat1, true)))
      && (r.Some? ==>
          && r.value.0 == GridLat(lat, odd)
          && Abs(r.value.0 - lat) <= Dlat(odd) / 262144.0
          && SameMeridian(r.value.1, GridLon(lat, lon, odd))
          && Abs(GridLon(lat, lon, odd) - lon) <= CprDlon(r.value.0, odd) / 262144.0
          && -180.0 <= r.value.1 < 180.0)
  {
    hide Nl, Units, Abs, GlobalLat, GlobalLon, EncodeLat, Encode, GridLat, CloseEnough, SameMeridian;
    LatitudeRecovered(lat0, lat1, false);
    LatitudeRecovered(lat0, lat1, true);
    GridLatClose(lat0, false);
    GridLatClose(lat1, true);
    var g0, g1 := GridLat(lat0, false), GridLat(lat1, true);
    if Nl(g0) == Nl(g1) {
      assert CprDlon(g0, false) == CprDlon(g1, false) && CprDlon(g0, true) == CprDlon(g1, true);
      LongitudeRecovered(if odd then g1 else g0, lon0, lon1, odd);
      if odd {
        GridLonClose(lat1, lon1, true);
      } else {
        GridLonClose(lat0, lon0, false);
      }
    }
  }

  lemma SamePlaceIsClose(n: int, t: real)
    requires 1 <= n <= 60
    ensures CloseEnough(n, t, t)
  {
  }

  /** In particular for an aircraft that has not moved between the two frames, anywhere. */
  lemma StationaryRoundTrip(lat: real, lon: real, odd: bool)
    requires OnGlobe(lat) && Nl(GridLat(lat, false)) == Nl(GridLat(lat, true))
    ensures var r := DecodeAirborne(EncodeLat(lat, false), EncodeLon(lat, lon, false),
                                    EncodeLat(lat, true), EncodeLon(lat, lon, true), odd);
      && r.Some?
      && Abs(r.value.0 - lat) <= Dlat(odd) / 262144.0
      && SameMeridian(r.value.1, GridLon(lat, lon, odd))
      && Abs(GridLon(lat, lon, odd) - lon) <= CprDlon(r.value.0, odd) / 262144.0
  {
    hide Nl, Abs, DecodeAirborne, EncodeLat, EncodeLon, GridLat, CloseEnough, SameMeridian, GridLon;
    SamePlaceIsClose(60, lat / 360.0);
    SamePlaceIsClose(Nl(GridLat(lat, false)), lon / 360.0);
    GlobalRoundTrip(lat, lon, lat, lon, odd);
  }

  // ---------------------------------------------------------------- relative decoding

  /** C's fmod truncates; this adds the modulus back when the result is negative. */
  function FmodPositive(a: real, b: real): real
    requires b > 0.0
  {
    var q := a / b;
    var trunc := if q >= 0.0 then q.Floor else -((-q).Floor);
    var res := a - b * trunc as real;
    if res < 0.0 then res + b else res
  }

  function RelativeIndex(ref: real, d: real, count: int): int
    requires d > 0.0
  {
    (ref / d).Floor + (0.5 + FmodPositive(ref, d) / d - count as real / SCALE).Floor
  }

  /** Decodes one frame near a reference position. */
  function DecodeRelative(reflat: real, reflon: real, cprlat: int, cprlon: int, odd: bool)
    : Option<(real, real)>
  {
    var dlat := Dlat(odd);
    var rlat := Southern(Place(dlat, RelativeIndex(reflat, dlat, cprlat), cprlat));
    if !OnGlobe(rlat) then None
    else if Abs(rlat - reflat) > dlat / 2.0 then None
    else
      var dlon := CprDlon(rlat, odd);
      var lon := Place(dlon, RelativeIndex(reflon, dlon, cprlon), cprlon);
      var rlon := if lon > 180.0 then lon - 360.0 else lon;
      if Abs(rlon - reflon) > dlon / 2.0 then None
      else Some((rlat, rlon))
  }

  /** The zone that puts the frame's count within half a zone of the reference, ties upwards. */
  function NearestZone(ref: real, d: real, count: int): int
    requires d > 0.0
  {
    (ref / d - count as real / SCALE + 0.5).Floor
  }

  lemma RelativeIsNearest(ref: real, d: real, count: int)
    requires d > 0.0
    ensures RelativeIndex(ref, d, count) == NearestZone(ref, d, count)
  {
    FmodIsFraction(ref, d);
    var k := (ref / d).Floor;
    FloorShift(0.5 + (ref / d - k as real) - count as real / SCALE, k);
  }

  lemma FmodIsFraction(a: real, b: real)
    requires b > 0.0
    ensures FmodPositive(a, b) / b == a / b - (a / b).Floor as real
  {
    var q := a / b;
    var t := if q >= 0.0 then q.Floor else -((-q).Floor);
    var f := q - t as real;
    TruncatedFraction(q);
    assert a == b * q;
    assert a - b * t as real == b * f by { DistributeReal(b, q, t as real); }
    if f < 0.0 {
      NegativeProduct(b, f);
      assert b * f + b == b * (f + 1.0);
      QuotientIs(b * f + b, b, f + 1.0);
    } else {
      PositiveProduct(b, f);
      QuotientIs(b * f, b, f);
    }
  }

  lemma TruncatedFraction(q: real)
    ensures var t := if q >= 0.0 then q.Floor else -((-q).Floor);
      q.Floor == if q - t as real < 0.0 then t - 1 else t
  {
  }

  lemma PositiveProduct(b: real, f: real)
    requires b > 0.0 && f >= 0.0
    ensures b * f >= 0.0
  {
  }

  lemma NegativeProduct(b: real, f: real)
    requires b > 0.0 && f < 0.0
    ensures b * f < 0.0
  {
  }

  /** A zone puts the count within half a zone of the reference exactly if it is the nearest. */
  lemma NearestExactly(ref: real, d: real, count: int, zone: int)
    requires d > 0.0
    ensures -d / 2.0 < Place(d, zone, count) - ref <= d / 2.0 <==> zone == NearestZone(ref, d, count)
  {
    var f := count as real / SCALE;
    var v := ref / d - f;
    var w := zone as real - v;
    assert ref == d * (v + f);
    assert Place(d, zone, count) - ref == d * w by { DistributeReal(d, zone as real + f, v + f); }
    HalfOpen(d, w);
    assert -0.5 < w <= 0.5 <==> zone == (v + 0.5).Floor;
  }

  lemma HalfOpen(d: real, w: real)
    requires d > 0.0
    ensures -d / 2.0 < d * w <= d / 2.0 <==> -0.5 < w <= 0.5
  {
    if w > 0.5 {
      assert d * (w - 0.5) > 0.0;
    }
    if w <= -0.5 {
      assert d * (w + 0.5) <= 0.0;
    }
    if -0.5 < w <= 0.5 {
      assert d * (0.5 - w) >= 0.0;
      assert d * (w + 0.5) > 0.0;
    }
  }

  /** The nearest latitude and, at that latitude, the nearest longitude the frame allows. */
  function NearestLat(reflat: real, cprlat: int, odd: bool): real {
    Place(Dlat(odd), NearestZone(reflat, Dlat(odd), cprlat), cprlat)
  }

  function NearestLon(lat: real, reflon: real, cprlon: int, odd: bool): real {
    Place(CprDlon(lat, odd), NearestZone(reflon, CprDlon(lat, odd), cprlon), cprlon)
  }

  /** Relative decoding in closed form, for every reference and every frame: the nearest point
      of the frame's grid, unless its latitude is off the globe; a longitude beyond 180 is lost,
      except when it is exactly half a turn away in a one-zone band. */
  lemma RelativeExactly(reflat: real, reflon: real, cprlat: int, cprlon: int, odd: bool)
    ensures var lat := NearestLat(reflat, cprlat, odd);
      var lon := NearestLon(lat, reflon, cprlon, odd);
      DecodeRelative(reflat, reflon, cprlat, cprlon, odd) ==
        if !OnGlobe(lat) then None
        else if lon <= 180.0 then Some((lat, lon))
        else if 360.0 - (lon - reflon) <= CprDlon(lat, odd) / 2.0 then Some((lat, lon - 360.0))
        else None
  {
    hide Nl, Place, RelativeIndex, NearestZone;
    var dlat := Dlat(odd);
    RelativeIsNearest(reflat, dlat, cprlat);
    var zlat := NearestZone(reflat, dlat, cprlat);
    NearestExactly(reflat, dlat, cprlat, zlat);
    var lat := NearestLat(reflat, cprlat, odd);
    assert -dlat / 2.0 < lat - reflat <= dlat / 2.0;
    if OnGlobe(lat) {
      var dlon := CprDlon(lat, odd);
      DlonRange(lat, odd);
      RelativeIsNearest(reflon, dlon, cprlon);
      NearestExactly(reflon, dlon, cprlon, NearestZone(reflon, dlon, cprlon));
      var lon := NearestLon(lat, reflon, cprlon, odd);
      assert -dlon / 2.0 < lon - reflon <= dlon / 2.0;
    }
  }

  lemma DlonRange(lat: real, odd: bool)
    ensures 0.0 < CprDlon(lat, odd) <= 360.0
  {
    hide Nl;
    var n := CprN(lat, odd) as real;
    assert 360.0 / n * n == 360.0;
  }

  /** A point of the grid that a frame of this parity can mean. */
  ghost predicate OnGrid(lat: real, lon: real, cprlat: int, cprlon: int, odd: bool) {
    && (exists z: int :: lat == Place(Dlat(odd), z, cprlat))
    && (exists z: int :: lon == Place(CprDlon(lat, odd), z, cprlon))
  }

  /** Whatever global decoding answers is a point of the grid of the frame that came last. */
  lemma GlobalOnGrid(evenLat: int, evenLon: int, oddLat: int, oddLon: int, odd: bool)
    requires DecodeAirborne(evenLat, evenLon, oddLat, oddLon, odd).Some?
    ensures var p := DecodeAirborne(evenLat, evenLon, oddLat, oddLon, odd).value;
      && OnGrid(p.0, p.1, if odd then oddLat else evenLat, if odd then oddLon else evenLon, odd)
      && OnGlobe(p.0) && -180.0 <= p.1 < 180.0
  {
    hide Nl, ZoneIndex, Place, Normalize;
    var p := DecodeAirborne(evenLat, evenLon, oddLat, oddLon, odd).value;
    var cprlat, cprlon := if odd then oddLat else evenLat, if odd then oddLon else evenLon;
    var j := ZoneIndex(60, evenLat, oddLat);
    var n := if odd then 59 else 60;
    var z := (j % n + n) % n;
    WholeTurns(n, z, cprlat, 1);
    var lat := Place(Width(n), z, cprlat);
    assert p.0 == Southern(lat);
    assert p.0 == Place(Dlat(odd), if lat >= 270.0 then z - n else z, cprlat);
    var ni := CprN(p.0, odd);
    var m := ZoneIndex(Nl(p.0), evenLon, oddLon);
    var w := (m % ni + ni) % ni;
    var raw := Place(CprDlon(p.0, odd), w, cprlon);
    NormalizeTurns(raw);
    var k := ((raw + 180.0) / 360.0).Floor;
    WholeTurns(ni, w, cprlon, k);
    assert p.1 == Place(CprDlon(p.0, odd), w - ni * k, cprlon);
  }

  /** Moving n zones is moving a full turn. */
  lemma WholeTurns(n: int, z: int, count: int, k: int)
    requires n >= 1
    ensures Place(Width(n), z - n * k, count) == Place(Width(n), z, count) - 360.0 * k as real
  {
    var d, f := Width(n), count as real / SCALE;
    assert d * n as real == 360.0;
    assert (z - n * k) as real == z as real - n as real * k as real;
    Regroup(d, n as real, k as real, z as real + f);
  }

  lemma Regroup(d: real, n: real, k: real, a: real)
    requires d * n == 360.0
    ensures d * (a - n * k) == d * a - 360.0 * k
  {
    DistributeReal(d, a, n * k);
    assert d * (n * k) == (d * n) * k;
  }

  /** Less than half a cell west of the reference, or at most half a cell east of it. */
  predicate Within(x: real, ref: real, d: real) {
    -d / 2.0 < x - ref <= d / 2.0
  }

  /** Agreement, for every reference: a point of the frame's grid is what relative decoding
      returns if and only if it lies within half a cell of the reference in latitude and, by the
      plain difference of longitudes, within half a cell and not beyond 180 degrees; or, where
      one zone goes all the way round, it is exactly half a turn west of the reference. */
  lemma RelativeAgreesExactly(reflat: real, reflon: real, lat: real, lon: real,
                              cprlat: int, cprlon: int, odd: bool)
    requires OnGrid(lat, lon, cprlat, cprlon, odd) && OnGlobe(lat)
    ensures var d := CprDlon(lat, odd);
      DecodeRelative(reflat, reflon, cprlat, cprlon, odd) == Some((lat, lon)) <==>
        Within(lat, reflat, Dlat(odd))
        && ((lon <= 180.0 && Within(lon, reflon, d)) || (d == 360.0 && lon > -180.0 && lon == reflon - 180.0))
  {
    hide Nl, Place, NearestZone, DecodeRelative, NearestLat;
    var dlat, dlon := Dlat(odd), CprDlon(lat, odd);
    var z: int :| lat == Place(dlat, z, cprlat);
    NearestExactly(reflat, dlat, cprlat, z);
    NearestLatIs(reflat, cprlat, odd);
    RelativeExactly(reflat, reflon, cprlat, cprlon, odd);
    if Within(lat, reflat, dlat) {
      LongitudeAgrees(reflon, lat, lon, cprlon, odd);
    }
  }

  lemma NearestLatIs(reflat: real, cprlat: int, odd: bool)
    ensures var zone := NearestZone(reflat, Dlat(odd), cprlat);
      NearestLat(reflat, cprlat, odd) == Place(Dlat(odd), zone, cprlat)
      && Within(Place(Dlat(odd), zone, cprlat), reflat, Dlat(odd))
  {
    hide Place, NearestZone;
    NearestExactly(reflat, Dlat(odd), cprlat, NearestZone(reflat, Dlat(odd), cprlat));
  }

  /** The longitude half of it. */
  lemma LongitudeAgrees(reflon: real, lat: real, lon: real, cprlon: int, odd: bool)
    requires exists w: int :: lon == Place(CprDlon(lat, odd), w, cprlon)
    ensures var d, near := CprDlon(lat, odd), NearestLon(lat, reflon, cprlon, odd);
      (lon <= 180.0 && Within(lon, reflon, d)) || (d == 360.0 && lon > -180.0 && lon == reflon - 180.0) <==>
        if near <= 180.0 then lon == near
        else 360.0 - (near - reflon) <= d / 2.0 && lon == near - 360.0
  {
    hide Nl, Place, NearestZone, CprDlon;
    var d, near := CprDlon(lat, odd), NearestLon(lat, reflon, cprlon, odd);
    var w: int :| lon == Place(d, w, cprlon);
    DlonRange(lat, odd);
    NearestExactly(reflon, d, cprlon, w);
    NearestExactly(reflon, d, cprlon, w + 1);
    NearestExactly(reflon, d, cprlon, NearestZone(reflon, d, cprlon));
    assert Place(d, w + 1, cprlon) == Place(d, w, cprlon) + d by { NextPlace(d, w, cprlon); }
  }

  lemma CloseIsWithin(x: real, ref: real, d: real)
    requires Abs(x - ref) < d / 2.0
    ensures Within(x, ref, d)
  {
  }

  lemma NextPlace(d: real, zone: int, count: int)
    ensures Place(d, zone + 1, count) == Place(d, zone, count) + d
  {
  }

  /** And no other point of the grid is that close. */
  lemma OnlyGridPoint(reflat: real, reflon: real, lat: real, lon: real, lat': real, lon': real,
                      cprlat: int, cprlon: int, odd: bool)
    requires OnGrid(lat, lon, cprlat, cprlon, odd) && OnGrid(lat', lon', cprlat, cprlon, odd)
    requires Abs(lat - reflat) < Dlat(odd) / 2.0 && Abs(lon - reflon) < CprDlon(lat, odd) / 2.0
    requires Abs(lat' - reflat) < Dlat(odd) / 2.0 && Abs(lon' - reflon) < CprDlon(lat', odd) / 2.0
    ensures lat == lat' && lon == lon'
  {
    hide Nl, Place, NearestZone;
    var z: int :| lat == Place(Dlat(odd), z, cprlat);
    var z': int :| lat' == Place(Dlat(odd), z', cprlat);
    NearestExactly(reflat, Dlat(odd), cprlat, z);
    NearestExactly(reflat, Dlat(odd), cprlat, z');
    var w: int :| lon == Place(CprDlon(lat, odd), w, cprlon);
    var w': int :| lon' == Place(CprDlon(lat', odd), w', cprlon);
    NearestExactly(reflon, CprDlon(lat, odd), cprlon, w);
    NearestExactly(reflon, CprDlon(lat, odd), cprlon, w');
  }

  /** Global and relative decoding agree on the frame that came last, for any pair of frames. */
  lemma GlobalThenRelative(evenLat: int, evenLon: int, oddLat: int, oddLon: int, odd: bool,
                           reflat: real, reflon: real)
    requires DecodeAirborne(evenLat, evenLon, oddLat, oddLon, odd).Some?
    requires var p := DecodeAirborne(evenLat, evenLon, oddLat, oddLon, odd).value;
      Abs(p.0 - reflat) < Dlat(odd) / 2.0 && Abs(p.1 - reflon) < CprDlon(p.0, odd) / 2.0
    ensures DecodeRelative(reflat, reflon, if odd then oddLat else evenLat, if odd then oddLon else evenLon, odd)
         == DecodeAirborne(evenLat, evenLon, oddLat, oddLon, odd)
  {
    hide Nl, DecodeRelative, DecodeAirborne, OnGrid, Abs;
    var p := DecodeAirborne(evenLat, evenLon, oddLat, oddLon, odd).value;
    GlobalOnGrid(evenLat, evenLon, oddLat, oddLon, odd);
    CloseIsWithin(p.0, reflat, Dlat(odd));
    CloseIsWithin(p.1, reflon, CprDlon(p.0, odd));
    RelativeAgreesExactly(reflat, reflon, p.0, p.1,
                          if odd then oddLat else evenLat, if odd then oddLon else evenLon, odd);
  }

  /** Relative round trip: one frame and a reference near enough give the position back to
      within half a grid step. */
  lemma RelativeRoundTrip(lat: real, lon: real, reflat: real, reflon: real, odd: bool)
    requires OnGlobe(lat) && GridLon(lat, lon, odd) <= 180.0
    requires Abs(GridLat(lat, odd) - reflat) < Dlat(odd) / 2.0
    requires Abs(GridLon(lat, lon, odd) - reflon) < CprDlon(GridLat(lat, odd), odd) / 2.0
    ensures DecodeRelative(reflat, reflon, EncodeLat(lat, odd), EncodeLon(lat, lon, odd), odd)
         == Some((GridLat(lat, odd), GridLon(lat, lon, odd)))
    ensures Abs(GridLat(lat, odd) - lat) <= Dlat(odd) / 262144.0
    ensures Abs(GridLon(lat, lon, odd) - lon) <= CprDlon(GridLat(lat, odd), odd) / 262144.0
  {
    hide Nl, DecodeRelative, Abs, Encode, Units, InZones;
    GridLatClose(lat, odd);
    GridLonClose(lat, lon, odd);
    var dlat := Dlat(odd);
    var ulat := InZones(lat, dlat);
    EncodeIsUnits(ulat);
    GridIsPlace(dlat, Units(ulat));
    var dlon := CprDlon(GridLat(lat, odd), odd);
    var ulon := InZones(lon, dlon);
    EncodeIsUnits(ulon);
    GridIsPlace(dlon, Units(ulon));
    CloseIsWithin(GridLat(lat, odd), reflat, Dlat(odd));
    CloseIsWithin(GridLon(lat, lon, odd), reflon, CprDlon(GridLat(lat, odd), odd));
    RelativeAgreesExactly(reflat, reflon, GridLat(lat, odd), GridLon(lat, lon, odd),
                          EncodeLat(lat, odd), EncodeLon(lat, lon, odd), odd);
  }

  lemma GridIsPlace(d: real, y: int)
    ensures Grid(d, y) == Place(d, y / CELLS, y % CELLS)
  {
    assert y as real / SCALE == (y / CELLS) as real + (y % CELLS) as real / SCALE;
  }

  // ---------------------------------------------------------------- the antimeridian

  /** Going east over the antimeridian: a point less than half a cell beyond it is never found
      from a reference on this side. */
  lemma EastboundLost(reflat: real, reflon: real, lat: real, lon: real, cprlat: int, cprlon: int, odd: bool)
    requires OnGrid(lat, lon, cprlat, cprlon, odd) && OnGlobe(lat)
    requires Abs(lat - reflat) < Dlat(odd) / 2.0
    requires -180.0 < lon && reflon <= 180.0 && Abs(lon + 360.0 - reflon) < CprDlon(lat, odd) / 2.0
    ensures DecodeRelative(reflat, reflon, cprlat, cprlon, odd) == None
  {
    hide Nl, Place, NearestZone;
    var dlat, dlon := Dlat(odd), CprDlon(lat, odd);
    var z: int :| lat == Place(dlat, z, cprlat);
    var w: int :| lon == Place(dlon, w, cprlon);
    var n := CprN(lat, odd);
    WidthOfZones(lat);
    WholeTurns(n, w, cprlon, -1);
    NearestExactly(reflat, dlat, cprlat, z);
    NearestExactly(reflon, dlon, cprlon, w + n);
    RelativeExactly(reflat, reflon, cprlat, cprlon, odd);
    DlonRange(lat, odd);
  }

  /** Going west, the point is found but reported beyond -180 degrees. */
  lemma WestboundUnwrapped(reflat: real, reflon: real, lat: real, lon: real, cprlat: int, cprlon: int, odd: bool)
    requires OnGrid(lat, lon, cprlat, cprlon, odd) && OnGlobe(lat)
    requires Abs(lat - reflat) < Dlat(odd) / 2.0
    requires lon < 180.0 && Abs(lon - 360.0 - reflon) < CprDlon(lat, odd) / 2.0
    ensures DecodeRelative(reflat, reflon, cprlat, cprlon, odd) == Some((lat, lon - 360.0))
  {
    hide Nl, Place, NearestZone;
    var dlat, dlon := Dlat(odd), CprDlon(lat, odd);
    var z: int :| lat == Place(dlat, z, cprlat);
    var w: int :| lon == Place(dlon, w, cprlon);
    var n := CprN(lat, odd);
    WidthOfZones(lat);
    WholeTurns(n, w, cprlon, 1);
    NearestExactly(reflat, dlat, cprlat, z);
    NearestExactly(reflon, dlon, cprlon, w - n);
    RelativeExactly(reflat, reflon, cprlat, cprlon, odd);
  }

  /** Concretely, on the equator: a reference at 179.5 E and a frame sent from 179.62 W, less
      than one degree away, give nothing; mirrored, they give a longitude of -180.38. */
  lemma AntimeridianWitness()
    ensures OnGrid(0.0, -29.4375 * (360.0 / 59.0), 0, 73728, false)
    ensures DecodeRelative(0.0, 179.5, 0, 73728, false) == None
    ensures DecodeRelative(0.0, -179.5, 0, 57344, false) == Some((0.0, 29.4375 * (360.0 / 59.0) - 360.0))
  {
    assert Nl(0.0) == 59;
    var d := 360.0 / 59.0;
    assert CprDlon(0.0, false) == d;
    assert 0.0 == Place(Dlat(false), 0, 0);
    assert -29.4375 * d == Place(d, -30, 73728);
    assert 29.4375 * d == Place(d, 29, 57344);
    EastboundLost(0.0, 179.5, 0.0, -29.4375 * d, 0, 73728, false);
    assert OnGrid(0.0, 29.4375 * d, 0, 57344, false);
    WestboundUnwrapped(0.0, -179.5, 0.0, 29.4375 * d, 0, 57344, false);
  }
}
