/** The airport classifiers `WSSS_arrdep` and `WSSL_arrdep`: inclusive bounding boxes tested against
    the last point of a track (arrival), its first point (departure) or either (mode left unset). */
module Airports {
  import opened Wrappers
  import opened Records

  /** The `arrdep` argument as Python sees it: a string, `None`, or an integer. */
  datatype ModeArg = Text(s: string) | NoneArg | IntArg(n: int)

  /** The mode a caller gets by not passing `arrdep`: `None` in the package, `0` in the standalone copy. */
  function UnsetMode(v: Variant): ModeArg
  {
    match v
    case Package => NoneArg
    case Standalone => IntArg(0)
  }

  /** The three modes the classifiers accept; anything else raises `ValueError`. */
  predicate IsValidMode(v: Variant, mode: ModeArg)
  {
    mode == Text("arr") || mode == Text("dep") || mode == UnsetMode(v)
  }

  /** An inclusive box in degrees. */
  datatype Box = Box(lonMin: real, lonMax: real, latMin: real, latMax: real)

  predicate InBox(b: Box, p: Point)
  {
    b.lonMin <= p.lon <= b.lonMax && b.latMin <= p.lat <= b.latMax
  }

  /** Singapore Changi. */
  const WsssBox := Box(103.9, 104.1, 1.3, 1.4)

  /** Seletar. */
  const WsslBox := Box(103.86, 103.88, 1.40, 1.43)

  /** The shared shape of both classifiers: `'arr'` tests the last coordinate, `'dep'` the first, the
      unset mode either of them; any other mode is an error. */
  function ArrDep(v: Variant, b: Box, path: seq<Point>, mode: ModeArg): (r: Result<bool, Error>)
    requires |path| > 0
    ensures r.Ok? <==> IsValidMode(v, mode)
    ensures r.Err? ==> r.error == InvalidMode
    ensures r == Ok(true) ==> InBox(b, path[0]) || InBox(b, path[|path| - 1])
  {
    if mode == Text("arr") then Ok(InBox(b, path[|path| - 1]))
    else if mode == Text("dep") then Ok(InBox(b, path[0]))
    else if mode == UnsetMode(v) then Ok(InBox(b, path[|path| - 1]) || InBox(b, path[0]))
    else Err(InvalidMode)
  }

  /** `WSSS_arrdep(p, arrdep)`. */
  function WsssArrDep(v: Variant, path: seq<Point>, mode: ModeArg): (r: Result<bool, Error>)
    requires |path| > 0
    ensures r.Ok? <==> IsValidMode(v, mode)
    ensures mode == Text("arr") ==> (r == Ok(true) <==> 103.9 <= path[|path| - 1].lon <= 104.1 && 1.3 <= path[|path| - 1].lat <= 1.4)
    ensures mode == Text("dep") ==> (r == Ok(true) <==> 103.9 <= path[0].lon <= 104.1 && 1.3 <= path[0].lat <= 1.4)
    ensures mode == UnsetMode(v) ==> (r == Ok(true) <==>
      (103.9 <= path[|path| - 1].lon <= 104.1 && 1.3 <= path[|path| - 1].lat <= 1.4) || (103.9 <= path[0].lon <= 104.1 && 1.3 <= path[0].lat <= 1.4))
  {
    ArrDep(v, WsssBox, path, mode)
  }

  /** `WSSL_arrdep(p, arrdep)`. */
  function WsslArrDep(v: Variant, path: seq<Point>, mode: ModeArg): (r: Result<bool, Error>)
    requires |path| > 0
    ensures r.Ok? <==> IsValidMode(v, mode)
    ensures mode == Text("arr") ==> (r == Ok(true) <==> 103.86 <= path[|path| - 1].lon <= 103.88 && 1.40 <= path[|path| - 1].lat <= 1.43)
    ensures mode == Text("dep") ==> (r == Ok(true) <==> 103.86 <= path[0].lon <= 103.88 && 1.40 <= path[0].lat <= 1.43)
    ensures mode == UnsetMode(v) ==> (r == Ok(true) <==>
      (103.86 <= path[|path| - 1].lon <= 103.88 && 1.40 <= path[|path| - 1].lat <= 1.43) || (103.86 <= path[0].lon <= 103.88 && 1.40 <= path[0].lat <= 1.43))
  {
    ArrDep(v, WsslBox, path, mode)
  }

  /** The `airport_filters` table; a name outside it is a `KeyError`. */
  function AirportBox(airport: string): (r: Option<Box>)
    ensures r.Some? <==> airport == "WSSS" || airport == "WSSL"
    ensures airport == "WSSS" ==> r == Some(WsssBox)
    ensures airport == "WSSL" ==> r == Some(WsslBox)
  {
    if airport == "WSSS" then Some(WsssBox)
    else if airport == "WSSL" then Some(WsslBox)
    else None
  }

  // ---- properties ----

  /** An arrival is decided by the last point alone and a departure by the first point alone. */
  lemma ModesReadOneEnd(v: Variant, b: Box, path: seq<Point>, other: seq<Point>)
    requires |path| > 0 && |other| > 0
    ensures path[|path| - 1] == other[|other| - 1] ==> ArrDep(v, b, path, Text("arr")) == ArrDep(v, b, other, Text("arr"))
    ensures path[0] == other[0] ==> ArrDep(v, b, path, Text("dep")) == ArrDep(v, b, other, Text("dep"))
  {
  }

  /** Leaving the mode unset selects the tracks that arrive or depart. */
  lemma UnsetIsEither(v: Variant, b: Box, path: seq<Point>)
    requires |path| > 0
    ensures ArrDep(v, b, path, UnsetMode(v)).Ok?
    ensures ArrDep(v, b, path, UnsetMode(v)).value
        <==> ArrDep(v, b, path, Text("arr")).value || ArrDep(v, b, path, Text("dep")).value
  {
  }

  /** What counts as no mode differs between the two copies: each rejects the other's sentinel. */
  lemma SentinelsDiffer(b: Box, path: seq<Point>)
    requires |path| > 0
    ensures ArrDep(Package, b, path, IntArg(0)) == Err(InvalidMode)
    ensures ArrDep(Standalone, b, path, NoneArg) == Err(InvalidMode)
    ensures ArrDep(Package, b, path, Text("ARR")) == Err(InvalidMode)
  {
  }

  /** The box edges belong to the box. */
  lemma WsssBoundsInclusive()
    ensures InBox(WsssBox, Point(103.9, 1.3, 0.0)) && InBox(WsssBox, Point(104.1, 1.4, 0.0))
    ensures !InBox(WsssBox, Point(103.89, 1.35, 0.0)) && !InBox(WsssBox, Point(104.0, 1.41, 0.0))
    ensures InBox(WsslBox, Point(103.86, 1.40, 0.0)) && InBox(WsslBox, Point(103.88, 1.43, 0.0))
    ensures !InBox(WsslBox, Point(103.89, 1.41, 0.0))
  {
  }

  /** A track from Seletar to Changi is a WSSS arrival and a WSSL departure, and in neither case the reverse. */
  lemma SeletarToChangiExample(v: Variant)
    ensures var path := [Point(103.87, 1.41, 500.0), Point(103.95, 1.38, 2000.0), Point(104.0, 1.35, 300.0)];
            WsssArrDep(v, path, Text("arr")) == Ok(true) && WsssArrDep(v, path, Text("dep")) == Ok(false)
            && WsslArrDep(v, path, Text("dep")) == Ok(true) && WsslArrDep(v, path, Text("arr")) == Ok(false)
            && WsssArrDep(v, path, UnsetMode(v)) == Ok(true)
  {
  }
}
