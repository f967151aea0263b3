// The Point-of-Interest catalog: a constant, ordered table of named RA/DEC
// entries ending in three reserved slots (Home, Unpark, Park), and the
// reserved indices derived from the table's length.

module PoiCatalog {

  /** An Arduino `byte`: an unsigned 8-bit value. */
  type Byte = x: int | 0 <= x < 256

  /** One catalog slot: a display label, an RA as hours/minutes/seconds and a
      DEC as signed degrees with unsigned minutes and seconds. */
  datatype PointOfInterest = PointOfInterest(
    display: string,
    hourRA: Byte, minRA: Byte, secRA: Byte,
    degreeDEC: int, minDEC: Byte, secDEC: Byte)

  /** The labels of the three reserved trailing slots. */
  const HomeLabel: string := ">Home"
  const UnparkLabel: string := ">Unpark"
  const ParkLabel: string := ">Park"

  /** Indices of the reserved slots for a catalog of `n` entries: Park is
      the last valid index, Unpark the one before it, Home the one before
      that. */
  function ParkIndex(n: int): (r: int)
    ensures n >= 1 ==> 0 <= r < n && n <= r + 1
  {
    n - 1
  }

  function UnparkIndex(n: int): (r: int)
    ensures n >= 2 ==> 0 <= r && r + 1 == ParkIndex(n)
  {
    n - 2
  }

  function HomeIndex(n: int): (r: int)
    ensures n >= 3 ==> 0 <= r && r + 1 == UnparkIndex(n)
  {
    n - 3
  }

  /** A catalog whose last three slots are the reserved Home, Unpark and
      Park entries, in that order. */
  ghost predicate HasReservedTail(cat: seq<PointOfInterest>)
  {
    |cat| >= 3 &&
    cat[|cat| - 3].display == HomeLabel &&
    cat[|cat| - 2].display == UnparkLabel &&
    cat[|cat| - 1].display == ParkLabel
  }

  /** The catalog as compiled into the firmware. The Polaris RA comes from
      build-time constants that are not part of this model, so it is a
      parameter; the C octal literals 05, 03, 00, 07 and 04 are all below 8
      and equal their decimal readings. */
  function PointsOfInterest(polarisHour: Byte, polarisMinute: Byte, polarisSecond: Byte): (cat: seq<PointOfInterest>)
    ensures |cat| == 19
    ensures HasReservedTail(cat)
    ensures cat[0].display == ">Polaris" && cat[0].hourRA == polarisHour
      && cat[0].minRA == polarisMinute && cat[0].secRA == polarisSecond
  {
    [ PointOfInterest(">Polaris", polarisHour, polarisMinute, polarisSecond, 89, 21, 6),
      PointOfInterest(">Small Magellanic Cloud", 0, 53, 26, -72, 40, 35),
      PointOfInterest(">Large Magellanic Cloud", 5, 23, 23, -69, 44, 3),
      PointOfInterest(">Eagle Nebula", 18, 20, 5, -13, 47, 52),
      PointOfInterest(">Crux", 12, 27, 52, -63, 13, 29),
      PointOfInterest(">Alpha Centauri", 14, 29, 35, -62, 40, 20),
      PointOfInterest(">Omega Centauri ", 13, 26, 47, -47, 28, 46),
      PointOfInterest(">47 Tucanae", 0, 24, 5, -72, 4, 53),
      PointOfInterest(">Wishing Well Cluster", 11, 5, 39, -58, 45, 10),
      PointOfInterest(">Hamburger Galaxy", 13, 25, 27, -43, 1, 8),
      PointOfInterest(">Sculptor Galaxy", 0, 47, 33, -25, 17, 19),
      PointOfInterest(">Carina Nebula", 10, 45, 8, -59, 52, 4),
      PointOfInterest(">Tau Canis Majoris", 7, 18, 0, -24, 57, 0),
      PointOfInterest(">Eight-Burst Nebula", 10, 7, 1, -40, 26, 11),
      PointOfInterest(">M83 Southern Pinwheel", 13, 37, 0, -29, 51, 57),
      PointOfInterest(">M42 Orion Nbula", 5, 36, 18, -5, 22, 44),
      PointOfInterest(HomeLabel, 0, 0, 0, 90, 0, 0),
      PointOfInterest(UnparkLabel, 0, 0, 0, 90, 0, 0),
      PointOfInterest(ParkLabel, 0, 0, 0, 90, 0, 0) ]
  }

  /** The reserved indices are the last three slots of any catalog with at
      least three entries, pairwise distinct, and in a catalog with the
      reserved tail they hold the Home, Unpark and Park labels. */
  lemma ReservedIndicesAreTheTail(cat: seq<PointOfInterest>)
    requires HasReservedTail(cat)
    ensures 0 <= HomeIndex(|cat|) < UnparkIndex(|cat|) < ParkIndex(|cat|) == |cat| - 1
    ensures cat[HomeIndex(|cat|)].display == HomeLabel
    ensures cat[UnparkIndex(|cat|)].display == UnparkLabel
    ensures cat[ParkIndex(|cat|)].display == ParkLabel
    ensures HomeLabel != UnparkLabel && UnparkLabel != ParkLabel && HomeLabel != ParkLabel
  {
    assert HomeLabel[1] == 'H' && UnparkLabel[1] == 'U' && ParkLabel[1] == 'P';
  }

  // ---------------------------------------------------------------------
  // The index of the Home slot is declared `byte` in the firmware, unlike
  // the Park and Unpark indices (`int`). The conversion keeps the value
  // modulo 256, so it is right only for catalogs of at most 258 entries.

  /** The Home index as the firmware computes it: the length minus three,
      truncated to a byte. */
  function HomeIndexAsWritten(n: nat): (r: Byte)
    ensures n >= 3 ==> (r == HomeIndex(n) <==> n <= 258)
  {
    (n - 3) % 256
  }

  /** A catalog of 259 entries: the truncated Home index is 0, the first body
      entry, and no longer the Home slot at 256. */
  lemma HomeIndexTruncationWitness()
    ensures HomeIndexAsWritten(259) == 0 && HomeIndex(259) == 256
  {
  }
}
