// The Point-of-Interest submenu: a cursor over the catalog moved by the
// keypad with wraparound, and the SELECT dispatch that stops the mount and
// then sends it home, parks it, resumes tracking, or slews it to the
// selected catalog entry.

module PoiMenu {
  import opened PoiCatalog
  import opened Declination
  import opened Collaborators

  datatype Option<T> = None | Some(value: T)

  /** The keypad's buttons; `BtnNone` is the "no button" state, reported as
      a change when a button is released. */
  datatype Key = BtnRight | BtnUp | BtnDown | BtnLeft | BtnSelect | BtnNone

  // ---------------------------------------------------------------------
  // Cursor arithmetic

  /** Adds `adjustBy` to `current` and wraps over the inclusive range
      [low, high]: a value past `high` becomes `low` and a value below `low`
      becomes `high`. */
  function AdjustWrap(current: int, adjustBy: int, low: int, high: int): (r: int)
    requires low <= high
    ensures low <= r <= high
    ensures low <= current + adjustBy <= high ==> r == current + adjustBy
  {
    var value := current + adjustBy;
    if value > high then low else if value < low then high else value
  }

  /** The cursor after LEFT or DOWN, for a catalog of `n` entries: the next
      slot, or the first one after the Park slot. */
  function Advance(n: int, cursor: int): (r: int)
    requires n >= 1
    ensures 0 <= r <= ParkIndex(n)
    ensures 0 <= cursor < ParkIndex(n) ==> r == cursor + 1
    ensures cursor == ParkIndex(n) ==> r == 0
  {
    AdjustWrap(cursor, 1, 0, ParkIndex(n))
  }

  /** The cursor after UP, for a catalog of `n` entries: the previous slot,
      or the Park slot before the first one. */
  function Retreat(n: int, cursor: int): (r: int)
    requires n >= 1
    ensures 0 <= r <= ParkIndex(n)
    ensures 0 < cursor <= ParkIndex(n) ==> r == cursor - 1
    ensures cursor == 0 ==> r == ParkIndex(n)
  {
    AdjustWrap(cursor, -1, 0, ParkIndex(n))
  }

  /** One step past the Park slot lands on the first entry, and one step
      back from the first entry lands on the Park slot. */
  lemma WrapAtBoundaries(n: int)
    requires n >= 1
    ensures Advance(n, ParkIndex(n)) == 0
    ensures Retreat(n, 0) == ParkIndex(n)
  {
  }

  /** Forward then backward, or backward then forward, returns to the start. */
  lemma AdvanceRetreatInverse(n: int, cursor: int)
    requires n >= 1 && 0 <= cursor <= ParkIndex(n)
    ensures Retreat(n, Advance(n, cursor)) == cursor
    ensures Advance(n, Retreat(n, cursor)) == cursor
  {
  }

  /** The cursor after `k` forward steps. */
  function AdvanceTimes(n: int, cursor: int, k: nat): int
    requires n >= 1
    decreases k
  {
    if k == 0 then cursor else AdvanceTimes(n, Advance(n, cursor), k - 1)
  }

  lemma {:induction false} AdvanceTimesAdd(n: int, cursor: int, a: nat, b: nat)
    requires n >= 1
    ensures AdvanceTimes(n, cursor, a + b) == AdvanceTimes(n, AdvanceTimes(n, cursor, a), b)
    decreases a
  {
    if a > 0 {
      AdvanceTimesAdd(n, Advance(n, cursor), a - 1, b);
    }
  }

  /** Below the Park slot, `k` forward steps add `k`. */
  lemma {:induction false} AdvanceTimesClimbs(n: int, cursor: int, k: nat)
    requires n >= 1 && 0 <= cursor && cursor + k <= ParkIndex(n)
    ensures AdvanceTimes(n, cursor, k) == cursor + k
    decreases k
  {
    if k > 0 {
      AdvanceTimesClimbs(n, cursor + 1, k - 1);
    }
  }

  /** Exactly `parkIndex + 1` forward steps bring the cursor back to where it
      started: that many do, and no positive smaller number does, so every
      slot is visited once per cycle. */
  lemma {:induction false} FullCycle(n: int, cursor: int)
    requires n >= 1 && 0 <= cursor <= ParkIndex(n)
    ensures AdvanceTimes(n, cursor, ParkIndex(n) + 1) == cursor
    ensures forall k: nat :: 0 < k <= ParkIndex(n) ==> AdvanceTimes(n, cursor, k) != cursor
  {
    var park := ParkIndex(n);
    // From the start up to the Park slot, then one step onto slot 0.
    AdvanceTimesClimbs(n, cursor, park - cursor);
    AdvanceTimesAdd(n, cursor, park - cursor, 1);
    assert AdvanceTimes(n, cursor, n - cursor) == 0;
    // Back up from slot 0 to the start.
    AdvanceTimesAdd(n, cursor, n - cursor, cursor);
    AdvanceTimesClimbs(n, 0, cursor);
    forall k: nat | 0 < k <= park
      ensures AdvanceTimes(n, cursor, k) != cursor
    {
      if cursor + k <= park {
        AdvanceTimesClimbs(n, cursor, k);
      } else {
        AdvanceTimesAdd(n, cursor, n - cursor, k - (n - cursor));
        AdvanceTimesClimbs(n, 0, k - (n - cursor));
      }
    }
  }

  /** The cursor after one polled key event. */
  function CursorAfter(n: int, cursor: int, event: Option<Key>): (r: int)
    requires n >= 1
    ensures 0 <= cursor <= ParkIndex(n) ==> 0 <= r <= ParkIndex(n)
  {
    match event
    case Some(BtnLeft) | Some(BtnDown) => Advance(n, cursor)
    case Some(BtnUp) => Retreat(n, cursor)
    case _ => cursor
  }

  /** The cursor after a sequence of key presses. Starting in range, it
      stays in [0, parkIndex] whatever the keys. */
  function CursorAfterKeys(n: int, cursor: int, keys: seq<Key>): (r: int)
    requires n >= 1 && 0 <= cursor <= ParkIndex(n)
    ensures 0 <= r <= ParkIndex(n)
    decreases |keys|
  {
    if keys == [] then cursor
    else CursorAfterKeys(n, CursorAfter(n, cursor, Some(keys[0])), keys[1..])
  }

  // ---------------------------------------------------------------------
  // SELECT dispatch

  /** The calls SELECT makes on the mount with the cursor at `cursor`, the
      Home slot being taken to be at `homePOI`: stop every motion, then
      exactly one of Home, Park, Unpark (resume tracking) in that order of
      precedence, or else set the entry's RA and DEC and slew to it. */
  function DispatchSelect(cat: seq<PointOfInterest>, cursor: int, homePOI: int): (r: seq<MountCall>)
    requires |cat| >= 3 && 0 <= cursor < |cat|
    ensures 2 <= |r| && r[0] == MountCall.StopSlewing(AllDirections)
    ensures StartsMotion(r[|r| - 1])
  {
    var n := |cat|;
    [MountCall.StopSlewing(AllDirections)] +
    if cursor == homePOI then [MountCall.StartSlewingToHome]
    else if cursor == ParkIndex(n) then [MountCall.Park]
    else if cursor == UnparkIndex(n) then [MountCall.StartSlewing(Tracking)]
    else
      var poi := cat[cursor];
      [ MountCall.SetTargetRA(poi.hourRA, poi.minRA, poi.secRA),
        MountCall.SetTargetDEC(TargetSeconds(poi.degreeDEC, poi.minDEC, poi.secDEC)),
        MountCall.StartSlewingToTarget ]
  }

  /** The calls SELECT makes, with the Home slot at its index `N-3`. */
  function SelectCalls(cat: seq<PointOfInterest>, cursor: int): (r: seq<MountCall>)
    requires |cat| >= 3 && 0 <= cursor < |cat|
    ensures 2 <= |r| && r[0] == MountCall.StopSlewing(AllDirections)
    ensures StartsMotion(r[|r| - 1])
  {
    DispatchSelect(cat, cursor, HomeIndex(|cat|))
  }

  /** The calls SELECT makes as the firmware compares the cursor: against
      the Home index truncated to a byte. For catalogs of at most 258 entries
      this is the same dispatch. */
  function SelectCallsAsWritten(cat: seq<PointOfInterest>, cursor: int): (r: seq<MountCall>)
    requires |cat| >= 3 && 0 <= cursor < |cat|
    ensures |cat| <= 258 ==> r == SelectCalls(cat, cursor)
  {
    DispatchSelect(cat, cursor, HomeIndexAsWritten(|cat|))
  }

  /** With 259 entries the truncated Home index misroutes SELECT: on the
      first entry it slews home, and on the Home slot (256) it sets a target
      from that slot's coordinates instead. */
  lemma SelectHomeTruncationWitness(cat: seq<PointOfInterest>)
    requires |cat| == 259
    ensures SelectCallsAsWritten(cat, 0) ==
      [MountCall.StopSlewing(AllDirections), MountCall.StartSlewingToHome]
    ensures SelectCallsAsWritten(cat, 256)[1] ==
      MountCall.SetTargetRA(cat[256].hourRA, cat[256].minRA, cat[256].secRA)
    ensures SelectCalls(cat, 256) ==
      [MountCall.StopSlewing(AllDirections), MountCall.StartSlewingToHome]
  {
  }

  /** SELECT stops the mount first and only first, then starts exactly one
      motion, as its last call; it sets an RA/DEC target exactly when the
      cursor is on a catalog body entry. */
  lemma SelectDispatchShape(cat: seq<PointOfInterest>, cursor: int)
    requires |cat| >= 3 && 0 <= cursor < |cat|
    ensures var r := SelectCalls(cat, cursor);
      && (forall i :: 1 <= i < |r| ==> !r[i].StopSlewing?)
      && (forall i :: 0 <= i < |r| - 1 ==> !StartsMotion(r[i]))
      && ((exists i :: 0 <= i < |r| && SetsTarget(r[i])) <==> cursor < HomeIndex(|cat|))
  {
    var r := SelectCalls(cat, cursor);
    if cursor < HomeIndex(|cat|) {
      assert SetsTarget(r[1]);
    }
  }

  /** The reserved slots, in precedence order, each send one command after
      the stop and no target. */
  lemma SelectReservedSlots(cat: seq<PointOfInterest>, cursor: int)
    requires |cat| >= 3 && 0 <= cursor < |cat|
    ensures cursor == HomeIndex(|cat|) ==>
      SelectCalls(cat, cursor) == [MountCall.StopSlewing(AllDirections), MountCall.StartSlewingToHome]
    ensures cursor == UnparkIndex(|cat|) ==>
      SelectCalls(cat, cursor) == [MountCall.StopSlewing(AllDirections), MountCall.StartSlewing(Tracking)]
    ensures cursor == ParkIndex(|cat|) ==>
      SelectCalls(cat, cursor) == [MountCall.StopSlewing(AllDirections), MountCall.Park]
  {
  }

  /** On a body entry SELECT sends: stop, the entry's RA unchanged, a DEC
      whose sign is the sign of the entry's degrees and which decodes back to
      the entry's declination when its minutes and seconds are in 0..59, and
      slew to target. */
  lemma {:induction false} SelectBodyEntry(cat: seq<PointOfInterest>, cursor: int)
    requires |cat| >= 3 && 0 <= cursor < HomeIndex(|cat|)
    ensures var r := SelectCalls(cat, cursor); var poi := cat[cursor];
      && |r| == 4
      && r[0] == MountCall.StopSlewing(AllDirections)
      && r[1] == MountCall.SetTargetRA(poi.hourRA, poi.minRA, poi.secRA)
      && r[2].SetTargetDEC?
      && (r[2].totalSeconds < 0 <==> poi.degreeDEC < 0)
      && (poi.minDEC < 60 && poi.secDEC < 60 ==>
            Sexagesimal(r[2].totalSeconds) == Dms(poi.degreeDEC, poi.minDEC, poi.secDEC))
      && r[3] == MountCall.StartSlewingToTarget
  {
    var poi := cat[cursor];
    if poi.minDEC < 60 && poi.secDEC < 60 {
      SexagesimalOfTargetSeconds(poi.degreeDEC, poi.minDEC, poi.secDEC);
    }
  }

  /** The exact traces for two entries of the shipped catalog: Polaris
      (slot 0) and the Eagle Nebula (slot 3). */
  lemma SelectShippedEntries(polarisHour: Byte, polarisMinute: Byte, polarisSecond: Byte)
    ensures var cat := PointsOfInterest(polarisHour, polarisMinute, polarisSecond);
      && SelectCalls(cat, 0) ==
        [ MountCall.StopSlewing(AllDirections),
          MountCall.SetTargetRA(polarisHour, polarisMinute, polarisSecond),
          MountCall.SetTargetDEC(321666),
          MountCall.StartSlewingToTarget ]
      && SelectCalls(cat, 3) ==
        [ MountCall.StopSlewing(AllDirections),
          MountCall.SetTargetRA(18, 20, 5),
          MountCall.SetTargetDEC(-49672),
          MountCall.StartSlewingToTarget ]
  {
  }

  // ---------------------------------------------------------------------
  // One key event

  /** The mount calls made for one polled key event. */
  function MountCallsFor(cat: seq<PointOfInterest>, cursor: int, event: Option<Key>): (r: seq<MountCall>)
    requires |cat| >= 3 && 0 <= cursor < |cat|
    ensures r != [] <==> event == Some(BtnSelect)
  {
    if event == Some(BtnSelect) then SelectCalls(cat, cursor) else []
  }

  /** The menu-framework calls made for one polled key event. */
  function MenuCallsFor(event: Option<Key>): (r: seq<MenuCall>)
    ensures r != [] <==> event == Some(BtnRight)
    ensures r == [] || r == [MenuCall.SetNextActive]
  {
    if event == Some(BtnRight) then [MenuCall.SetNextActive] else []
  }

  /** Which key does what: only SELECT calls the mount, only RIGHT changes
      the menu page, and only LEFT, DOWN and UP move the cursor; with no
      event, RIGHT or the no-button state nothing else happens. */
  lemma KeyEffects(cat: seq<PointOfInterest>, cursor: int, event: Option<Key>)
    requires |cat| >= 3 && 0 <= cursor < |cat|
    ensures MountCallsFor(cat, cursor, event) != [] <==> event == Some(BtnSelect)
    ensures MenuCallsFor(event) != [] <==> event == Some(BtnRight)
    ensures CursorAfter(|cat|, cursor, event) != cursor
      <==> event.Some? && event.value in {BtnLeft, BtnDown, BtnUp}
  {
  }

  // ---------------------------------------------------------------------
  // The submenu's state

  class PoiSubmenu {
    /** The catalog, constant after construction. */
    const pointOfInterest: seq<PointOfInterest>
    const mount: Mount
    const lcdMenu: LcdMenu
    /** The cursor into the catalog. */
    var currentPOI: int

    ghost predicate Valid()
      reads this
    {
      |pointOfInterest| >= 3 && 0 <= currentPOI <= ParkIndex(|pointOfInterest|)
    }

    constructor (catalog: seq<PointOfInterest>, mount: Mount, lcdMenu: LcdMenu)
      requires |catalog| >= 3
      ensures Valid() && currentPOI == 0
      ensures pointOfInterest == catalog && this.mount == mount && this.lcdMenu == lcdMenu
    {
      pointOfInterest := catalog;
      this.mount := mount;
      this.lcdMenu := lcdMenu;
      currentPOI := 0;
    }

    /** Handles one polled key event (`None` when no key changed). Returns
        whether a key changed, the caller's cue to wait for its release. */
    method ProcessKeys(event: Option<Key>) returns (waitForRelease: bool)
      requires Valid()
      modifies this`currentPOI, mount, lcdMenu
      ensures Valid()
      ensures waitForRelease <==> event.Some?
      ensures currentPOI == CursorAfter(|pointOfInterest|, old(currentPOI), event)
      ensures mount.log == old(mount.log) + MountCallsFor(pointOfInterest, old(currentPOI), event)
      ensures lcdMenu.log == old(lcdMenu.log) + MenuCallsFor(event)
    {
      var n := |pointOfInterest|;
      waitForRelease := false;
      if event.Some? {
        waitForRelease := true;
        match event.value
        case BtnSelect =>
          mount.StopSlewing(AllDirections);
          if currentPOI == HomeIndex(n) {
            mount.StartSlewingToHome();
          } else if currentPOI == ParkIndex(n) {
            mount.Park();
          } else if currentPOI == UnparkIndex(n) {
            mount.StartSlewing(Tracking);
          } else {
            var poi := pointOfInterest[currentPOI];
            var targetSeconds := TargetSeconds(poi.degreeDEC, poi.minDEC, poi.secDEC);
            mount.SetTargetRA(poi.hourRA, poi.minRA, poi.secRA);
            mount.SetTargetDEC(targetSeconds);
            mount.StartSlewingToTarget();
          }
        case BtnLeft | BtnDown =>
          currentPOI := AdjustWrap(currentPOI, 1, 0, ParkIndex(n));
        case BtnUp =>
          currentPOI := AdjustWrap(currentPOI, -1, 0, ParkIndex(n));
        case BtnRight =>
          lcdMenu.SetNextActive();
        case BtnNone =>
      }
    }

    /** Shows the label under the cursor, but only while the mount is idle
        (`slewingIdle` is the mount's `isSlewingIdle()`); the cursor and the
        mount are left alone. */
    method PrintSubmenu(slewingIdle: bool)
      requires Valid()
      modifies lcdMenu
      ensures lcdMenu.log == old(lcdMenu.log)
        + (if slewingIdle then [MenuCall.PrintMenu(pointOfInterest[currentPOI].display)] else [])
    {
      if slewingIdle {
        lcdMenu.PrintMenu(pointOfInterest[currentPOI].display);
      }
    }
  }
}
