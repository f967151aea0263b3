# Point-of-Interest menu of the OpenAstroTracker firmware, in Dafny

This project models the Point-of-Interest (POI) submenu of a telescope-mount
controller. The operator steps a cursor through a fixed catalog of celestial
objects, which ends in three mount shortcuts (Home, Unpark and Park). Pressing
SELECT makes the submenu tell the mount what to do.

- `catalog.dfy` (module `PoiCatalog`): the `PointOfInterest` record and the
  19-entry catalog as shipped. Also the reserved indices `parkPOI = N-1`,
  `unparkPOI = N-2` and `homePOI = N-3`.
- `declination.dfy` (module `Declination`): converts an entry's signed
  degrees and unsigned minutes and seconds into one signed count of
  arc-seconds. The sign comes from the degrees alone. The module also has a
  reference decoding back into degrees, minutes and seconds, and lemmas
  relating the two.
- `collaborators.dfy` (module `Collaborators`): the mount and the LCD menu
  framework. Each is a class that records the calls it receives in a `log`.
- `poi_menu.dfy` (module `PoiMenu`): the wraparound cursor arithmetic and the
  SELECT dispatch, as specification functions with lemmas about them. Also
  the class `PoiSubmenu`, which holds the cursor `currentPOI`.
  `ProcessKeys` handles one key event. `PrintSubmenu` shows the label under
  the cursor while the mount is idle.

The key event is an input. `None` means no key changed. `isSlewingIdle()` is
a parameter of `PrintSubmenu`. Every mount or menu call is an entry appended
to that collaborator's log, so each method's contract states the exact call
trace it produces.

## Model

| member | source | states |
|---|---|---|
| `PoiCatalog.PointsOfInterest` | src/c722_menuPOI.hpp:17-43 | The shipped catalog has 19 entries, starts with Polaris (whose RA comes from build constants), and ends with the reserved Home, Unpark and Park slots in that order |
| `PoiCatalog.ParkIndex` | src/c722_menuPOI.hpp:46 | `parkPOI` is the last valid index of the catalog; with `ReservedIndicesAreTheTail`, it holds `>Park` |
| `PoiCatalog.UnparkIndex` | src/c722_menuPOI.hpp:47 | `unparkPOI` is a valid index directly before `parkPOI`; with `ReservedIndicesAreTheTail`, it holds `>Unpark` |
| `PoiCatalog.HomeIndex` | src/c722_menuPOI.hpp:48 | `homePOI` (taken as an `int`, see Findings) is a valid index directly before `unparkPOI`; with `ReservedIndicesAreTheTail`, it holds `>Home` |
| `PoiCatalog.ReservedIndicesAreTheTail` | src/c722_menuPOI.hpp:39-48 | Home, Unpark and Park indices are `N-3 < N-2 < N-1`, i.e. the last three slots, so they are pairwise distinct; in a catalog with the reserved tail they hold `>Home`, `>Unpark` and `>Park` |
| `PoiCatalog.HomeIndexAsWritten` | src/c722_menuPOI.hpp:48 | The `byte` Home index equals `N-3` exactly when `N <= 258` |
| `PoiCatalog.HomeIndexTruncationWitness` | src/c722_menuPOI.hpp:48 | For a 259-entry catalog the `byte` Home index is 0, a body entry, while the Home slot is 256 |
| `Declination.TargetSeconds` | src/c722_menuPOI.hpp:79-80 | The arc-second count is negative exactly when the degrees are negative. Its magnitude is at least `3600*abs(deg)`, and below `3600*(abs(deg)+1)` when minutes and seconds are in 0..59 |
| `Declination.Sexagesimal` | src/c722_menuPOI.hpp:79 | The reference decoding of a count always yields minutes and seconds in 0..59 |
| `Declination.SexagesimalOfTargetSeconds` | src/c722_menuPOI.hpp:79-80 | With minutes and seconds in 0..59: `abs(t)/3600 == abs(deg)`, `(abs(t)/60)%60 == min`, `abs(t)%60 == sec`, and the decoding gives back the same (deg, min, sec) |
| `Declination.TargetSecondsOfSexagesimal` | src/c722_menuPOI.hpp:79-80 | Encoding the decoding of a count returns that count if and only if the count is not strictly between -3600 and 0. This is the declination gap between 0 and -1 degree noted at line 16 |
| `Declination.SubDegreeSouthIsUnreachable` | src/c722_menuPOI.hpp:16 | No (degrees, minutes, seconds) gives a count strictly between -3600 and 0, and with 0 degrees the count is never negative |
| `Declination.ShippedCatalogDeclinations` | src/c722_menuPOI.hpp:20-41 | Every shipped entry has DEC minutes and seconds in 0..59 and degrees in -90..90. Its DEC survives encoding and decoding. Its count has magnitude at most 324000, which fits a 32-bit `long` |
| `Declination.WorkedDeclinations` | src/c722_menuPOI.hpp:20-24 | Eagle Nebula (-13, 47, 52) gives -49672; Polaris (89, 21, 6) gives +321666 |
| `PoiMenu.AdjustWrap` | src/c722_menuPOI.hpp:96-102 | The result is always in `[low, high]`, and it equals `current + adjustBy` whenever that sum is in range |
| `PoiMenu.Advance` | src/c722_menuPOI.hpp:96 | LEFT/DOWN moves to the next slot, or from `parkPOI` to 0, and always stays in `[0, parkPOI]` (round trips in `WrapAtBoundaries`, `AdvanceRetreatInverse` and `FullCycle`) |
| `PoiMenu.Retreat` | src/c722_menuPOI.hpp:102 | UP moves to the previous slot, or from 0 to `parkPOI`, and always stays in `[0, parkPOI]` |
| `PoiMenu.WrapAtBoundaries` | src/c722_menuPOI.hpp:93-104 | One step forward from `parkPOI` gives 0; one step back from 0 gives `parkPOI` |
| `PoiMenu.AdvanceRetreatInverse` | src/c722_menuPOI.hpp:93-104 | For a cursor in range, forward then backward, or backward then forward, returns to the start |
| `PoiMenu.FullCycle` | src/c722_menuPOI.hpp:93-97 | Exactly `parkPOI+1` forward steps bring any in-range cursor back to its start; no smaller positive number of steps does |
| `PoiMenu.CursorAfter` | src/c722_menuPOI.hpp:93-104 | One key event keeps an in-range cursor in `[0, parkPOI]` |
| `PoiMenu.CursorAfterKeys` | src/c722_menuPOI.hpp:93-104 | Any sequence of key presses keeps an in-range cursor in `[0, parkPOI]` |
| `PoiMenu.DispatchSelect` | src/c722_menuPOI.hpp:61-88 | The SELECT dispatch for a given Home index. It makes at least two mount calls: the first is `stopSlewing(ALL_DIRECTIONS)` and the last starts a motion |
| `PoiMenu.SelectCalls` | src/c722_menuPOI.hpp:59-89 | SELECT with the Home slot at `N-3` makes at least two mount calls. The first is `stopSlewing(ALL_DIRECTIONS)` and the last starts a motion |
| `PoiMenu.SelectCallsAsWritten` | src/c722_menuPOI.hpp:62 | SELECT compared against the `byte` Home index is the same dispatch as `SelectCalls` for every catalog of at most 258 entries |
| `PoiMenu.SelectHomeTruncationWitness` | src/c722_menuPOI.hpp:62 | For any 259-entry catalog, SELECT compared against the `byte` Home index slews home from slot 0, and sets a target from slot 256's coordinates. With the `N-3` index, slot 256 slews home |
| `PoiMenu.SelectDispatchShape` | src/c722_menuPOI.hpp:61-88 | Only the first SELECT call stops the mount. Exactly one call starts a motion, and it is the last. An RA/DEC target is set if and only if the cursor is on a body entry |
| `PoiMenu.SelectReservedSlots` | src/c722_menuPOI.hpp:61-73 | The exact traces are: Home gives stop then home; Unpark gives stop then `startSlewing(TRACKING)`; Park gives stop then park. None of them sets a target |
| `PoiMenu.SelectBodyEntry` | src/c722_menuPOI.hpp:76-88 | For a body entry the trace is: stop, the entry's RA unchanged, a DEC whose sign is the sign of the degrees, then slew to target. When the entry's DEC minutes and seconds are in 0..59, the DEC decodes back to the entry's declination |
| `PoiMenu.SelectShippedEntries` | src/c722_menuPOI.hpp:20-24 | The exact SELECT traces for Polaris (slot 0, DEC 321666) and the Eagle Nebula (slot 3, RA 18 20 05, DEC -49672) |
| `PoiMenu.MountCallsFor` | src/c722_menuPOI.hpp:57-114 | A key event calls the mount if and only if it is SELECT |
| `PoiMenu.MenuCallsFor` | src/c722_menuPOI.hpp:57-114 | A key event calls the menu framework if and only if it is RIGHT, and then only `setNextActive` |
| `PoiMenu.KeyEffects` | src/c722_menuPOI.hpp:53-117 | Only SELECT calls the mount. Only RIGHT changes the menu page. The cursor moves if and only if the key is LEFT, DOWN or UP. With no event, RIGHT or no button, the cursor stays and the mount gets no call |
| `PoiMenu.PoiSubmenu.constructor` | src/c722_menuPOI.hpp:45 | The cursor starts at 0, inside its valid range |
| `PoiMenu.PoiSubmenu.ProcessKeys` | src/c722_menuPOI.hpp:50-118 | Returns true exactly when a key changed. It keeps the cursor in `[0, parkPOI]`. The new cursor, the appended mount calls and the appended menu calls are the ones the specification functions above give for the old cursor and the event |
| `PoiMenu.PoiSubmenu.PrintSubmenu` | src/c722_menuPOI.hpp:120-126 | Prints `pointOfInterest[currentPOI].pDisplay` exactly when the mount is idle, and prints nothing otherwise. It changes neither the cursor nor the mount |

## Left out

- `Configuration_local.hpp`: it holds only build-time `#define`s (board, drivers, pins, baud rate), with no behaviour to model.
- The `DISPLAY_TYPE` and `SUPPORT_POINTS_OF_INTEREST` guards are build configuration.
- The `LOG(...)` calls and `ToString()` formatting are debug output only.
- The mount's internals are foreign code and appear only as calls in the mount's log. This covers slewing, parking, tracking, `Declination::FromSeconds` and `targetRA().set`.
- The `POLARIS_RA_HOUR/MINUTE/SECOND` constants are defined outside the files modelled here. They are parameters of `PoiCatalog.PointsOfInterest`.
- LCD rendering (`printMenu`, `setNextActive`) and keypad debouncing (`keyChanged`) are hardware plumbing. The key is an input value, and the print and page change are entries in the menu log.
- RA is not range-checked by the code. The catalog values are forwarded unchanged, and so they are here.
- `PoiMenu.AdjustWrap`: the helper's own source is not part of this model. It follows the wrap rule "past `high` gives `low`, below `low` gives `high`". This agrees with any wrap-by-range helper for the steps of +1 and -1 used here. Larger steps are not modelled.
- Integer widths: `degreeDEC` (`int`) and `targetSeconds` (`long`) are unbounded integers here. The configuration targets an ATmega 2560, where `int` is 16 bits and `long` is 32 bits. There `|degreeDEC| <= 32768`, so `(60 * 32768 + 255) * 60 + 255` is far below 2^31 and the `long` arithmetic cannot overflow. The one width effect left out is `abs(-32768)`, which is not representable in a 16-bit `int`. `Declination.ShippedCatalogDeclinations` shows that every shipped value is at most 324000 in magnitude.
- The catalog comment says the entries are sorted by DEC, but the shipped data is not (89 comes before -72, and -72 before -69 before -13). Nothing in the code depends on the order, so no sortedness is stated.
- PoiMenu.SelectCalls: compares the cursor with the Home index `N-3`, not with the `byte`-truncated value. The two agree for catalogs of at most 258 entries, including the shipped one with 19 (see Findings and `PoiMenu.SelectCallsAsWritten`).
- PoiMenu.PoiSubmenu.ProcessKeys: on SELECT, compares the cursor with the Home index `N-3`, not with the `byte`-truncated value. The same agreement holds for catalogs of at most 258 entries.

## Findings

| source | as written | input that shows it | evidently intended | confidence | as-written member | corrected member |
|---|---|---|---|---|---|---|
| src/c722_menuPOI.hpp:48 | `byte homePOI = N - 3`, while `parkPOI` and `unparkPOI` are `int` | a catalog of 259 entries: `homePOI` becomes 0, so SELECT on the first entry slews home, and SELECT on the Home slot (256) slews to its coordinates | `homePOI = N - 3` as an `int`, like the other two indices | low, not executed; the shipped catalog has 19 entries, where both agree | `PoiCatalog.HomeIndexAsWritten`, `PoiMenu.SelectCallsAsWritten`, `PoiMenu.SelectHomeTruncationWitness` | `PoiCatalog.HomeIndex`, proved to be the Home slot in `PoiCatalog.ReservedIndicesAreTheTail`, used by `PoiMenu.SelectCalls` |
