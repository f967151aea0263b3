// The two collaborators the Point-of-Interest menu drives. Their internals
// (slewing, parking, tracking, rendering) are outside this model; each is
// recorded as the ordered log of the calls it has received.

module Collaborators {

  /** The direction/mode flags passed to the mount's slewing calls. */
  datatype SlewFlags = AllDirections | Tracking

  /** One call made on the mount. */
  datatype MountCall =
    | StopSlewing(flags: SlewFlags)
    | StartSlewingToHome
    | Park
    | StartSlewing(flags: SlewFlags)
    | SetTargetRA(hour: int, minute: int, second: int)
    | SetTargetDEC(totalSeconds: int)
    | StartSlewingToTarget

  /** The calls that set a motion going (as opposed to stopping it or only
      setting a target). */
  predicate StartsMotion(call: MountCall)
  {
    call.StartSlewingToHome? || call.Park? || call.StartSlewing? || call.StartSlewingToTarget?
  }

  /** The calls that set the RA or DEC target. */
  predicate SetsTarget(call: MountCall)
  {
    call.SetTargetRA? || call.SetTargetDEC?
  }

  /** The mount, seen as the log of calls made on it. */
  class Mount {
    var log: seq<MountCall>

    constructor ()
      ensures log == []
    {
      log := [];
    }

    method StopSlewing(flags: SlewFlags)
      modifies this
      ensures log == old(log) + [MountCall.StopSlewing(flags)]
    {
      log := log + [MountCall.StopSlewing(flags)];
    }

    method StartSlewingToHome()
      modifies this
      ensures log == old(log) + [MountCall.StartSlewingToHome]
    {
      log := log + [MountCall.StartSlewingToHome];
    }

    method Park()
      modifies this
      ensures log == old(log) + [MountCall.Park]
    {
      log := log + [MountCall.Park];
    }

    method StartSlewing(flags: SlewFlags)
      modifies this
      ensures log == old(log) + [MountCall.StartSlewing(flags)]
    {
      log := log + [MountCall.StartSlewing(flags)];
    }

    /** `targetRA().set(hour, minute, second)` */
    method SetTargetRA(hour: int, minute: int, second: int)
      modifies this
      ensures log == old(log) + [MountCall.SetTargetRA(hour, minute, second)]
    {
      log := log + [MountCall.SetTargetRA(hour, minute, second)];
    }

    /** `targetDEC() = Declination::FromSeconds(totalSeconds)` */
    method SetTargetDEC(totalSeconds: int)
      modifies this
      ensures log == old(log) + [MountCall.SetTargetDEC(totalSeconds)]
    {
      log := log + [MountCall.SetTargetDEC(totalSeconds)];
    }

    method StartSlewingToTarget()
      modifies this
      ensures log == old(log) + [MountCall.StartSlewingToTarget]
    {
      log := log + [MountCall.StartSlewingToTarget];
    }
  }

  /** One call made on the LCD menu framework. */
  datatype MenuCall = SetNextActive | PrintMenu(text: string)

  /** The LCD menu framework, seen as the log of calls made on it. */
  class LcdMenu {
    var log: seq<MenuCall>

    constructor ()
      ensures log == []
    {
      log := [];
    }

    /** Hands control to the next menu page. */
    method SetNextActive()
      modifies this
      ensures log == old(log) + [MenuCall.SetNextActive]
    {
      log := log + [MenuCall.SetNextActive];
    }

    method PrintMenu(text: string)
      modifies this
      ensures log == old(log) + [MenuCall.PrintMenu(text)]
    {
      log := log + [MenuCall.PrintMenu(text)];
    }
  }
}
