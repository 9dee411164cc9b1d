/**
  The objects of main.py that act on the door: the simulated relay pin,
  the event logger, the mail notifier and the door controller. Each
  method is proved to move the observable state (`DoorController.Plant`)
  exactly as the corresponding function of module Access says, so the
  properties proved there about unlock, lock and poll hold of the
  objects.
 */
module Door {
  import opened Wrappers
  import Store
  import opened Access

  /** `SimulatedGPIO`: one bit of lock state behind relay pin 18. */
  class SimulatedGpio {
    var doorLocked: bool
    const relayPin: int

    constructor ()
      ensures doorLocked && relayPin == RELAY_PIN
    {
      doorLocked := true;
      relayPin := RELAY_PIN;
    }

    /** Driving a pin HIGH (1) unlocks; any other value locks. */
    method Output(pin: int, value: int)
      modifies this
      ensures doorLocked == (value != 1)
    {
      if value == 1 {
        doorLocked := false;
      } else {
        doorLocked := true;
      }
    }
  }

  /**
    `DoorLogger`: every event becomes a line `timestamp,event,person` of
    the log file and a row of the database's `access_logs` table.
   */
  class DoorLogger {
    /** The lines of the log file below its header. */
    var entries: seq<LogEntry>
    const db: Store.DatabaseManager

    /** Opens a log file that already holds `existing` (none for a new file). */
    constructor (db: Store.DatabaseManager, existing: seq<LogEntry>)
      ensures this.db == db && entries == existing
    {
      this.db := db;
      entries := existing;
    }

    method LogEvent(event: string, person: string, now: real)
      requires db.Valid()
      modifies this, db
      ensures db.Valid()
      ensures entries == old(entries) + [LogEntry(now, event, person)]
      ensures db.accessLogs == Store.Appended(old(db.accessLogs), event, Some(person), None, now)
      ensures db.users == old(db.users)
    {
      entries := entries + [LogEntry(now, event, person)];
      db.LogAccessEvent(event, Some(person), None, now);
    }
  }

  /** `EmailNotifier`: the notifications it was asked to send, in order. */
  class EmailNotifier {
    var sent: seq<Notification>
    const enabled: bool

    constructor ()
      ensures enabled && sent == []
    {
      enabled := true;
      sent := [];
    }

    method SendNotification(subject: string, withImage: bool)
      modifies this
      ensures sent == old(sent) + [Notification(subject, withImage)]
    {
      sent := sent + [Notification(subject, withImage)];
    }
  }

  /** `DoorController`: the relay, the unlock timer and the events they cause. */
  class DoorController {
    const gpio: SimulatedGpio
    const logger: DoorLogger
    const notifier: EmailNotifier
    const unlockDuration: real
    var doorUnlockedTime: Option<real>

    ghost predicate Valid()
      reads this, logger.db
    {
      logger.db.Valid() && notifier.enabled && unlockDuration == UNLOCK_DURATION
    }

    /** Everything the controller's methods can change, as one value. */
    function Plant(): Access.Plant
      reads this, gpio, logger, logger.db, notifier
    {
      Access.Plant(DoorState(doorUnlockedTime, gpio.doorLocked), logger.entries,
                   logger.db.accessLogs, logger.db.users, notifier.sent)
    }

    /** Construction drives the pin low, so the door starts locked with no timer running. */
    constructor (gpio: SimulatedGpio, logger: DoorLogger, notifier: EmailNotifier)
      requires logger.db.Valid() && notifier.enabled
      modifies gpio
      ensures Valid()
      ensures this.gpio == gpio && this.logger == logger && this.notifier == notifier
      ensures Plant().door == DoorState(None, true)
      ensures unchanged(logger, logger.db, notifier)
    {
      this.gpio := gpio;
      this.logger := logger;
      this.notifier := notifier;
      doorUnlockedTime := None;
      unlockDuration := UNLOCK_DURATION;
      new;
      gpio.Output(RELAY_PIN, 0);
    }

    method UnlockDoor(person: string, now: real)
      requires Valid()
      modifies this, gpio, logger, logger.db, notifier
      ensures Valid()
      ensures Plant() == Unlocked(old(Plant()), person, now)
    {
      gpio.Output(RELAY_PIN, 1);
      doorUnlockedTime := Some(now);
      logger.LogEvent(EVENT_OPENED, person, now);
      if notifier.enabled {
        notifier.SendNotification("Door Unlocked - " + person, false);
      }
    }

    method LockDoor(now: real)
      requires Valid()
      modifies this, gpio, logger, logger.db
      ensures Valid()
      ensures Plant() == Locked(old(Plant()), now)
    {
      gpio.Output(RELAY_PIN, 0);
      doorUnlockedTime := None;
      logger.LogEvent(EVENT_LOCKED, NO_PERSON, now);
    }

    /** Relocks once the unlock duration has passed since a (truthy) unlock time. */
    method CheckDoorStatus(now: real)
      requires Valid()
      modifies this, gpio, logger, logger.db
      ensures Valid()
      ensures Plant() == Polled(old(Plant()), now)
    {
      if doorUnlockedTime.Some? && doorUnlockedTime.value != 0.0 {
        if now - doorUnlockedTime.value >= unlockDuration {
          LockDoor(now);
        }
      }
    }

    /** Locks the door; releasing the pin has no further effect on the simulated relay. */
    method Cleanup(now: real)
      requires Valid()
      modifies this, gpio, logger, logger.db
      ensures Valid()
      ensures Plant() == Locked(old(Plant()), now)
    {
      LockDoor(now);
    }
  }
}
