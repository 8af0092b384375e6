/** When a recovery report is due: src/modules/iridium_schedule.cpp. */
module IridiumSchedule {
  import opened Common
  import opened Clock

  datatype Schedule = Schedule(lastAttempt: u32, attempted: bool, sent: bool, upgradePending: bool)

  const FRESH: Schedule := Schedule(0, false, false, false)

  function Noted(s: Schedule, now: u32, located: bool, success: bool): Schedule {
    Schedule(now, true, s.sent || success,
             if success then !located else s.upgradePending && !located)
  }

  predicate LocatedDue(s: Schedule, now: u32, interval: u32) {
    !s.attempted || s.upgradePending || Since(now, s.lastAttempt) >= interval
  }

  predicate UnlocatedDue(s: Schedule, now: u32, interval: u32) {
    !s.attempted || Since(now, s.lastAttempt) >= interval
  }

  class ReportSchedule {
    var lastAttemptMs: u32
    var attemptedSinceRecovery: bool
    var sentSinceRecovery: bool
    var locatedUpgradePending: bool

    function View(): Schedule
      reads this
    {
      Schedule(lastAttemptMs, attemptedSinceRecovery, sentSinceRecovery, locatedUpgradePending)
    }

    constructor ()
      ensures View() == Schedule(0, false, true, false)
    {
      lastAttemptMs := 0;
      attemptedSinceRecovery := false;
      sentSinceRecovery := true;
      locatedUpgradePending := false;
    }

    method Reset()
      modifies this
      ensures View() == FRESH
    {
      lastAttemptMs := 0;
      attemptedSinceRecovery := false;
      sentSinceRecovery := false;
      locatedUpgradePending := false;
    }

    method NoteAttempt(now: u32, located: bool)
      modifies this
      ensures View() == Noted(old(View()), now, located, false)
    {
      lastAttemptMs := now;
      attemptedSinceRecovery := true;
      if located { locatedUpgradePending := false; }
    }

    method NoteSent(now: u32, located: bool)
      modifies this
      ensures View() == Noted(old(View()), now, located, true)
    {
      NoteAttempt(now, located);
      sentSinceRecovery := true;
      locatedUpgradePending := !located;
    }
  }
}
