/** The periodic sweeper of backend/src/services/cleanup.ts. The timer is not modelled:
    `interval` stands for intervalId (None for null, else the period of the installed
    setInterval), and Tick is one firing of that interval. */
module Cleanup {
  import opened Common
  import opened Fs

  /** Ten minutes, the period of the sweep. */
  const IntervalMs := 10 * 60 * 1000

  /** The retention limit used when the constructor is given none. */
  const DefaultMaxAgeMinutes := 30

  class CleanupService {
    var interval: Option<nat>
    const tmpDir: string
    const maxAgeMinutes: int

    /** At most one interval is installed, and it is the ten-minute one. */
    predicate Valid()
      reads this
    {
      interval == None || interval == Some(IntervalMs)
    }

    /** new CleanupService(tmpDir, maxAgeMinutes = 30): stopped; the default applies only
        when the argument is absent. */
    constructor(dir: string, maxAge: Option<int>)
      ensures Valid() && interval == None
      ensures tmpDir == dir
      ensures maxAgeMinutes == (if maxAge.Some? then maxAge.value else DefaultMaxAgeMinutes)
    {
      tmpDir := dir;
      maxAgeMinutes := if maxAge.Some? then maxAge.value else DefaultMaxAgeMinutes;
      interval := None;
    }

    /** runCleanup: one sweep of tmpDir at time `now`. cleanupOldFiles catches its own
        errors, so nothing escapes. */
    method RunCleanup(disk: Disk, now: int, readdir: Option<seq<string>>)
      modifies disk
      ensures disk.files == CleanupOutcome(old(disk.files), tmpDir, maxAgeMinutes, now, readdir).files
    {
      var _ := disk.CleanupOldFiles(tmpDir, maxAgeMinutes, now, readdir);
    }

    /** start(): a no-op while running; otherwise one sweep now, then the interval. */
    method Start(disk: Disk, now: int, readdir: Option<seq<string>>)
      requires Valid()
      modifies this, disk
      ensures Valid() && interval == Some(IntervalMs)
      ensures old(interval).Some? ==> disk.files == old(disk.files)
      ensures old(interval).None? ==>
        disk.files == CleanupOutcome(old(disk.files), tmpDir, maxAgeMinutes, now, readdir).files
    {
      if interval.Some? {
        return;
      }
      RunCleanup(disk, now, readdir);
      interval := Some(IntervalMs);
    }

    /** stop(): clears the interval when there is one; stopping twice is harmless. */
    method Stop()
      requires Valid()
      modifies this
      ensures Valid() && interval == None
    {
      if interval.Some? {
        interval := None;
      }
    }

    /** One firing of the interval: sweeps while it is installed; after stop() nothing fires,
        so no file is deleted. */
    method Tick(disk: Disk, now: int, readdir: Option<seq<string>>)
      requires Valid()
      modifies disk
      ensures interval.None? ==> disk.files == old(disk.files)
      ensures interval.Some? ==>
        disk.files == CleanupOutcome(old(disk.files), tmpDir, maxAgeMinutes, now, readdir).files
    {
      if interval.Some? {
        RunCleanup(disk, now, readdir);
      }
    }
  }
}
