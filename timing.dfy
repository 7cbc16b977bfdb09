/**
 * Timer::Timer from vajra.hpp: a stopwatch over clock readings. Readings are
 * nanosecond counts handed in by the caller in place of Clock::now().
 */
module Timing {

  class Timer {
    var startTime: int
    var endTime: int
    var running: bool
    var started: bool
    var name: string

    /** A running timer has been started. */
    ghost predicate Valid()
      reads this
    {
      running ==> started
    }

    constructor (timerName: string)
      ensures Valid() && !started && !running && name == timerName
      ensures forall now :: ElapsedNanoseconds(now) == 0
    {
      startTime, endTime := 0, 0;
      running, started := false, false;
      name := timerName;
    }

    /** start(): record the start reading; the timer is running. */
    method Start(now: int)
      modifies this
      ensures Valid() && running && started && startTime == now
      ensures endTime == old(endTime) && name == old(name)
      ensures forall later :: ElapsedNanoseconds(later) == later - now
    {
      startTime := now;
      running := true;
      started := true;
    }

    /** stop(): record the end reading; from now on the elapsed time is fixed. */
    method Stop(now: int)
      modifies this
      ensures Valid() && !running && endTime == now
      ensures started == old(started) && startTime == old(startTime) && name == old(name)
      ensures forall later :: ElapsedNanoseconds(later) == if started then now - startTime else 0
    {
      endTime := now;
      running := false;
    }

    /** reset(): back to the never-started state, where every elapsed reading is 0. */
    method Reset()
      modifies this
      ensures Valid() && !running && !started
      ensures startTime == old(startTime) && endTime == old(endTime) && name == old(name)
      ensures forall later :: ElapsedNanoseconds(later) == 0
    {
      running := false;
      started := false;
    }

    /**
     * elapsedNanoseconds(): 0 before start, the live distance from the start
     * reading while running, the start-to-stop distance once stopped.
     */
    function ElapsedNanoseconds(now: int): (r: int)
      reads this
      ensures !started ==> r == 0
      ensures started && running ==> r == now - startTime
      ensures started && !running ==> r == endTime - startTime
    {
      if !started then 0
      else (if running then now else endTime) - startTime
    }

    /** elapsedSeconds(): the nanosecond count divided by 1e9. */
    function ElapsedSeconds(now: int): (r: real)
      reads this
      ensures r * 1000000000.0 == ElapsedNanoseconds(now) as real
    {
      ElapsedNanoseconds(now) as real / 1000000000.0
    }

    /** elapsedMilliseconds(): elapsedSeconds() * 1000, i.e. nanoseconds / 1e6. */
    function ElapsedMilliseconds(now: int): (r: real)
      reads this
      ensures r == ElapsedNanoseconds(now) as real / 1000000.0
    {
      ElapsedSeconds(now) * 1000.0
    }

    /** elapsedMicroseconds(): elapsedSeconds() * 1e6, i.e. nanoseconds / 1e3. */
    function ElapsedMicroseconds(now: int): (r: real)
      reads this
      ensures r == ElapsedNanoseconds(now) as real / 1000.0
    {
      ElapsedSeconds(now) * 1000000.0
    }

    /** getName(): the name the timer was constructed with. */
    function GetName(): (r: string)
      reads this
      ensures r == name
    {
      name
    }

    /** isRunning(): true exactly between start() and the next stop() or reset(). */
    function IsRunning(): (r: bool)
      reads this
      ensures r <==> running
      ensures Valid() && r ==> started
    {
      running
    }
  }
}
