/**
 * Profiling::Profiler from vajra.hpp: named sections, each with at most one
 * active Timer and a growing list of recorded durations in seconds.
 */
module Profiling {
  import opened Timing

  /** timingData[name] in the source: a missing section reads as an empty list. */
  function Entries(data: map<string, seq<real>>, name: string): seq<real>
  {
    if name in data then data[name] else []
  }

  class Profiler {
    var timingData: map<string, seq<real>>
    var activeTimers: map<string, Timer>

    /**
     * Every active timer is running, and no two sections share a timer: the
     * source keeps each Timer by value in its map.
     */
    ghost predicate Valid()
      reads this, activeTimers.Values
    {
      && (forall name :: name in activeTimers ==> activeTimers[name].running && activeTimers[name].started)
      && (forall a, b :: a in activeTimers && b in activeTimers && a != b ==> activeTimers[a] != activeTimers[b])
    }

    constructor ()
      ensures Valid() && timingData == map[] && activeTimers == map[]
    {
      timingData := map[];
      activeTimers := map[];
    }

    /** start(name): a fresh running timer replaces any active one for the section. */
    method Start(name: string, now: int)
      requires Valid()
      modifies this
      ensures Valid() && timingData == old(timingData)
      ensures activeTimers.Keys == old(activeTimers.Keys) + {name}
      ensures fresh(activeTimers[name]) && activeTimers[name].running
      ensures activeTimers[name].startTime == now && activeTimers[name].name == name
      ensures forall other :: other in old(activeTimers) && other != name ==>
                activeTimers[other] == old(activeTimers[other])
    {
      var timer := new Timer(name);
      timer.Start(now);
      activeTimers := activeTimers[name := timer];
    }

    /**
     * stop(name): without an active timer nothing changes; otherwise its
     * start-to-now time in seconds is appended to the section and the timer
     * leaves the active set. Only that section's timer is touched, so every
     * other section keeps its start reading.
     */
    method Stop(name: string, now: int)
      requires Valid()
      modifies this, if name in activeTimers then {activeTimers[name]} else {}
      ensures Valid()
      ensures name !in old(activeTimers) ==>
                timingData == old(timingData) && activeTimers == old(activeTimers)
      ensures name in old(activeTimers) ==>
                && activeTimers == old(activeTimers) - {name}
                && timingData == old(timingData)[name := Entries(old(timingData), name) +
                     [(now - old(activeTimers[name].startTime)) as real / 1000000000.0]]
      ensures forall other :: other in activeTimers ==>
                other in old(activeTimers) && activeTimers[other] == old(activeTimers[other]) &&
                activeTimers[other].startTime == old(activeTimers[other].startTime)
    {
      if name in activeTimers {
        var timer := activeTimers[name];
        timer.Stop(now);
        timingData := timingData[name := Entries(timingData, name) + [timer.ElapsedSeconds(now)]];
        activeTimers := activeTimers - {name};
      }
    }

    /** addTiming(name, seconds): exactly one entry appended to the section. */
    method AddTiming(name: string, seconds: real)
      requires Valid()
      modifies this
      ensures Valid() && activeTimers == old(activeTimers)
      ensures timingData == old(timingData)[name := Entries(old(timingData), name) + [seconds]]
    {
      timingData := timingData[name := Entries(timingData, name) + [seconds]];
    }

    /** clear(): no recorded durations and no active timers. */
    method Clear()
      modifies this
      ensures Valid() && timingData == map[] && activeTimers == map[]
    {
      timingData := map[];
      activeTimers := map[];
    }

    /** getTimingData(): the recorded durations of every section. */
    function GetTimingData(): (r: map<string, seq<real>>)
      reads this
      ensures r == timingData
      ensures forall name :: Entries(r, name) == Entries(timingData, name)
    {
      timingData
    }
  }

  /**
   * Two overlapping sections: a from 10 to 30 and b from 20 to 50. Stopping a
   * leaves b's start reading alone, so each section records its own span.
   */
  method OverlappingSections() returns (data: map<string, seq<real>>)
    ensures data == map["a" := [20.0 / 1000000000.0], "b" := [30.0 / 1000000000.0]]
  {
    var profiler := new Profiler();
    assert "a" != "b" by { assert "a"[0] != "b"[0]; }
    profiler.Start("a", 10);
    profiler.Start("b", 20);
    assert profiler.activeTimers["a"].startTime == 10 && profiler.activeTimers["b"].startTime == 20;
    assert profiler.timingData == map[];
    profiler.Stop("a", 30);
    assert Entries(map[], "a") == [];
    assert profiler.timingData == map["a" := [] + [(30 - 10) as real / 1000000000.0]];
    assert [] + [(30 - 10) as real / 1000000000.0] == [20.0 / 1000000000.0];
    assert profiler.timingData == map["a" := [20.0 / 1000000000.0]];
    assert "b" in profiler.activeTimers && profiler.activeTimers["b"].startTime == 20;
    assert Entries(profiler.timingData, "b") == [];
    profiler.Stop("b", 50);
    assert [] + [(50 - 20) as real / 1000000000.0] == [30.0 / 1000000000.0];
    assert profiler.timingData == map["a" := [20.0 / 1000000000.0], "b" := [30.0 / 1000000000.0]];
    data := profiler.GetTimingData();
  }
}
