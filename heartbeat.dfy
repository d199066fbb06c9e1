/**
  Liveness checking of one connection. Every interval the timer looks at
  the connection's flag: a connection that has not answered the previous
  ping is terminated; in any case the flag is cleared and a new ping goes
  out. A pong sets the flag again. The timer itself and the transport's
  `terminate` and `ping` are outside this model; a tick reports the calls it
  makes as probes.
 */
module Liveness {

  /** A call a tick makes on the socket. */
  datatype Probe = Terminate | Ping

  /** What can happen to a connection's liveness flag. */
  datatype Event = Tick | Pong

  /** The calls one tick makes when the flag is `alive`: it always ends by
      pinging, and it first terminates exactly when the flag is clear. */
  function TickProbes(alive: bool): (r: seq<Probe>)
    ensures |r| >= 1 && r[|r| - 1] == Ping
    ensures Terminate in r <==> !alive
    ensures |r| == (if alive then 1 else 2) && (!alive ==> r[0] == Terminate)
  {
    if alive then [Ping] else [Terminate, Ping]
  }

  /** The flag after a run of events, starting from `alive`: unchanged by
      an empty run, and otherwise set exactly when the run ended with a
      pong. */
  function AliveAfter(alive: bool, events: seq<Event>): (r: bool)
    ensures r <==> if events == [] then alive else events[|events| - 1] == Pong
    decreases events
  {
    if events == [] then alive
    else AliveAfter(events[0] == Pong, events[1..])
  }

  /** Every call the ticks of a run make, in order, starting from `alive`:
      there is a ping exactly when the run holds a tick, and a termination
      only then. */
  function Probes(alive: bool, events: seq<Event>): (r: seq<Probe>)
    ensures Ping in r <==> Tick in events
    ensures Terminate in r ==> Tick in events
    decreases events
  {
    if events == [] then []
    else
      assert events == [events[0]] + events[1..];
      if events[0] == Tick then TickProbes(alive) + Probes(false, events[1..])
      else Probes(true, events[1..])
  }

  /** Consecutive runs: the second starts from the flag the first left. */
  lemma {:induction false} ProbesAppend(alive: bool, first: seq<Event>, second: seq<Event>)
    ensures Probes(alive, first + second) ==
      Probes(alive, first) + Probes(AliveAfter(alive, first), second)
    ensures AliveAfter(alive, first + second) == AliveAfter(AliveAfter(alive, first), second)
    decreases first
  {
    if first == [] {
      assert first + second == second;
    } else {
      assert (first + second)[1..] == first[1..] + second;
      ProbesAppend(first[0] == Pong, first[1..], second);
    }
  }

  /** Starting from the flag `alive`, a run terminates the connection
      exactly when its first event is a tick while the flag is clear, or
      when two ticks follow each other with no pong between them. */
  lemma {:induction false} TerminatedIffMissedPong(alive: bool, events: seq<Event>)
    ensures Terminate in Probes(alive, events) <==>
      (events != [] && events[0] == Tick && !alive) ||
      exists i :: 0 <= i < |events| - 1 && events[i] == Tick && events[i + 1] == Tick
    decreases events
  {
    if events != [] {
      var rest := events[1..];
      TerminatedIffMissedPong(events[0] == Pong, rest);
      if exists i :: 0 <= i < |rest| - 1 && rest[i] == Tick && rest[i + 1] == Tick {
        var i :| 0 <= i < |rest| - 1 && rest[i] == Tick && rest[i + 1] == Tick;
        assert events[i + 1] == Tick && events[i + 2] == Tick;
      }
      if exists i :: 0 <= i < |events| - 1 && events[i] == Tick && events[i + 1] == Tick {
        var i :| 0 <= i < |events| - 1 && events[i] == Tick && events[i + 1] == Tick;
        if i > 0 {
          assert rest[i - 1] == Tick && rest[i] == Tick;
        }
      }
    }
  }

  /** The liveness flag of one connection, as the heartbeat timer and the
      pong listener share it. */
  class Heartbeat {
    var isAlive: bool

    /** A connection starts out alive. */
    constructor ()
      ensures isAlive
    {
      isAlive := true;
    }

    /** A pong arrived. */
    method OnPong()
      modifies this
      ensures isAlive == AliveAfter(old(isAlive), [Pong])
      ensures isAlive
    {
      isAlive := true;
    }

    /** One timer tick: terminate if the last ping went unanswered, then
        clear the flag and ping. */
    method OnTick() returns (probes: seq<Probe>)
      modifies this
      ensures probes == Probes(old(isAlive), [Tick])
      ensures isAlive == AliveAfter(old(isAlive), [Tick])
      ensures !isAlive
    {
      probes := [];
      if !isAlive {
        probes := probes + [Terminate];
      }
      isAlive := false;
      probes := probes + [Ping];
    }
  }
}
