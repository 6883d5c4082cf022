/** When the client polls: the timer that arms itself, waits for an interval, and lets one poll go at a time. */
module JournalTimer {

  /** Whether a poll is waited for, and when the last one went out or the timer was armed. */
  datatype Timer = Timer(waiting: bool, last: real)

  const FRESH := Timer(false, 0.0)

  /** More than one interval of a minute's share. */
  predicate IntervalPassed(time: real, last: real, requestsPerMinute: nat) {
    (time - last) * requestsPerMinute as real > 60.0
  }

  /** The timer asked at a time, and whether a poll is due; a last time of at most 1.0 only arms it. */
  function Asked(timer: Timer, requestsPerMinute: nat, time: real): (Timer, bool) {
    if timer.waiting then (timer, false)
    else if requestsPerMinute == 0 || timer.last <= 1.0 then (Timer(false, time), false)
    else if IntervalPassed(time, timer.last, requestsPerMinute) then (Timer(true, time), true)
    else (timer, false)
  }

  /** A client that must not be served a stale answer lets the next poll go soon after the one waited for. */
  function Hurried(timer: Timer): Timer {
    if timer.waiting then timer.(last := 2.0) else timer
  }

  datatype TimerEvent = Ask(time: real) | Complete | Hurry

  /** The timer after some events, and the times at which polls went out. */
  function Polled(timer: Timer, requestsPerMinute: nat, events: seq<TimerEvent>): (Timer, seq<real>) {
    if events == [] then (timer, [])
    else
      var (before, sent) := Polled(timer, requestsPerMinute, events[..|events| - 1]);
      match events[|events| - 1]
      case Ask(time) =>
        var (after, due) := Asked(before, requestsPerMinute, time);
        (after, if due then sent + [time] else sent)
      case Complete => (before.(waiting := false), sent)
      case Hurry => (Hurried(before), sent)
  }

  /** The clock does not go back. */
  ghost predicate Forward(events: seq<TimerEvent>) {
    forall i, j :: 0 <= i < j < |events| && events[i].Ask? && events[j].Ask? ==> events[i].time <= events[j].time
  }

  function Completions(events: seq<TimerEvent>): nat {
    if events == [] then 0
    else Completions(events[..|events| - 1]) + if events[|events| - 1].Complete? then 1 else 0
  }

  lemma Longer(a: real, b: real, r: nat)
    requires a <= b
    ensures a * r as real <= b * r as real
  {
  }

  /** No poll goes out later than the latest call. */
  lemma {:induction false} SentBefore(timer: Timer, requestsPerMinute: nat, events: seq<TimerEvent>, time: real)
    requires forall i :: 0 <= i < |events| && events[i].Ask? ==> events[i].time <= time
    ensures forall i :: 0 <= i < |Polled(timer, requestsPerMinute, events).1| ==>
              Polled(timer, requestsPerMinute, events).1[i] <= time
  {
    if events != [] { SentBefore(timer, requestsPerMinute, events[..|events| - 1], time); }
  }

  /** The polls are more than an interval apart, and as far from the time the timer was armed with. */
  ghost predicate Apart(timer: Timer, requestsPerMinute: nat, after: Timer, sent: seq<real>) {
    && (forall i :: 0 <= i < |sent| ==> sent[i] <= after.last)
    && (forall i, j :: 0 <= i < j < |sent| ==> IntervalPassed(sent[j], sent[i], requestsPerMinute))
    && (timer.last > 1.0 && requestsPerMinute > 0 ==>
          timer.last <= after.last && forall i :: 0 <= i < |sent| ==> IntervalPassed(sent[i], timer.last, requestsPerMinute))
  }

  lemma ApartStep(timer: Timer, requestsPerMinute: nat, before: Timer, sent: seq<real>, time: real)
    requires Apart(timer, requestsPerMinute, before, sent) && forall i :: 0 <= i < |sent| ==> sent[i] <= time
    ensures var (after, due) := Asked(before, requestsPerMinute, time);
            Apart(timer, requestsPerMinute, after, if due then sent + [time] else sent)
  {
    hide IntervalPassed;
    if IntervalPassed(time, before.last, requestsPerMinute) {
      StillApart(before.last, before.last, time, requestsPerMinute);
      if timer.last <= before.last { StillApart(timer.last, before.last, time, requestsPerMinute); }
      forall i | 0 <= i < |sent| ensures IntervalPassed(time, sent[i], requestsPerMinute) {
        StillApart(sent[i], before.last, time, requestsPerMinute);
      }
    }
  }

  /**
   Over every run of a clock that does not go back, from any state of the timer and as long as no poll is hurried,
   two polls are more than an interval apart.
   */
  lemma {:induction false} PollsAreApart(timer: Timer, requestsPerMinute: nat, events: seq<TimerEvent>)
    requires Forward(events) && forall i :: 0 <= i < |events| ==> !events[i].Hurry?
    ensures var (after, sent) := Polled(timer, requestsPerMinute, events);
            Apart(timer, requestsPerMinute, after, sent)
  {
    if events != [] {
      var init, last := events[..|events| - 1], events[|events| - 1];
      PollsAreApart(timer, requestsPerMinute, init);
      var (before, sent) := Polled(timer, requestsPerMinute, init);
      if last.Ask? {
        SentBefore(timer, requestsPerMinute, init, last.time);
        hide Apart, Asked;
        ApartStep(timer, requestsPerMinute, before, sent, last.time);
      } else {
        hide IntervalPassed;
      }
    }
  }

  /** An interval after a time is one after every earlier time. */
  lemma StillApart(earlier: real, last: real, time: real, requestsPerMinute: nat)
    requires earlier <= last && IntervalPassed(time, last, requestsPerMinute)
    ensures IntervalPassed(time, earlier, requestsPerMinute) && time > last
  {
    Longer(time - last, time - earlier, requestsPerMinute);
    if time <= last { Longer(time - last, 0.0, requestsPerMinute); }
  }

  /** A hurried poll that is completed makes the next one due as soon as an interval has passed since 2.0. */
  lemma HurriedPollIsDue(timer: Timer, requestsPerMinute: nat, time: real)
    requires timer.waiting && requestsPerMinute > 0
    ensures Polled(timer, requestsPerMinute, [Hurry, Complete, Ask(time)]).1 ==
            if (time - 2.0) * requestsPerMinute as real > 60.0 then [time] else []
  {
    var events := [Hurry, Complete, Ask(time)];
    assert events[..2] == [Hurry, Complete] && [Hurry, Complete][..1] == [Hurry] && [Hurry][..0] == [];
    assert Polled(timer, requestsPerMinute, [Hurry]) == (Timer(true, 2.0), []);
    assert Polled(timer, requestsPerMinute, [Hurry, Complete]) == (Timer(false, 2.0), []);
  }

  /** One poll at a time: no poll goes out before the one before it is completed. */
  lemma {:induction false} OneAtATime(requestsPerMinute: nat, events: seq<TimerEvent>)
    ensures var (timer, sent) := Polled(FRESH, requestsPerMinute, events);
            |sent| <= Completions(events) + if timer.waiting then 1 else 0
  {
    if events != [] { OneAtATime(requestsPerMinute, events[..|events| - 1]); }
  }

  /**
   Polling starts and goes on: a timer with a rate, armed after 1.0 and not waiting, sends on the first call
   that is more than an interval later, and on none before.
   */
  lemma {:induction false} FirstDueSends(timer: Timer, requestsPerMinute: nat, times: seq<real>, n: nat)
    requires !timer.waiting && timer.last > 1.0 && requestsPerMinute > 0 && n <= |times|
    requires forall i :: 0 <= i < n ==> !IntervalPassed(times[i], timer.last, requestsPerMinute)
    ensures Polled(timer, requestsPerMinute, Asks(times[..n])) == (timer, [])
    ensures n < |times| && IntervalPassed(times[n], timer.last, requestsPerMinute) ==>
              Polled(timer, requestsPerMinute, Asks(times[..n + 1])) == (Timer(true, times[n]), [times[n]])
    decreases n
  {
    hide IntervalPassed;
    if n > 0 {
      FirstDueSends(timer, requestsPerMinute, times, n - 1);
      assert Asks(times[..n])[..n - 1] == Asks(times[..n - 1]);
    }
    if n < |times| {
      var events := Asks(times[..n + 1]);
      assert events[..n] == Asks(times[..n]) && events[n] == Ask(times[n]);
      assert Polled(timer, requestsPerMinute, events[..n]) == (timer, []);
      assert [] + [times[n]] == [times[n]];
    }
  }

  function Asks(times: seq<real>): (r: seq<TimerEvent>)
    ensures |r| == |times| && forall i :: 0 <= i < |r| ==> r[i] == Ask(times[i])
  {
    seq(|times|, i requires 0 <= i < |times| => Ask(times[i]))
  }

  /**
   A new client arms its timer on the first call, and its first poll goes out on the first call more than an
   interval later: on none of the calls before, however many there are.
   */
  lemma FirstPoll(requestsPerMinute: nat, t0: real, times: seq<real>, n: nat)
    requires t0 > 1.0 && requestsPerMinute > 0 && n < |times|
    requires forall i :: 0 <= i < n ==> (times[i] - t0) * requestsPerMinute as real <= 60.0
    requires (times[n] - t0) * requestsPerMinute as real > 60.0
    ensures Polled(FRESH, requestsPerMinute, [Ask(t0)] + Asks(times[..n])).1 == []
    ensures Polled(FRESH, requestsPerMinute, [Ask(t0)] + Asks(times[..n + 1])).1 == [times[n]]
  {
    assert [Ask(t0)][..0] == [];
    FirstDueSends(Timer(false, t0), requestsPerMinute, times, n);
    PolledAppend(FRESH, requestsPerMinute, [Ask(t0)], Asks(times[..n]));
    PolledAppend(FRESH, requestsPerMinute, [Ask(t0)], Asks(times[..n + 1]));
  }

  lemma {:induction false} PolledAppend(timer: Timer, requestsPerMinute: nat, a: seq<TimerEvent>, b: seq<TimerEvent>)
    ensures var (before, sent) := Polled(timer, requestsPerMinute, a);
            var (after, more) := Polled(before, requestsPerMinute, b);
            Polled(timer, requestsPerMinute, a + b) == (after, sent + more)
    decreases |b|
  {
    hide Asked;
    var (before, sent) := Polled(timer, requestsPerMinute, a);
    if b == [] {
      assert a + b == a && sent + [] == sent;
    } else {
      var init, last := b[..|b| - 1], b[|b| - 1];
      PolledAppend(timer, requestsPerMinute, a, init);
      assert (a + b)[..|a + b| - 1] == a + init && (a + b)[|a + b| - 1] == last;
      var (then', more) := Polled(before, requestsPerMinute, init);
      if last.Ask? { assert sent + more + [last.time] == sent + (more + [last.time]); }
    }
  }

  /** Without a rate the client never polls. */
  lemma {:induction false} NoRateNoPoll(timer: Timer, events: seq<TimerEvent>)
    ensures Polled(timer, 0, events).1 == []
  {
    if events != [] { NoRateNoPoll(timer, events[..|events| - 1]); }
  }
}
