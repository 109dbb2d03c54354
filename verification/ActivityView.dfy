/** The bounded activity journal (client/activitylog.go) and the panel that mirrors it
    (client/gui.go): what is kept step by step is what one would compute from the whole history. */
module ActivityView {
  import opened Common

  const CAPACITY := 5000

  datatype Kind = CommandReceived | Other(name: string)

  datatype Event = Event(kind: Kind, time: int, detail: string)

  /** The last `n` of them. */
  function LastOf<T>(s: seq<T>, n: nat): seq<T> {
    if |s| <= n then s else s[|s| - n..]
  }

  predicate ShowsEvent(e: Event, commandsOnly: bool) {
    !commandsOnly || e.kind == CommandReceived
  }

  function Shown(events: seq<Event>, commandsOnly: bool): seq<Event> {
    if events == [] then []
    else if ShowsEvent(events[|events| - 1], commandsOnly) then
      Shown(events[..|events| - 1], commandsOnly) + [events[|events| - 1]]
    else Shown(events[..|events| - 1], commandsOnly)
  }

  function Lines(shown: seq<Event>, render: Event -> string): (lines: seq<string>)
    ensures |lines| == |shown|
    ensures forall i :: 0 <= i < |lines| ==> lines[i] == render(shown[i])
  {
    seq(|shown|, i requires 0 <= i < |shown| => render(shown[i]))
  }

  lemma ShownSnoc(events: seq<Event>, e: Event, commandsOnly: bool)
    ensures Shown(events + [e], commandsOnly) ==
            Shown(events, commandsOnly) + if ShowsEvent(e, commandsOnly) then [e] else []
  {
    assert (events + [e])[..|events|] == events;
  }

  lemma LinesSnoc(shown: seq<Event>, e: Event, render: Event -> string)
    ensures Lines(shown + [e], render) == Lines(shown, render) + [render(e)]
  {
  }

  /** Without the filter everything is shown; with it, exactly the commands, in order. */
  lemma {:induction false} ShownIsFilter(events: seq<Event>)
    ensures Shown(events, true) == Filter((e: Event) => e.kind == CommandReceived, events)
    ensures Shown(events, false) == events
  {
    if events != [] {
      ShownIsFilter(events[..|events| - 1]);
    }
  }

  /** Keeping the last `n` as events come is the same as keeping the last `n` of them all. */
  lemma LastOfAppend<T>(a: seq<T>, b: seq<T>, n: nat)
    ensures LastOf(LastOf(a, n) + b, n) == LastOf(a + b, n)
  {
    if |a| > n {
      var kept := LastOf(a, n);
      assert a == a[..|a| - n] + kept;
      assert a + b == a[..|a| - n] + (kept + b);
    }
  }

  class ActivityLog {
    const capacity: nat
    var events: seq<Event>
    ghost var history: seq<Event>

    ghost predicate Valid()
      reads this
    {
      capacity > 0 && events == LastOf(history, capacity)
    }

    constructor (capacity: int)
      ensures Valid() && history == [] && this.capacity == if capacity <= 0 then 1 else capacity
    {
      this.capacity := if capacity <= 0 then 1 else capacity;
      events, history := [], [];
    }

    method Append(e: Event)
      requires Valid()
      modifies this
      ensures Valid() && history == old(history) + [e]
      ensures events == if |history| <= capacity then history else history[|history| - capacity..]
      ensures events[|events| - 1] == e
    {
      LastOfAppend(history, [e], capacity);
      history := history + [e];
      events := events + [e];
      var over := |events| - capacity;
      if over > 0 {
        events := events[over..];
      }
    }

    method Events() returns (copy: seq<Event>)
      requires Valid()
      ensures copy == LastOf(history, capacity)
    {
      copy := events;
    }
  }

  class LogPanel {
    const render: Event -> string
    var logEvents: seq<Event>
    var logShown: seq<Event>
    var logLines: seq<string>
    var commandsOnly: bool
    ghost var history: seq<Event>

    /** The panel is what one would compute from the whole history and the filter. */
    ghost predicate Valid()
      reads this
    {
      && logEvents == LastOf(history, CAPACITY)
      && logShown == Shown(logEvents, commandsOnly)
      && logLines == Lines(logShown, render)
    }

    /** Opened on what the journal has kept so far, `past` being all it was ever told. */
    constructor (render: Event -> string, backlog: seq<Event>, ghost past: seq<Event>)
      requires backlog == LastOf(past, CAPACITY)
      ensures Valid() && history == past && this.render == render && !commandsOnly
    {
      this.render := render;
      logEvents, logShown, logLines, commandsOnly := backlog, [], [], false;
      history := past;
      new;
      RebuildLogLines();
    }

    /** A new event: appended to what is shown, unless an eviction calls for a rebuild. */
    method AppendLogEvent(e: Event)
      requires Valid()
      modifies this
      ensures Valid() && history == old(history) + [e] && commandsOnly == old(commandsOnly)
    {
      LastOfAppend(history, [e], CAPACITY);
      ShownSnoc(logEvents, e, commandsOnly);
      LinesSnoc(logShown, e, render);
      history := history + [e];
      logEvents := logEvents + [e];
      var over := |logEvents| - CAPACITY;
      if over > 0 {
        logEvents := logEvents[over..];
        RebuildLogLines();
        return;
      }
      if !ShowsEvent(e, commandsOnly) {
        return;
      }
      logShown := logShown + [e];
      logLines := logLines + [render(e)];
    }

    method RebuildLogLines()
      modifies this`logShown, this`logLines
      ensures logShown == Shown(logEvents, commandsOnly) && logLines == Lines(logShown, render)
    {
      logShown, logLines := [], [];
      for i := 0 to |logEvents|
        invariant logShown == Shown(logEvents[..i], commandsOnly) && logLines == Lines(logShown, render)
      {
        var e := logEvents[i];
        assert logEvents[..i + 1][..i] == logEvents[..i];
        if ShowsEvent(e, commandsOnly) {
          LinesSnoc(logShown, e, render);
          logShown := logShown + [e];
          logLines := logLines + [render(e)];
        }
      }
      assert logEvents[..|logEvents|] == logEvents;
    }

    /** What the panel shows: of the last 5000 events it was told of, all of them, or the commands
        alone, in order, each rendered. */
    lemma PanelShows()
      requires Valid()
      ensures var recent := if |history| <= 5000 then history else history[|history| - 5000..];
              && logShown == (if commandsOnly then Filter((e: Event) => e.kind == CommandReceived, recent) else recent)
              && |logLines| == |logShown| && forall i :: 0 <= i < |logLines| ==> logLines[i] == render(logShown[i])
    {
      ShownIsFilter(logEvents);
    }

    /** The "commands only" checkbox. */
    method SetCommandsOnly(checked: bool)
      requires Valid()
      modifies this
      ensures Valid() && history == old(history) && commandsOnly == checked
    {
      commandsOnly := checked;
      RebuildLogLines();
    }
  }

  /** A panel opened on the journal's backlog and told every event since shows what the journal
      itself holds. */
  lemma PanelMirrorsJournal(past: seq<Event>, since: seq<Event>)
    ensures LastOf(LastOf(past, CAPACITY) + since, CAPACITY) == LastOf(past + since, CAPACITY)
    ensures var all, kept := past + since, LastOf(past + since, CAPACITY);
            kept == if |all| <= 5000 then all else all[|all| - 5000..]
  {
    LastOfAppend(past, since, CAPACITY);
  }
}
