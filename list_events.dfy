/** `main`: for each UID the AppleScript helper prints, find the event's file,
    read the event, keep it when it has a conference URL and starts within the
    time window around now, and turn each kept event into one launcher result
    item; when nothing is kept, the one item is a "No Results" placeholder.

    What the model takes as parameters instead of doing itself:
    - `output`: the helper's printed text;
    - `glob`: the filesystem search, from an event file name to the matching paths;
    - `load`: reading the file at a path and parsing it into an `Event`;
    - `now`: the current time;
    - `subtitleOf`: the `strftime('%-I:%M%p').lower()` rendering of a start time. */
module ListEvents {
  import opened Wrappers
  import opened PythonStrings
  import opened EventUids
  import opened EventPaths
  import opened TimeWindow

  /** The parts of a parsed event that the lister uses. The conference URL is
      None or empty when the event has none. */
  datatype Event = Event(summary: string, conferenceUrl: Option<string>, startDatetimeLocal: Instant)

  /** Python's truth value of `event.conference_url`: present and not empty. */
  predicate HasConferenceUrl(e: Event) {
    e.conferenceUrl.Some? && e.conferenceUrl.value != ""
  }

  /** The conference URL as text, empty when there is none. */
  function ConferenceUrl(e: Event): string {
    if e.conferenceUrl.Some? then e.conferenceUrl.value else ""
  }

  /** An event gets a result item when it has a conference URL and `now` is
      within the window around its start. */
  predicate Qualifies(e: Event, now: Instant) {
    HasConferenceUrl(e) && IsTimeWithinRange(e.startDatetimeLocal, now)
  }

  /** The `text` object of a result item. */
  datatype ItemText = ItemText(copy: string, largetype: string)

  /** The `variables` object of a result item. */
  datatype ItemVariables = ItemVariables(eventSummary: string, eventConferenceUrl: string)

  /** One entry of the feedback's `items` list: a result for an event, or the
      placeholder that says nothing was found. */
  datatype Item =
    | EventItem(title: string, subtitle: string, text: ItemText, variables: ItemVariables)
    | NoResultsItem(title: string, subtitle: string, valid: string)

  const NoResults: Item := NoResultsItem("No Results", "No calendar events could be found", "no")

  /** The object printed as JSON: `{'items': [...]}`. */
  datatype Feedback = Feedback(items: seq<Item>)

  /** Why a run ends without output: `get_event_path` found no file for this UID,
      and opening the path `None` raises. */
  datatype RunError = MissingEventFile(uid: string)

  // ---------------------------------------------------------------------------
  // Specification
  // ---------------------------------------------------------------------------

  /** The result item built for an event. */
  function ItemFor(e: Event, subtitleOf: Instant -> string): Item {
    var url := ConferenceUrl(e);
    EventItem(e.summary, subtitleOf(e.startDatetimeLocal), ItemText(url, url), ItemVariables(e.summary, url))
  }

  /** The events that qualify, in their original order. */
  function Qualifying(events: seq<Event>, now: Instant): (kept: seq<Event>)
    ensures |kept| <= |events|
  {
    if events == [] then []
    else
      var last := events[|events| - 1];
      Qualifying(events[..|events| - 1], now) + (if Qualifies(last, now) then [last] else [])
  }

  /** Filtering keeps the order: the events kept from a concatenation are those
      kept from the first part followed by those kept from the second. */
  lemma {:induction false} QualifyingAppend(a: seq<Event>, b: seq<Event>, now: Instant)
    ensures Qualifying(a + b, now) == Qualifying(a, now) + Qualifying(b, now)
  {
    if b == [] {
      assert a + b == a;
    } else {
      var last := b[|b| - 1];
      assert (a + b)[..|a + b| - 1] == a + b[..|b| - 1];
      assert (a + b)[|a + b| - 1] == last;
      QualifyingAppend(a, b[..|b| - 1], now);
    }
  }

  /** The events kept are exactly the qualifying ones: each kept event is one
      of the events and qualifies, and every qualifying event is kept. */
  lemma {:induction false} QualifyingMembers(events: seq<Event>, now: Instant, e: Event)
    ensures e in Qualifying(events, now) <==> e in events && Qualifies(e, now)
  {
    if events != [] {
      var init := events[..|events| - 1];
      QualifyingMembers(init, now, e);
      assert events == init + [events[|events| - 1]];
    }
  }

  /** Each qualifying event is kept exactly as often as it occurs; nothing else is kept. */
  lemma {:induction false} QualifyingCount(events: seq<Event>, now: Instant, e: Event)
    ensures multiset(Qualifying(events, now))[e] == if Qualifies(e, now) then multiset(events)[e] else 0
  {
    if events != [] {
      var init := events[..|events| - 1];
      QualifyingCount(init, now, e);
      assert events == init + [events[|events| - 1]];
    }
  }

  /** The result item of each event, in the same order. */
  function ItemsFor(kept: seq<Event>, subtitleOf: Instant -> string): (items: seq<Item>)
    ensures |items| == |kept|
  {
    if kept == [] then []
    else ItemsFor(kept[..|kept| - 1], subtitleOf) + [ItemFor(kept[|kept| - 1], subtitleOf)]
  }

  /** Item i is the item of the i-th event. */
  lemma {:induction false} ItemsForAt(kept: seq<Event>, subtitleOf: Instant -> string, i: nat)
    requires i < |kept|
    ensures ItemsFor(kept, subtitleOf)[i] == ItemFor(kept[i], subtitleOf)
  {
    if i < |kept| - 1 {
      ItemsForAt(kept[..|kept| - 1], subtitleOf, i);
    }
  }

  /** The items of a concatenation are the items of its parts, in order. */
  lemma {:induction false} ItemsForConcat(a: seq<Event>, b: seq<Event>, subtitleOf: Instant -> string)
    ensures ItemsFor(a + b, subtitleOf) == ItemsFor(a, subtitleOf) + ItemsFor(b, subtitleOf)
  {
    if b == [] {
      assert a + b == a;
    } else {
      assert (a + b)[..|a + b| - 1] == a + b[..|b| - 1];
      assert (a + b)[|a + b| - 1] == b[|b| - 1];
      ItemsForConcat(a, b[..|b| - 1], subtitleOf);
    }
  }

  /** One result item per qualifying event, in the same order. */
  function ResultItems(events: seq<Event>, now: Instant, subtitleOf: Instant -> string): seq<Item> {
    ItemsFor(Qualifying(events, now), subtitleOf)
  }

  /** The feedback items: the result items, or the placeholder alone when there
      are none. Never empty; the placeholder is the whole list exactly when no
      event qualifies, and otherwise every item is an event result. */
  function Items(events: seq<Event>, now: Instant, subtitleOf: Instant -> string): (items: seq<Item>)
    ensures |items| >= 1
    ensures items == [NoResults] <==> Qualifying(events, now) == []
    ensures Qualifying(events, now) != [] ==> forall it :: it in items ==> it.EventItem?
  {
    var results := ResultItems(events, now, subtitleOf);
    assert forall it :: it in results ==> it.EventItem? by {
      forall it | it in results ensures it.EventItem? {
        var i :| 0 <= i < |results| && results[i] == it;
        ItemsForAt(Qualifying(events, now), subtitleOf, i);
      }
    }
    if results == [] then [NoResults] else assert results[0] in results; results
  }

  /** The items for events appended one at a time: an event adds its item when
      it qualifies and nothing otherwise. */
  lemma ResultItemsStep(events: seq<Event>, e: Event, now: Instant, subtitleOf: Instant -> string)
    ensures ResultItems(events + [e], now, subtitleOf)
         == ResultItems(events, now, subtitleOf) + (if Qualifies(e, now) then [ItemFor(e, subtitleOf)] else [])
  {
    var kept := Qualifying(events, now);
    assert (events + [e])[..|events|] == events;
    if Qualifies(e, now) {
      assert (kept + [e])[..|kept|] == kept;
    } else {
      assert kept + [] == kept;
    }
  }

  /** Item i is the result for the i-th qualifying event: its title and
      `event_summary` are the summary; `copy`, `largetype` and
      `event_conference_url` are all the (non-empty) conference URL; and the
      event starts within the window around now. */
  lemma ResultItemFields(events: seq<Event>, now: Instant, subtitleOf: Instant -> string, i: nat)
    requires i < |Qualifying(events, now)|
    ensures var e := Qualifying(events, now)[i];
            var it := ResultItems(events, now, subtitleOf)[i];
            && e in events
            && it.EventItem?
            && it.title == e.summary && it.variables.eventSummary == e.summary
            && e.conferenceUrl == Some(it.text.copy) && it.text.copy != ""
            && it.text.largetype == it.text.copy && it.variables.eventConferenceUrl == it.text.copy
            && it.subtitle == subtitleOf(e.startDatetimeLocal)
            && IsTimeWithinRange(e.startDatetimeLocal, now)
  {
    var kept := Qualifying(events, now);
    assert kept[i] in kept;
    QualifyingMembers(events, now, kept[i]);
    ItemsForAt(kept, subtitleOf, i);
  }

  /** Reading the events of the UIDs in order. The run stops at the first UID
      for which no file is found. */
  function ResolveEvents(uids: seq<string>, glob: string -> seq<string>, load: string -> Event): Result<seq<Event>, RunError> {
    if uids == [] then Success([])
    else
      var last := uids[|uids| - 1];
      match ResolveEvents(uids[..|uids| - 1], glob, load)
      case Failure(err) => Failure(err)
      case Success(events) =>
        match GetEventPath(last, glob)
        case None => Failure(MissingEventFile(last))
        case Some(path) => Success(events + [load(path)])
  }

  /** Reading one more UID after the first i were read. */
  lemma ResolveStep(uids: seq<string>, i: nat, events: seq<Event>, glob: string -> seq<string>, load: string -> Event)
    requires i < |uids| && ResolveEvents(uids[..i], glob, load) == Success(events)
    ensures ResolveEvents(uids[..i + 1], glob, load)
         == match GetEventPath(uids[i], glob)
            case None => Failure(MissingEventFile(uids[i]))
            case Some(path) => Success(events + [load(path)])
  {
    assert uids[..i + 1][..i] == uids[..i];
  }

  /** When every UID has a file, reading succeeds with one event per UID, the
      i-th read from the file found for the i-th UID. */
  lemma {:induction false} ResolveAllFound(uids: seq<string>, glob: string -> seq<string>, load: string -> Event)
    requires forall i :: 0 <= i < |uids| ==> GetEventPath(uids[i], glob).Some?
    ensures ResolveEvents(uids, glob, load).Success?
    ensures var events := ResolveEvents(uids, glob, load).value;
            |events| == |uids|
            && forall i :: 0 <= i < |uids| ==> events[i] == load(GetEventPath(uids[i], glob).value)
  {
    if uids != [] {
      var init := uids[..|uids| - 1];
      assert forall i :: 0 <= i < |init| ==> init[i] == uids[i];
      ResolveAllFound(init, glob, load);
      var last := uids[|uids| - 1];
      assert GetEventPath(last, glob).Some?;
      var before := ResolveEvents(init, glob, load).value;
      var events := before + [load(GetEventPath(last, glob).value)];
      assert ResolveEvents(uids, glob, load) == Success(events);
      forall i | 0 <= i < |uids| ensures events[i] == load(GetEventPath(uids[i], glob).value) {
        if i < |init| {
          assert events[i] == before[i];
        }
      }
    }
  }

  /** When the k-th UID is the first without a file, the run fails naming that UID. */
  lemma {:induction false} ResolveFirstMissing(uids: seq<string>, glob: string -> seq<string>, load: string -> Event, k: nat)
    requires k < |uids| && GetEventPath(uids[k], glob).None?
    requires forall j :: 0 <= j < k ==> GetEventPath(uids[j], glob).Some?
    ensures ResolveEvents(uids, glob, load) == Failure(MissingEventFile(uids[k]))
  {
    var init := uids[..|uids| - 1];
    assert forall j :: 0 <= j < |init| ==> init[j] == uids[j];
    if k == |uids| - 1 {
      ResolveAllFound(init, glob, load);
    } else {
      ResolveFirstMissing(init, glob, load, k);
    }
  }

  /** When some UID has no file, reading fails. */
  lemma {:induction false} ResolveSomeMissing(uids: seq<string>, glob: string -> seq<string>, load: string -> Event)
    requires exists i :: 0 <= i < |uids| && GetEventPath(uids[i], glob).None?
    ensures ResolveEvents(uids, glob, load).Failure?
  {
    var init := uids[..|uids| - 1];
    if GetEventPath(uids[|uids| - 1], glob).Some? {
      var i :| 0 <= i < |uids| && GetEventPath(uids[i], glob).None?;
      assert init[i] == uids[i];
      ResolveSomeMissing(init, glob, load);
    }
  }

  /** Once reading has failed, later UIDs change nothing. */
  lemma {:induction false} ResolveStops(uids: seq<string>, n: nat, glob: string -> seq<string>, load: string -> Event)
    requires n <= |uids| && ResolveEvents(uids[..n], glob, load).Failure?
    ensures ResolveEvents(uids, glob, load) == ResolveEvents(uids[..n], glob, load)
    decreases |uids| - n
  {
    if n == |uids| {
      assert uids[..n] == uids;
    } else {
      var init := uids[..|uids| - 1];
      assert init[..n] == uids[..n];
      ResolveStops(init, n, glob, load);
    }
  }

  /** What a run over the given UIDs produces: the feedback for the events
      read, or the error that stopped it. */
  function RunOn(uids: seq<string>, glob: string -> seq<string>, load: string -> Event,
                 now: Instant, subtitleOf: Instant -> string): Result<Feedback, RunError> {
    match ResolveEvents(uids, glob, load)
    case Failure(err) => Failure(err)
    case Success(events) => Success(Feedback(Items(events, now, subtitleOf)))
  }

  /** What a run produces, for the UIDs the helper printed. */
  function Run(output: string, glob: string -> seq<string>, load: string -> Event,
               now: Instant, subtitleOf: Instant -> string): Result<Feedback, RunError> {
    RunOn(GetEventUids(output), glob, load, now, subtitleOf)
  }

  /** Reading succeeds exactly when every UID has a file. */
  lemma ResolveSucceedsIffAllFound(uids: seq<string>, glob: string -> seq<string>, load: string -> Event)
    ensures ResolveEvents(uids, glob, load).Success?
        <==> forall uid :: uid in uids ==> GetEventPath(uid, glob).Some?
  {
    if forall i :: 0 <= i < |uids| ==> GetEventPath(uids[i], glob).Some? {
      ResolveAllFound(uids, glob, load);
    } else {
      ResolveSomeMissing(uids, glob, load);
    }
  }

  /** A run produces feedback exactly when every UID has a file. */
  lemma RunSucceedsIffAllFound(output: string, glob: string -> seq<string>, load: string -> Event,
                               now: Instant, subtitleOf: Instant -> string)
    ensures Run(output, glob, load, now, subtitleOf).Success?
        <==> forall uid :: uid in GetEventUids(output) ==> GetEventPath(uid, glob).Some?
  {
    ResolveSucceedsIffAllFound(GetEventUids(output), glob, load);
  }

  // ---------------------------------------------------------------------------
  // Skipping UIDs without a file
  // ---------------------------------------------------------------------------

  /** The UIDs that have an event file, in their original order. */
  function FoundUids(uids: seq<string>, glob: string -> seq<string>): (found: seq<string>)
    ensures |found| <= |uids|
  {
    if uids == [] then []
    else
      var last := uids[|uids| - 1];
      FoundUids(uids[..|uids| - 1], glob) + (if GetEventPath(last, glob).Some? then [last] else [])
  }

  /** The UIDs kept are exactly those with a file. */
  lemma {:induction false} FoundUidsMembers(uids: seq<string>, glob: string -> seq<string>, uid: string)
    ensures uid in FoundUids(uids, glob) <==> uid in uids && GetEventPath(uid, glob).Some?
  {
    if uids != [] {
      var init := uids[..|uids| - 1];
      FoundUidsMembers(init, glob, uid);
      assert uids == init + [uids[|uids| - 1]];
    }
  }

  /** When every UID has a file, none is dropped. */
  lemma {:induction false} FoundUidsAll(uids: seq<string>, glob: string -> seq<string>)
    requires forall uid :: uid in uids ==> GetEventPath(uid, glob).Some?
    ensures FoundUids(uids, glob) == uids
  {
    if uids != [] {
      var init := uids[..|uids| - 1];
      assert uids[|uids| - 1] in uids;
      forall uid | uid in init ensures GetEventPath(uid, glob).Some? {
        assert uid in uids;
      }
      FoundUidsAll(init, glob);
      assert uids == init + [uids[|uids| - 1]];
    }
  }

  /** The run that skips a UID with no file instead of opening `None`. */
  function RunSkippingMissing(output: string, glob: string -> seq<string>, load: string -> Event,
                              now: Instant, subtitleOf: Instant -> string): Result<Feedback, RunError> {
    RunOn(FoundUids(GetEventUids(output), glob), glob, load, now, subtitleOf)
  }

  /** The run that skips missing files always produces feedback. */
  lemma RunSkippingMissingSucceeds(output: string, glob: string -> seq<string>, load: string -> Event,
                                   now: Instant, subtitleOf: Instant -> string)
    ensures RunSkippingMissing(output, glob, load, now, subtitleOf).Success?
  {
    var found := FoundUids(GetEventUids(output), glob);
    forall uid | uid in found ensures GetEventPath(uid, glob).Some? {
      FoundUidsMembers(GetEventUids(output), glob, uid);
    }
    ResolveSucceedsIffAllFound(found, glob, load);
  }

  /** Wherever the run as written produces feedback, skipping missing files
      produces the same feedback. */
  lemma RunSkippingMissingAgrees(output: string, glob: string -> seq<string>, load: string -> Event,
                                 now: Instant, subtitleOf: Instant -> string)
    requires Run(output, glob, load, now, subtitleOf).Success?
    ensures RunSkippingMissing(output, glob, load, now, subtitleOf) == Run(output, glob, load, now, subtitleOf)
  {
    var uids := GetEventUids(output);
    ResolveSucceedsIffAllFound(uids, glob, load);
    FoundUidsAll(uids, glob);
  }

  /** As written, one UID without a file makes the whole run fail, so the
      results of the other events are lost, although skipping that UID would
      have produced feedback. */
  lemma MissingFileFailsRun(output: string, glob: string -> seq<string>, load: string -> Event,
                            now: Instant, subtitleOf: Instant -> string, uid: string)
    requires uid in GetEventUids(output) && GetEventPath(uid, glob).None?
    ensures Run(output, glob, load, now, subtitleOf).Failure?
    ensures RunSkippingMissing(output, glob, load, now, subtitleOf).Success?
  {
    ResolveSucceedsIffAllFound(GetEventUids(output), glob, load);
    RunSkippingMissingSucceeds(output, glob, load, now, subtitleOf);
  }

  // ---------------------------------------------------------------------------
  // The loop of `main`
  // ---------------------------------------------------------------------------

  /** `main` without the JSON printing: decodes the UIDs and builds the feedback for them. */
  method BuildFeedback(output: string, glob: string -> seq<string>, load: string -> Event,
                       now: Instant, subtitleOf: Instant -> string)
    returns (result: Result<Feedback, RunError>)
    ensures result == Run(output, glob, load, now, subtitleOf)
  {
    var uids := GetEventUids(output);
    result := FeedbackFor(uids, glob, load, now, subtitleOf);
  }

  /** The loop of `main`: walks the UIDs, appending one item per qualifying
      event, and appends the placeholder when none qualified. */
  method FeedbackFor(uids: seq<string>, glob: string -> seq<string>, load: string -> Event,
                     now: Instant, subtitleOf: Instant -> string)
    returns (result: Result<Feedback, RunError>)
    ensures result == RunOn(uids, glob, load, now, subtitleOf)
  {
    var items: seq<Item> := [];
    ghost var events: seq<Event> := [];
    for i := 0 to |uids|
      invariant ResolveEvents(uids[..i], glob, load) == Success(events)
      invariant items == ResultItems(events, now, subtitleOf)
    {
      var uid := uids[i];
      var path := GetEventPath(uid, glob);
      ResolveStep(uids, i, events, glob, load);
      if path.None? {
        // `open(None)` raises: the run ends here, with nothing printed.
        ResolveStops(uids, i + 1, glob, load);
        return Failure(MissingEventFile(uid));
      }
      var event := load(path.value);
      ResultItemsStep(events, event, now, subtitleOf);
      events := events + [event];
      if !HasConferenceUrl(event) {
        continue;
      }
      if !IsTimeWithinRange(event.startDatetimeLocal, now) {
        continue;
      }
      var url := event.conferenceUrl.value;
      items := items + [EventItem(event.summary, subtitleOf(event.startDatetimeLocal),
                                  ItemText(url, url), ItemVariables(event.summary, url))];
    }
    assert uids[..|uids|] == uids;
    if items == [] {
      items := items + [NoResults];
    }
    assert items == Items(events, now, subtitleOf);
    return Success(Feedback(items));
  }
}
