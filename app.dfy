/** The page's two objects: an Event per fetched record, with its lazily
    created map marker and info window, and the Grinder app that renders the
    events and keeps at most one info window open. Google Maps objects and
    the table's DOM rows are abstract state here. */
module App {
  import opened Wrappers
  import opened Calendar
  import opened Records

  /** The map a marker is placed on; `NoMap` is the `null` that hides it. */
  datatype MapRef = NoMap | OnMap(id: nat)

  datatype LatLng = LatLng(lat: real, lng: real)

  /** A `google.maps.Marker`: its position, its title and the map it is on. */
  datatype Marker = Marker(position: LatLng, title: Option<string>, shownOn: MapRef)

  /** A `google.maps.InfoWindow`, closed or open on a map; its HTML content is
      not modelled. */
  datatype InfoWindow = Closed | OpenOn(on: MapRef)

  /** One tournament event. What the constructor copies never changes
      afterwards; only the marker and the info window do. */
  class Event {
    const app: Grinder
    const startDate: JsDate
    const fields: map<string, string>
    const location: Option<Location>
    const index: int
    var marker: Option<Marker>
    var infoWindow: Option<InfoWindow>
    /** How many markers (each with its click listener) were ever created for this event. */
    ghost var markersCreated: nat

    /** The marker and its info window exist together, only for an event
        with a location, and at most one was ever created. */
    ghost predicate Valid()
      reads this
    {
      && (marker.Some? <==> infoWindow.Some?)
      && (marker.Some? ==> location.Some?)
      && markersCreated == (if marker.Some? then 1 else 0)
    }

    predicate IsOpen()
      reads this
    {
      infoWindow.Some? && infoWindow.value.OpenOn?
    }

    /** `hasLocation`: the record came with a `location`. */
    predicate HasLocation() {
      location.Some?
    }

    /** The marker that `setMarker(m)` creates for this event. */
    function NewMarker(m: MapRef): Marker
      requires HasLocation()
    {
      Marker(LatLng(location.value.lat, location.value.lng), Lookup(fields, "venueName"), m)
    }

    /** The marker and info window as renderEvents leaves a new event: made
        and placed on `m` when the event is shown and has a location,
        otherwise not made at all. */
    ghost predicate RenderedOn(shown: bool, m: MapRef)
      reads this
    {
      && marker == (if shown && HasLocation() then Some(NewMarker(m)) else None)
      && infoWindow == (if shown && HasLocation() then Some(Closed) else None)
    }

    /** What the constructor builds from record `pptq`, its owner and its
        position `i` among the fetched records. */
    ghost predicate BuiltFrom(pptq: Record, owner: Grinder, i: int, parses: map<string, Date>) {
      && app == owner
      && startDate == StartDateOf(pptq, parses)
      && fields == CopiedColumns(pptq.fields)
      && location == pptq.location
      && index == i
    }

    /** The state renderEvents leaves the event in that it built from record
        `pptq` at position `i`. */
    ghost predicate RenderedFrom(pptq: Record, owner: Grinder, i: int, parses: map<string, Date>,
                                 yesterday: Date, showPast: bool, m: MapRef)
      reads this
    {
      BuiltFrom(pptq, owner, i, parses) && RenderedOn(Visible(this, yesterday, showPast), m)
    }

    /** `new Event(pptq, app, i)`: walks the column keys, parsing the start
        date and copying every other column as it is. */
    constructor (pptq: Record, owner: Grinder, i: int, parses: map<string, Date>)
      ensures BuiltFrom(pptq, owner, i, parses)
      ensures marker == None && infoWindow == None && markersCreated == 0
      ensures Valid()
    {
      var parsed := InvalidDate;
      var copied: map<string, string> := map[];
      for k := 0 to |ColumnKeys|
        invariant k > 0 ==> parsed == StartDateOf(pptq, parses)
        invariant forall key :: key in copied <==> key in pptq.fields && key in ColumnKeys[..k] && key != "startDate"
        invariant forall key :: key in copied ==> copied[key] == pptq.fields[key]
      {
        var key := ColumnKeys[k];
        assert ColumnKeys[..k + 1] == ColumnKeys[..k] + [key];
        if key == "startDate" {
          parsed := StartDateOf(pptq, parses);
        } else if key in pptq.fields {
          copied := copied[key := pptq.fields[key]];
        }
      }
      assert ColumnKeys[..|ColumnKeys|] == ColumnKeys;
      assert copied == CopiedColumns(pptq.fields);
      app := owner;
      startDate := parsed;
      fields := copied;
      location := pptq.location;
      index := i;
      marker := None;
      infoWindow := None;
      markersCreated := 0;
    }

    /** `setMarker(map)`: nothing without a location; otherwise the first
        call creates the marker on `m` (titled with the venue name) and its
        closed info window, and later calls only move the existing marker to
        `m`, `NoMap` hiding it. */
    method SetMarker(m: MapRef)
      requires Valid()
      modifies this
      ensures Valid() && markersCreated <= 1
      ensures !HasLocation() ==> marker == old(marker) && infoWindow == old(infoWindow)
      ensures HasLocation() && old(marker).None? ==>
        marker == Some(NewMarker(m)) && infoWindow == Some(Closed)
      ensures old(marker).Some? ==>
        marker == Some(old(marker).value.(shownOn := m)) && infoWindow == old(infoWindow)
    {
      if !HasLocation() {
        return;
      }
      if marker.None? {
        marker := Some(NewMarker(m));
        infoWindow := Some(Closed);
        markersCreated := markersCreated + 1;
      } else {
        marker := Some(marker.value.(shownOn := m));
      }
    }

    /** `infoWindow.open(map, marker)`. */
    method OpenInfoWindow(m: MapRef)
      requires infoWindow.Some?
      modifies this`infoWindow
      ensures infoWindow == Some(OpenOn(m))
    {
      infoWindow := Some(OpenOn(m));
    }

    /** `infoWindow.close()`. */
    method CloseInfoWindow()
      requires infoWindow.Some?
      modifies this`infoWindow
      ensures infoWindow == Some(Closed)
    {
      infoWindow := Some(Closed);
    }
  }

  /** Whether renderEvents shows an event: always when past events are
      shown, otherwise only when it is not past. */
  predicate Visible(e: Event, yesterday: Date, showPast: bool) {
    showPast || !PastDate(e.startDate, yesterday)
  }

  /** The events renderEvents shows, in the order given. */
  function Shown(evs: seq<Event>, yesterday: Date, showPast: bool): seq<Event>
    decreases |evs|
  {
    if |evs| == 0 then []
    else (if Visible(evs[0], yesterday, showPast) then [evs[0]] else []) + Shown(evs[1..], yesterday, showPast)
  }

  /** Showing distributes over concatenation, so the order is kept. */
  lemma {:induction false} ShownAppend(a: seq<Event>, b: seq<Event>, yesterday: Date, showPast: bool)
    ensures Shown(a + b, yesterday, showPast) == Shown(a, yesterday, showPast) + Shown(b, yesterday, showPast)
    decreases |a|
  {
    if |a| > 0 {
      assert (a + b)[1..] == a[1..] + b;
      ShownAppend(a[1..], b, yesterday, showPast);
    } else {
      assert a + b == b;
    }
  }

  /** A single event is shown exactly when it is visible. */
  lemma ShownSingle(e: Event, yesterday: Date, showPast: bool)
    ensures Shown([e], yesterday, showPast) == if Visible(e, yesterday, showPast) then [e] else []
  {
    assert [e][1..] == [];
  }

  /** An event is shown exactly when it is among the events and visible. */
  lemma {:induction false} ShownMembers(evs: seq<Event>, yesterday: Date, showPast: bool)
    ensures forall e :: e in Shown(evs, yesterday, showPast) <==> e in evs && Visible(e, yesterday, showPast)
    decreases |evs|
  {
    if |evs| > 0 {
      ShownMembers(evs[1..], yesterday, showPast);
      assert forall e :: e in evs <==> e == evs[0] || e in evs[1..];
    }
  }

  /** With past events shown, every event is shown. */
  lemma {:induction false} ShownAll(evs: seq<Event>, yesterday: Date)
    ensures Shown(evs, yesterday, true) == evs
    decreases |evs|
  {
    if |evs| > 0 {
      ShownAll(evs[1..], yesterday);
      assert evs == [evs[0]] + evs[1..];
    }
  }

  /** The app: the map, the rendered events, the table rows appended so far
      and the event whose info window is open. */
  class Grinder {
    const mapRef: MapRef
    const jsonUrl: string
    /** Midnight of the day before the page loaded. */
    const yesterday: Date
    var showPastEvents: bool
    var events: seq<Event>
    var activeEvent: Event?
    /** The table's rows, each named by the event it was built for. */
    ghost var rows: seq<Event>

    /** Every open info window is the active event's, and the active event's
        window is open; every event keeps its own invariant; every row
        belongs to a rendered event. */
    ghost predicate Valid()
      reads this, events
    {
      && (forall i :: 0 <= i < |events| ==> events[i].app == this && events[i].Valid())
      && (forall i :: 0 <= i < |events| && events[i].IsOpen() ==> events[i] == activeEvent)
      && (activeEvent != null ==> activeEvent in events && activeEvent.IsOpen())
      && (forall e :: e in rows ==> e in events)
    }

    /** The events whose info window is open. */
    ghost function OpenWindows(): set<Event>
      reads this, events
    {
      set e | e in events && e.IsOpen()
    }

    /** At most one info window is open: the active event's. */
    lemma OpenWindowsAreActive()
      requires Valid()
      ensures OpenWindows() == if activeEvent == null then {} else {activeEvent}
      ensures |OpenWindows()| <= 1
    {
      forall e | e in OpenWindows() ensures e == activeEvent {
        var i :| 0 <= i < |events| && events[i] == e;
      }
    }

    /** `new Grinder(mapElement, tableElement, currentLocation)`: the map
        (named by `mapId`) and `yesterday`, computed from the load time
        `now`, stand for what the browser provides. */
    constructor (mapId: nat, now: Date)
      requires ValidDate(now)
      ensures mapRef == OnMap(mapId) && yesterday == Yesterday(now)
      ensures jsonUrl == "pptqmil15locations.json"
      ensures !showPastEvents && events == [] && activeEvent == null && rows == []
      ensures Valid()
    {
      mapRef := OnMap(mapId);
      yesterday := Yesterday(now);
      jsonUrl := "pptqmil15locations.json";
      showPastEvents := false;
      events := [];
      activeEvent := null;
      rows := [];
    }

    /** `added` are the events renderEvents built, in order, from `recs`
        while past events were shown or not as `showPast` says. */
    ghost predicate RenderedAll(added: seq<Event>, recs: seq<Record>, parses: map<string, Date>, showPast: bool)
      reads added
    {
      && |added| == |recs|
      && forall j :: 0 <= j < |added| ==>
        added[j].RenderedFrom(recs[j], this, j, parses, yesterday, showPast, mapRef)
    }

    /** The first half of the callback renderEvents runs for record `pptq`
        at position `i`: the new Event, with no marker yet, is always kept. */
    method AddEvent(pptq: Record, i: int, parses: map<string, Date>) returns (e: Event)
      requires Valid()
      modifies this
      ensures Valid() && fresh(e)
      ensures e.BuiltFrom(pptq, this, i, parses) && e.RenderedOn(false, mapRef) && e.Valid()
      ensures events == old(events) + [e] && rows == old(rows)
      ensures activeEvent == old(activeEvent) && showPastEvents == old(showPastEvents)
    {
      e := new Event(pptq, this, i, parses);
      events := events + [e];
    }

    /** The second half: unless past events are hidden and the event is
        past, its row is appended and its marker set on the map. */
    method ShowUnlessPast(e: Event)
      requires Valid() && e in events && e.RenderedOn(false, mapRef) && e.Valid()
      modifies this, e
      ensures Valid() && e.Valid() && e.RenderedOn(Visible(e, yesterday, showPastEvents), mapRef)
      ensures rows == old(rows) + Shown([e], yesterday, showPastEvents) && events == old(events)
      ensures activeEvent == old(activeEvent) && showPastEvents == old(showPastEvents)
    {
      ShownSingle(e, yesterday, showPastEvents);
      if showPastEvents == false && PastDate(e.startDate, yesterday) {
        return;
      }
      rows := rows + [e];
      e.SetMarker(mapRef);
    }

    /** The callback renderEvents runs for the record `pptq` at position `i`:
        the new Event is always kept; its row is appended and its marker set
        only when it is shown. The ghost parameters are the events, rows and
        records of the calls before this one. */
    method RenderRecord(pptq: Record, i: int, parses: map<string, Date>,
                        ghost events0: seq<Event>, ghost rows0: seq<Event>,
                        ghost added: seq<Event>, ghost recs: seq<Record>) returns (e: Event)
      requires Valid()
      requires events == events0 + added && rows == rows0 + Shown(added, yesterday, showPastEvents)
      requires RenderedAll(added, recs, parses, showPastEvents) && i == |recs|
      modifies this
      ensures Valid()
      ensures fresh(e)
      ensures events == events0 + (added + [e]) && rows == rows0 + Shown(added + [e], yesterday, showPastEvents)
      ensures RenderedAll(added + [e], recs + [pptq], parses, showPastEvents)
      ensures activeEvent == old(activeEvent) && showPastEvents == old(showPastEvents)
    {
      e := AddEvent(pptq, i, parses);
      ShowUnlessPast(e);
      RenderedAllSnoc(added, recs, parses, showPastEvents, e, pptq);
      ShownAppend(added, [e], yesterday, showPastEvents);
    }

    /** Extending the rendered events by one keeps them rendered. */
    lemma RenderedAllSnoc(added: seq<Event>, recs: seq<Record>, parses: map<string, Date>, showPast: bool,
                          e: Event, pptq: Record)
      requires RenderedAll(added, recs, parses, showPast)
      requires e.RenderedFrom(pptq, this, |recs|, parses, yesterday, showPast, mapRef)
      ensures RenderedAll(added + [e], recs + [pptq], parses, showPast)
    {
    }

    /** `renderEvents(data)`: one new Event per record, in order and
        whatever its date, with the record's position as its index; a row is
        appended and the marker set only for the events that are shown. */
    method RenderEvents(data: Payload, parses: map<string, Date>)
      requires Valid()
      modifies this
      ensures Valid()
      ensures |events| == |old(events)| + |PptqsOf(data)|
      ensures events[..|old(events)|] == old(events)
      ensures forall i :: |old(events)| <= i < |events| ==> fresh(events[i])
      ensures RenderedAll(events[|old(events)|..], PptqsOf(data), parses, showPastEvents)
      ensures rows == old(rows) + Shown(events[|old(events)|..], yesterday, showPastEvents)
      ensures activeEvent == old(activeEvent) && showPastEvents == old(showPastEvents)
    {
      var pptqs := PptqsOf(data);
      ghost var added: seq<Event> := [];
      for i := 0 to |pptqs|
        invariant events == old(events) + added && rows == old(rows) + Shown(added, yesterday, showPastEvents)
        invariant RenderedAll(added, pptqs[..i], parses, showPastEvents)
        invariant forall j :: 0 <= j < |added| ==> fresh(added[j])
        invariant activeEvent == old(activeEvent) && showPastEvents == old(showPastEvents)
        invariant Valid()
      {
        var e := RenderRecord(pptqs[i], i, parses, old(events), old(rows), added, pptqs[..i]);
        assert pptqs[..i + 1] == pptqs[..i] + [pptqs[i]];
        added := added + [e];
      }
      assert pptqs[..|pptqs|] == pptqs;
      assert events[|old(events)|..] == added;
    }

    /** `clickEvent(clickedEvent)`: with no active event, the clicked one
        becomes active and opens; clicking another event closes the active
        one and opens and activates the clicked one; clicking the active
        event closes it and leaves none active. */
    method ClickEvent(clicked: Event)
      requires Valid()
      requires clicked in events && clicked.infoWindow.Some?
      modifies this, clicked, activeEvent
      ensures Valid()
      ensures old(activeEvent) == null ==>
        activeEvent == clicked && clicked.infoWindow == Some(OpenOn(mapRef))
      ensures old(activeEvent) != null && old(activeEvent) != clicked ==>
        && old(activeEvent).infoWindow == Some(Closed)
        && activeEvent == clicked && clicked.infoWindow == Some(OpenOn(mapRef))
      ensures old(activeEvent) == clicked ==>
        activeEvent == null && clicked.infoWindow == Some(Closed)
      ensures OpenWindows() == if activeEvent == null then {} else {activeEvent}
      ensures events == old(events) && rows == old(rows) && showPastEvents == old(showPastEvents)
      ensures forall e :: e in events ==> e.marker == old(e.marker) && e.markersCreated == old(e.markersCreated)
      ensures forall e :: e in events && e != clicked && e != old(activeEvent) ==> e.infoWindow == old(e.infoWindow)
    {
      var previousEvent := activeEvent;
      var eventActivated := false;
      if activeEvent == null {
        activeEvent := clicked;
        eventActivated := true;
      } else {
        if previousEvent != clicked {
          activeEvent := clicked;
          eventActivated := true;
        } else {
          activeEvent := null;
        }
        previousEvent.CloseInfoWindow();
      }
      if eventActivated {
        clicked.OpenInfoWindow(mapRef);
      }
      OpenWindowsAreActive();
    }
  }
}
