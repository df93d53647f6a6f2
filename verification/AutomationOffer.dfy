/**
 * `automation-offer.ts`: whether a device is offered for WebDriver, settled from two reporters that
 * change independently, with the agent told only when the answer changes.
 */
module AutomationOffer {
  import opened Wrappers

  type Id = string
  type Url = string

  /** The two reports, as they arrive. None stands for `undefined`. */
  datatype Event = ServerIs(id: Id, url: Option<Url>) | BlockedBy(id: Id, reason: Option<string>)

  datatype Applied = Applied(id: Id, url: Option<Url>)

  // ------------------------------------------- the answer, told by the reports

  /** The last thing reported about one device's server. */
  function LastServer(events: seq<Event>, id: Id): Option<Url> {
    if events == [] then None
    else
      var e := events[|events| - 1];
      if e.ServerIs? && e.id == id then e.url else LastServer(events[..|events| - 1], id)
  }

  /** The last thing the device reported about itself. */
  function LastReason(events: seq<Event>, id: Id): Option<string> {
    if events == [] then None
    else
      var e := events[|events| - 1];
      if e.BlockedBy? && e.id == id then e.reason else LastReason(events[..|events| - 1], id)
  }

  function Answer(events: seq<Event>, id: Id): Option<Url> {
    if LastReason(events, id).Some? then None else LastServer(events, id)
  }

  /** The answers a device's agent should be told: each one that differs from the one before it. */
  function Changes(events: seq<Event>, id: Id): seq<Option<Url>> {
    if events == [] then []
    else
      var init := events[..|events| - 1];
      Changes(init, id) + (if Answer(events, id) != Answer(init, id) then [Answer(events, id)] else [])
  }

  /** What was applied for one device, in order. */
  function For(log: seq<Applied>, id: Id): seq<Option<Url>> {
    if log == [] then []
    else For(log[..|log| - 1], id) + (if log[|log| - 1].id == id then [log[|log| - 1].url] else [])
  }

  lemma ForAppend(log: seq<Applied>, a: Applied, id: Id)
    ensures For(log + [a], id) == For(log, id) + (if a.id == id then [a.url] else [])
  {
    assert (log + [a])[..|log|] == log;
  }

  /** Reports about one device decide nothing for another. */
  lemma OthersUntouched(events: seq<Event>, e: Event, id: Id)
    requires e.id != id
    ensures Answer(events + [e], id) == Answer(events, id) && Changes(events + [e], id) == Changes(events, id)
  {
    assert (events + [e])[..|events|] == events;
  }

  /**
   * A device's agent is never told the same answer twice in a row, is told a URL first, and whatever it
   * was told last is the answer now; a device it was told nothing about is not offered.
   */
  lemma {:induction false} ChangesEndInAnswer(events: seq<Event>, id: Id)
    ensures
      var c := Changes(events, id);
      && Answer(events, id) == (if c == [] then None else c[|c| - 1])
      && (c != [] ==> c[0].Some?)
      && (forall i :: 0 < i < |c| ==> c[i] != c[i - 1])
    decreases |events|
  {
    if events != [] {
      ChangesEndInAnswer(events[..|events| - 1], id);
    }
  }

  /** The order in which the two reporters speak about a device does not matter for the answer. */
  lemma ReportersCommute(events: seq<Event>, id: Id, url: Option<Url>, reason: Option<string>)
    ensures Answer(events + [ServerIs(id, url), BlockedBy(id, reason)], id)
            == Answer(events + [BlockedBy(id, reason), ServerIs(id, url)], id)
  {
    forall a: Event, b: Event
      ensures (events + [a, b])[..|events| + 1] == events + [a] && (events + [a])[..|events|] == events
    {
    }
    var s, b := ServerIs(id, url), BlockedBy(id, reason);
    assert LastServer(events + [s, b], id) == LastServer(events + [s], id) == url;
    assert LastReason(events + [b, s], id) == LastReason(events + [b], id) == reason;
  }

  // -------------------------------------------------------------- the class

  class Offer {
    var server: map<Id, Url>
    var blocked: map<Id, string>
    /** Every call of the `apply` callback so far. */
    var applied: seq<Applied>
    /** Every report so far. */
    ghost var events: seq<Event>

    /** Between two calls: the maps hold the last reports, and each agent was told every change. */
    ghost predicate Valid()
      reads this
    {
      && Reported()
      && forall id: Id :: For(applied, id) == Changes(events, id)
    }

    ghost predicate Reported()
      reads this
    {
      && (forall id: Id :: LastServer(events, id) == if id in server then Some(server[id]) else None)
      && (forall id: Id :: LastReason(events, id) == if id in blocked then Some(blocked[id]) else None)
    }

    constructor ()
      ensures Valid() && events == [] && applied == []
    {
      server, blocked, applied, events := map[], map[], [], [];
    }

    function Offered(id: Id): (r: Option<Url>)
      reads this
      ensures Reported() ==> r == Answer(events, id)
    {
      if id in blocked then None else if id in server then Some(server[id]) else None
    }

    method ServerReports(id: Id, url: Option<Url>)
      requires Valid()
      modifies this
      ensures Valid() && events == old(events) + [ServerIs(id, url)]
      ensures blocked == old(blocked)
    {
      var before := Offered(id);
      server := match url case None => server - {id} case Some(u) => server[id := u];
      ghost var e := ServerIs(id, url);
      events := events + [e];
      assert events[..|events| - 1] == old(events);
      assert Reported();
      Settle(id, before, e, old(events));
    }

    method DeviceReports(id: Id, reason: Option<string>)
      requires Valid()
      modifies this
      ensures Valid() && events == old(events) + [BlockedBy(id, reason)]
      ensures server == old(server)
    {
      var before := Offered(id);
      blocked := match reason case None => blocked - {id} case Some(r) => blocked[id := r];
      ghost var e := BlockedBy(id, reason);
      events := events + [e];
      assert events[..|events| - 1] == old(events);
      assert Reported();
      Settle(id, before, e, old(events));
    }

    method Settle(id: Id, before: Option<Url>, ghost e: Event, ghost earlier: seq<Event>)
      requires Reported() && e.id == id && events == earlier + [e] && before == Answer(earlier, id)
      requires forall other: Id :: For(applied, other) == Changes(earlier, other)
      modifies this`applied
      ensures Valid()
      ensures applied == old(applied) + if Offered(id) != before then [Applied(id, Offered(id))] else []
    {
      var now := Offered(id);
      assert events[..|events| - 1] == earlier;
      forall other: Id
        ensures other != id ==> Changes(events, other) == Changes(earlier, other)
        ensures For(applied + [Applied(id, now)], other) == For(applied, other) + (if other == id then [now] else [])
      {
        if other != id {
          OthersUntouched(earlier, e, other);
        }
        ForAppend(applied, Applied(id, now), other);
      }
      if now != before {
        applied := applied + [Applied(id, now)];
      }
    }
  }

  /** In every reachable state: what each agent was told last is what is offered, with no repetition. */
  lemma ToldIsOffered(o: Offer, id: Id)
    requires o.Valid()
    ensures
      var told := For(o.applied, id);
      && o.Offered(id) == (if told == [] then None else told[|told| - 1])
      && (told != [] ==> told[0].Some?)
      && (forall i :: 0 < i < |told| ==> told[i] != told[i - 1])
  {
    ChangesEndInAnswer(o.events, id);
  }

  /** The last report of this kind about this device, and none came after it. */
  ghost predicate LastSaid(events: seq<Event>, id: Id, i: nat, server: bool) {
    && i < |events| && events[i].id == id && events[i].ServerIs? == server
    && forall j :: i < j < |events| ==> events[j].id != id || events[j].ServerIs? != server
  }

  lemma {:induction false} LastServerIs(events: seq<Event>, id: Id, u: Url)
    ensures LastServer(events, id) == Some(u) <==>
              exists i: nat :: LastSaid(events, id, i, true) && events[i] == ServerIs(id, Some(u))
    decreases |events|
  {
    if events != [] {
      var n := |events| - 1;
      var init := events[..n];
      LastServerIs(init, id, u);
      if events[n].ServerIs? && events[n].id == id {
        assert LastSaid(events, id, n, true);
      } else {
        assert forall i: nat :: i < n ==> (LastSaid(events, id, i, true) <==> LastSaid(init, id, i, true));
        assert forall i: nat :: i < n ==> init[i] == events[i];
      }
    }
  }

  lemma {:induction false} LastReasonIs(events: seq<Event>, id: Id)
    ensures LastReason(events, id).Some? <==>
              exists i: nat :: LastSaid(events, id, i, false) && events[i].reason.Some?
    decreases |events|
  {
    if events != [] {
      var n := |events| - 1;
      var init := events[..n];
      LastReasonIs(init, id);
      if events[n].BlockedBy? && events[n].id == id {
        assert LastSaid(events, id, n, false);
      } else {
        assert forall i: nat :: i < n ==> (LastSaid(events, id, i, false) <==> LastSaid(init, id, i, false));
        assert forall i: nat :: i < n ==> init[i] == events[i];
      }
    }
  }

  /**
   * After every sequence of reports, a device is offered at a URL exactly if the last report about its server
   * gave that URL, and the device's own last report, if there was one, gave no reason against it.
   */
  lemma OfferedExactly(o: Offer, id: Id, u: Url)
    requires o.Valid()
    ensures o.Offered(id) == Some(u) <==>
              && (exists i: nat :: LastSaid(o.events, id, i, true) && o.events[i] == ServerIs(id, Some(u)))
              && !(exists i: nat :: LastSaid(o.events, id, i, false) && o.events[i].reason.Some?)
  {
    LastServerIs(o.events, id, u);
    LastReasonIs(o.events, id);
  }
}
