/**
 Reading and announcing calls (server/internal/calls/calls.go and announceCall
 of server/internal/httpserver/call_handlers.go).

 A webhook delivery reads the live participants of a channel's room, records
 whether the call is active, and announces the difference. Reads are parameters;
 a read that fails announces nothing. Runs list deliveries in the order their
 transitions are recorded, since reads happen outside the lock.
 */
module Calls {
  import opened Bytes
  import opened Sorting

  type Channel = nat
  type User = nat

  datatype TrackSource = ScreenShare | OtherSource
  datatype Track = Track(source: TrackSource, muted: bool)

  /** A participant as the media server lists it; an identity this server did not mint is no user. */
  datatype Info = Info(identity: Option<User>, joinedAt: int, tracks: seq<Track>)

  datatype Participant = Participant(user: User, joinedAt: int, screenSharing: bool)

  datatype State = State(active: bool, startedAt: int, participants: seq<Participant>)

  const NO_CALL: State := State(false, 0, [])

  // ----- reading a call

  ghost predicate Shares(tracks: seq<Track>) { exists t | t in tracks :: t.source == ScreenShare && !t.muted }

  /** The listed participants who are users of this server, in list order. */
  ghost function Ours(infos: seq<Info>): seq<Participant> {
    if infos == [] then []
    else
      var front, last := infos[..|infos| - 1], infos[|infos| - 1];
      if last.identity.None? then Ours(front)
      else Ours(front) + [Participant(last.identity.value, last.joinedAt, Shares(last.tracks))]
  }

  /** Oldest first, the user id breaking ties. */
  function Order(p: Participant): (int, int) { (p.joinedAt, p.user) }

  ghost function StateOf(infos: seq<Info>): State {
    var ps := SortBy(Ours(infos), Order);
    if ps == [] then NO_CALL else State(true, ps[0].joinedAt, ps)
  }

  method ScreenSharing(tracks: seq<Track>) returns (r: bool)
    ensures r <==> Shares(tracks)
  {
    for i := 0 to |tracks|
      invariant !Shares(tracks[..i])
    {
      if tracks[i].source == ScreenShare && !tracks[i].muted { return true; }
    }
    assert tracks[..|tracks|] == tracks;
    return false;
  }

  method ReadState(infos: seq<Info>) returns (st: State)
    ensures st == StateOf(infos)
  {
    var ps: seq<Participant> := [];
    for i := 0 to |infos|
      invariant ps == Ours(infos[..i])
    {
      assert infos[..i + 1][..i] == infos[..i];
      if infos[i].identity.Some? {
        var sharing := ScreenSharing(infos[i].tracks);
        ps := ps + [Participant(infos[i].identity.value, infos[i].joinedAt, sharing)];
      }
    }
    assert infos[..|infos|] == infos;
    if ps == [] { return NO_CALL; }
    ps := SortBy(ps, Order);
    st := State(true, ps[0].joinedAt, ps);
  }

  /** One listed participant, as a member of the call. */
  ghost predicate Lists(i: Info, p: Participant) {
    i.identity == Some(p.user) && i.joinedAt == p.joinedAt && p.screenSharing == Shares(i.tracks)
  }

  ghost predicate Listed(infos: seq<Info>, p: Participant) { exists i | i in infos :: Lists(i, p) }

  lemma {:induction false} OursAreListed(infos: seq<Info>, p: Participant)
    ensures p in Ours(infos) <==> Listed(infos, p)
  {
    if infos != [] {
      var front, last := infos[..|infos| - 1], infos[|infos| - 1];
      OursAreListed(front, p);
      assert forall i :: i in infos <==> i in front || i == last;
      assert Listed(infos, p) <==> Listed(front, p) || Lists(last, p);
    }
  }

  /**
   A call is active exactly when some user of this server is listed; it then
   holds exactly the listed users, began when the first of them joined, and has
   a starter who joined then.
   */
  lemma StateIsTheCall(infos: seq<Info>)
    ensures StateOf(infos).active <==> exists i | i in infos :: i.identity.Some?
    ensures forall p :: p in StateOf(infos).participants <==> Listed(infos, p)
    ensures StateOf(infos).active ==>
              && StateOf(infos).participants != []
              && StateOf(infos).participants[0].joinedAt == StateOf(infos).startedAt
              && forall i | i in infos && i.identity.Some? :: StateOf(infos).startedAt <= i.joinedAt
  {
    var ours, ps := Ours(infos), SortBy(Ours(infos), Order);
    SortKeeps(ours, Order);
    forall p ensures p in ps <==> Listed(infos, p) {
      OursAreListed(infos, p);
      assert p in multiset(ps) <==> p in multiset(ours);
    }
    forall i | i in infos && i.identity.Some? ensures ps != [] && ps[0].joinedAt <= i.joinedAt {
      var p := Participant(i.identity.value, i.joinedAt, Shares(i.tracks));
      assert Lists(i, p);
      assert p in ps;
    }
    if ps != [] { assert Listed(infos, ps[0]); }
  }

  /** No user is listed twice. */
  ghost predicate DistinctUsers(infos: seq<Info>) {
    forall i, j | 0 <= i < j < |infos| && infos[i].identity.Some? :: infos[i].identity != infos[j].identity
  }

  lemma {:induction false} OursHaveDistinctKeys(infos: seq<Info>)
    requires DistinctUsers(infos)
    ensures DistinctKeys(Ours(infos), Order)
  {
    if infos != [] {
      var front, last := infos[..|infos| - 1], infos[|infos| - 1];
      OursHaveDistinctKeys(front);
      forall p | p in Ours(front) ensures Some(p.user) != last.identity {
        OursAreListed(front, p);
        var i :| i in front && Lists(i, p);
        var k :| 0 <= k < |front| && front[k] == i;
        assert infos[k] == i;
      }
      if last.identity.Some? {
        forall i | 0 <= i < |Ours(front)| ensures Order(Ours(front)[i]).1 != last.identity.value {
          assert Ours(front)[i] in Ours(front);
        }
      }
    }
  }

  /** The order the media server lists participants in does not matter. */
  lemma StateIgnoresOrder(a: seq<Info>, b: seq<Info>)
    requires DistinctUsers(a) && DistinctUsers(b) && SameElements(a, b)
    ensures StateOf(a) == StateOf(b)
  {
    OursHaveDistinctKeys(a);
    OursHaveDistinctKeys(b);
    forall p ensures p in Ours(a) <==> p in Ours(b) {
      OursAreListed(a, p);
      OursAreListed(b, p);
    }
    SortIgnoresOrder(Ours(a), Ours(b), Order);
  }

  // ----- announcing a call

  datatype Transition = NoTransition | Started | Updated | Ended

  function Classify(announced: set<Channel>, ch: Channel, active: bool): Transition {
    if active then (if ch in announced then Updated else Started)
    else (if ch in announced then Ended else NoTransition)
  }

  function Record(announced: set<Channel>, ch: Channel, active: bool): set<Channel> {
    if active then announced + {ch} else announced - {ch}
  }

  datatype Event =
    | CallStarted(channel: Channel, starter: User, participants: seq<Participant>)
    | CallUpdated(channel: Channel, participants: seq<Participant>)
    | CallEnded(channel: Channel)

  /** What a transition announces; a start nobody started is not announced. */
  function Emit(t: Transition, ch: Channel, st: State): seq<Event> {
    match t
    case Started => if st.participants == [] then [] else [CallStarted(ch, st.participants[0].user, st.participants)]
    case Updated => [CallUpdated(ch, st.participants)]
    case Ended => [CallEnded(ch)]
    case NoTransition => []
  }

  /** One webhook delivery: the channel it names and what the read of its room gave, None for a failed read. */
  datatype Delivery = Delivery(channel: Channel, infos: Option<seq<Info>>)

  datatype World = World(announced: set<Channel>, events: seq<Event>)

  ghost function Next(w: World, d: Delivery): World {
    if d.infos.None? then w
    else
      var st := StateOf(d.infos.value);
      World(Record(w.announced, d.channel, st.active),
            w.events + Emit(Classify(w.announced, d.channel, st.active), d.channel, st))
  }

  ghost function Exec(ds: seq<Delivery>): World {
    if ds == [] then World({}, []) else Next(Exec(ds[..|ds| - 1]), ds[|ds| - 1])
  }

  /** The call service: the channels whose start this process announced. */
  class Service {
    var announced: map<Channel, bool>

    ghost function Announced(): set<Channel>
      reads this
    {
      set ch | ch in announced && announced[ch]
    }

    constructor ()
      ensures Announced() == Exec([]).announced
    {
      announced := map[];
    }

    method Transition(ch: Channel, active: bool) returns (t: Transition)
      modifies this
      ensures t == Classify(old(Announced()), ch, active)
      ensures Announced() == Record(old(Announced()), ch, active)
    {
      var was := ch in announced && announced[ch];
      if active && !was {
        announced := announced[ch := true];
        t := Started;
      } else if active {
        t := Updated;
      } else if was {
        announced := announced - {ch};
        t := Ended;
      } else {
        t := NoTransition;
      }
    }

    /** announceCall, returning what it announces. */
    method Announce(d: Delivery) returns (events: seq<Event>)
      modifies this
      ensures World(Announced(), events) == Next(World(old(Announced()), []), d)
    {
      if d.infos.None? { return []; }
      var st := ReadState(d.infos.value);
      var t := Transition(d.channel, st.active);
      events := Emit(t, d.channel, st);
    }
  }

  // ----- every run of deliveries

  /** Whether the last recorded read of a channel found a call. */
  ghost predicate LastReadActive(ds: seq<Delivery>, ch: Channel) {
    if ds == [] then false
    else
      var d := ds[|ds| - 1];
      if d.channel == ch && d.infos.Some? then exists i | i in d.infos.value :: i.identity.Some?
      else LastReadActive(ds[..|ds| - 1], ch)
  }

  /** The announced channels are exactly those whose last recorded read was active. */
  lemma {:induction false} AnnouncedIsLastRead(ds: seq<Delivery>, ch: Channel)
    ensures ch in Exec(ds).announced <==> LastReadActive(ds, ch)
  {
    if ds != [] {
      AnnouncedIsLastRead(ds[..|ds| - 1], ch);
      var d := ds[|ds| - 1];
      if d.infos.Some? { StateIsTheCall(d.infos.value); }
    }
  }

  datatype Label = S | U | E

  function LabelOf(e: Event): Label { if e.CallStarted? then S else if e.CallUpdated? then U else E }

  /** The labels of one channel's events, in order. */
  ghost function Labels(events: seq<Event>, ch: Channel): seq<Label> {
    if events == [] then []
    else
      var e := events[|events| - 1];
      Labels(events[..|events| - 1], ch) + if e.channel == ch then [LabelOf(e)] else []
  }

  /** One whole call: a start, any number of updates, an end. */
  ghost predicate IsCall(s: seq<Label>) {
    |s| >= 2 && s[0] == S && s[|s| - 1] == E && forall i | 0 < i < |s| - 1 :: s[i] == U
  }

  /** Whole calls one after another: the language (Started Updated* Ended)*. */
  ghost predicate AreCalls(s: seq<Label>) {
    s == [] || exists cut | 0 <= cut < |s| :: IsCall(s[cut..]) && AreCalls(s[..cut])
  }

  /** Whole calls and then one that is still running. */
  ghost predicate AreCallsAndOne(s: seq<Label>) {
    exists cut | 0 <= cut < |s| :: IsCall(s[cut..] + [E]) && AreCalls(s[..cut])
  }

  lemma StartOpens(s: seq<Label>)
    requires AreCalls(s)
    ensures AreCallsAndOne(s + [S])
  {
    var t := s + [S];
    assert t[|s|..] + [E] == [S, E] && t[..|s|] == s;
    assert IsCall(t[|s|..] + [E]);
  }

  lemma UpdateKeepsOpen(s: seq<Label>)
    requires AreCallsAndOne(s)
    ensures AreCallsAndOne(s + [U])
  {
    var cut :| 0 <= cut < |s| && IsCall(s[cut..] + [E]) && AreCalls(s[..cut]);
    var t, u := s + [U], s[cut..] + [E];
    assert t[..cut] == s[..cut];
    assert forall i | 0 <= i < |s| - cut :: (t[cut..] + [E])[i] == u[i];
    assert IsCall(t[cut..] + [E]);
  }

  lemma EndCloses(s: seq<Label>)
    requires AreCallsAndOne(s)
    ensures AreCalls(s + [E])
  {
    var cut :| 0 <= cut < |s| && IsCall(s[cut..] + [E]) && AreCalls(s[..cut]);
    var t := s + [E];
    assert t[cut..] == s[cut..] + [E] && t[..cut] == s[..cut];
  }

  lemma LabelsOfOne(events: seq<Event>, e: Event, ch: Channel)
    ensures Labels(events + [e], ch) == Labels(events, ch) + if e.channel == ch then [LabelOf(e)] else []
  {
    assert (events + [e])[..|events|] == events;
  }

  /** What one delivery appends to each channel's labels. */
  lemma StepLabels(w: World, d: Delivery, ch: Channel)
    requires d.infos.Some?
    ensures Labels(Next(w, d).events, ch) == Labels(w.events, ch) +
              if d.channel != ch then [] else
              match Classify(w.announced, ch, StateOf(d.infos.value).active)
              case Started => [S] case Updated => [U] case Ended => [E] case NoTransition => []
  {
    var st := StateOf(d.infos.value);
    StateIsTheCall(d.infos.value);
    var more := Emit(Classify(w.announced, d.channel, st.active), d.channel, st);
    hide StateOf;
    if more == [] { assert w.events + more == w.events; } else { LabelsOfOne(w.events, more[0], ch); }
  }

  /**
   On every run each channel's events are whole calls, followed by one running
   call exactly while the channel is announced: a prefix of
   (Started Updated* Ended)*.
   */
  lemma {:induction false} EventsFormCalls(ds: seq<Delivery>, ch: Channel)
    ensures var labels := Labels(Exec(ds).events, ch);
            if LastReadActive(ds, ch) then AreCallsAndOne(labels) else AreCalls(labels)
  {
    AnnouncedIsLastRead(ds, ch);
    if ds != [] {
      var before, d := ds[..|ds| - 1], ds[|ds| - 1];
      EventsFormCalls(before, ch);
      AnnouncedIsLastRead(before, ch);
      if d.infos.Some? {
        StepLabels(Exec(before), d, ch);
        var labels := Labels(Exec(before).events, ch);
        assert labels + [] == labels;
        if d.channel == ch {
          if ch in Exec(ds).announced {
            if ch in Exec(before).announced { UpdateKeepsOpen(labels); } else { StartOpens(labels); }
          } else if ch in Exec(before).announced { EndCloses(labels); }
        }
      }
    }
  }

  /** The branch for a start without a starter is never taken: a start names whoever joined first. */
  lemma StartsHaveStarters(ds: seq<Delivery>, k: nat)
    requires k < |ds| && ds[k].infos.Some?
    requires ds[k].channel !in Exec(ds[..k]).announced && StateOf(ds[k].infos.value).active
    ensures var st := StateOf(ds[k].infos.value);
            && st.participants != []
            && Exec(ds[..k + 1]).events ==
                 Exec(ds[..k]).events + [CallStarted(ds[k].channel, st.participants[0].user, st.participants)]
            && forall i | i in ds[k].infos.value && i.identity.Some? :: st.participants[0].joinedAt <= i.joinedAt
  {
    StateIsTheCall(ds[k].infos.value);
    assert ds[..k + 1][..k] == ds[..k];
  }

  /**
   One delivery announces at most one event, of its own channel: an end exactly
   when an announced call was found empty, and otherwise the users just read.
   */
  lemma AnnouncementIsTheRead(w: World, d: Delivery)
    requires d.infos.Some?
    ensures w.events <= Next(w, d).events
    ensures var more := Next(w, d).events[|w.events|..];
            var active := exists i | i in d.infos.value :: i.identity.Some?;
            && (more == [] <==> !active && d.channel !in w.announced)
            && (more != [] ==>
                  && |more| == 1 && more[0].channel == d.channel
                  && (more[0].CallEnded? <==> !active)
                  && (more[0].CallStarted? <==> active && d.channel !in w.announced)
                  && (active ==> forall p :: p in more[0].participants <==> Listed(d.infos.value, p)))
  {
    var st := StateOf(d.infos.value);
    StateIsTheCall(d.infos.value);
    hide StateOf;
    hide Listed;
    var more := Emit(Classify(w.announced, d.channel, st.active), d.channel, st);
    assert Next(w, d).events[|w.events|..] == more;
  }
}
