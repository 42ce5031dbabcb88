/**
 What a request comes to when nothing else happens between its steps
 (server/internal/httpserver/message_handlers.go, channel_handlers.go): an
 acceptable send, edit, delete or create does exactly what it asks and announces
 it once, so the safety results of Conversation and Authorship are not met by
 refusing everybody.
 */
module Served {
  import opened Bytes
  import opened Conversation
  import A = Authorship

  type Decoder = string -> Option<seq<byte>>

  /** Steps of task `tid`, with the ids generated along the way. */
  ghost function Go(decode: Decoder, w: System, tid: TaskId, ids: seq<nat>): System
    decreases |ids|
  {
    if ids == [] then w else Go(decode, Next(decode, w, Run(tid, ids[0])), tid, ids[1..])
  }

  ghost predicate Fresh(w: System, ids: seq<nat>) {
    forall i | 0 <= i < |ids| :: ids[i] !in w.store.messages && ids[i] !in w.store.channels
  }

  /** The system with the task moved on, and nothing else changed. */
  function Turned(w: System, tid: TaskId, t: Task): (v: System)
    ensures v.store == w.store && v.events == w.events && v.tasks == w.tasks[tid := t]
  {
    w.(tasks := w.tasks[tid := t])
  }

  /** The system with the task done, this store, and this announcement made. */
  function Closed(w: System, tid: TaskId, s: Store, a: Announcement): System {
    System(s, w.tasks[tid := Done], w.events + [a])
  }

  lemma TurnedAgain(w: System, tid: TaskId, first: Task, second: Task)
    ensures Turned(Turned(w, tid, first), tid, second) == Turned(w, tid, second)
  {
    assert w.tasks[tid := first][tid := second] == w.tasks[tid := second];
  }

  /** One step that only reads. */
  lemma GoRead(decode: Decoder, w: System, tid: TaskId, from: Task, to: Task, id: nat, rest: seq<nat>)
    requires id !in w.store.messages && id !in w.store.channels
    requires Advance(decode, w.store, from, id) == Effect(w.store, to, [])
    ensures Go(decode, Turned(w, tid, from), tid, [id] + rest) == Go(decode, Turned(w, tid, to), tid, rest)
  {
    hide Advance;
    assert ([id] + rest)[0] == id && ([id] + rest)[1..] == rest;
    TurnedAgain(w, tid, from, to);
    assert w.events + [] == w.events;
    assert Next(decode, Turned(w, tid, from), Run(tid, id)) == Turned(w, tid, to);
  }

  /** The writing step and the announcing one. */
  lemma GoWrite(decode: Decoder, w: System, tid: TaskId, from: Task, stored: Task, s: Store, a: Announcement, id: nat, last: nat)
    requires id !in w.store.messages && id !in w.store.channels && last !in s.messages && last !in s.channels
    requires Advance(decode, w.store, from, id) == Effect(s, stored, [])
    requires Advance(decode, s, stored, last) == Effect(s, Done, [a])
    ensures Go(decode, Turned(w, tid, from), tid, [id, last]) == Closed(w, tid, s, a)
  {
    hide Advance;
    var v := Next(decode, Turned(w, tid, from), Run(tid, id));
    assert w.events + [] == w.events;
    assert v == System(s, w.tasks[tid := from][tid := stored], w.events);
    assert w.tasks[tid := from][tid := stored][tid := Done] == w.tasks[tid := Done];
    assert [id, last][1..] == [last] && [last][1..] == [];
    assert Go(decode, v, tid, [last]) == Next(decode, v, Run(tid, last));
  }

  // ----- send

  /** The bounds of a send, and a body the channel's mode takes. */
  ghost predicate Sendable(decode: Decoder, s: Store, u: User, ch: ChannelId, r: SendRequest) {
    && IsMember(s, ch, u)
    && r.clientId != 0 && r.storable && |r.content| <= 4000 && r.filesOk
    && E2eeBody(decode, s.channels[ch].e2ee, r.content, r.mls).Some?
    && (r.content != "" || r.hasFiles || r.mls.Some?)
  }

  ghost predicate KeyTaken(s: Store, ch: ChannelId, u: User, clientId: ClientId) {
    exists k | k in s.messages :: HasKey(s.messages[k], ch, u, clientId)
  }

  lemma SendReads(decode: Decoder, s: Store, u: User, ch: ChannelId, r: SendRequest, a: nat, b: nat)
    requires a !in s.messages && a !in s.channels && b !in s.messages && b !in s.channels && Sendable(decode, s, u, ch, r)
    ensures var e2ee := s.channels[ch].e2ee;
            var m := Message(ch, u, r.clientId, r.content, E2eeBody(decode, e2ee, r.content, r.mls).value, false);
            && Advance(decode, s, SendStart(u, ch, r), a) == Effect(s, SendResolved(u, ch, r, e2ee), [])
            && Advance(decode, s, SendResolved(u, ch, r, e2ee), b) == Effect(s, SendReady(m, r.hasFiles), [])
  {
    hide E2eeBody;
  }

  lemma SendWrites(decode: Decoder, s: Store, m: Message, hasFiles: bool, c: nat, d: nat)
    requires c !in s.messages && c !in s.channels && d !in s.messages && d !in s.channels && d != c
    requires m.channel in s.channels && (m.content != "" || hasFiles || m.envelope.Some?)
    ensures var t := s.(messages := s.messages[c := m]);
            !KeyTaken(s, m.channel, m.author, m.clientId) ==>
              && d !in t.messages && d !in t.channels
              && Advance(decode, s, SendReady(m, hasFiles), c) == Effect(t, SendStored(c), [])
              && Advance(decode, t, SendStored(c), d) == Effect(t, Done, [Created(c)])
  {
    hide E2eeBody;
  }

  /** A sendable request with a new key stores exactly its own body under the generated id and announces it. */
  lemma SendIsServed(decode: Decoder, w: System, tid: TaskId, u: User, ch: ChannelId, r: SendRequest, a: nat, b: nat, c: nat, d: nat)
      returns (m: Message)
    requires Fresh(w, [a, b, c, d]) && d != c && Sendable(decode, w.store, u, ch, r) && !KeyTaken(w.store, ch, u, r.clientId)
    ensures m.channel == ch && m.author == u && m.clientId == r.clientId && !m.deleted
    ensures A.Keeps(decode, r.content, r.mls, m.content, m.envelope)
    ensures Go(decode, Turned(w, tid, SendStart(u, ch, r)), tid, [a, b, c, d]) ==
              Closed(w, tid, w.store.(messages := w.store.messages[c := m]), Created(c))
  {
    hide E2eeBody;
    hide Advance;
    hide KeyTaken;
    hide Turned;
    hide Closed;
    var ids := [a, b, c, d];
    assert ids[0] == a && ids[1] == b && ids[2] == c && ids[3] == d;
    var e2ee := w.store.channels[ch].e2ee;
    var body := E2eeBody(decode, e2ee, r.content, r.mls).value;
    m := Message(ch, u, r.clientId, r.content, body, false);
    var s := w.store.(messages := w.store.messages[c := m]);
    assert ids == [a] + ([b] + [c, d]);
    SendReads(decode, w.store, u, ch, r, a, b);
    SendWrites(decode, w.store, m, r.hasFiles, c, d);
    GoRead(decode, w, tid, SendStart(u, ch, r), SendResolved(u, ch, r, e2ee), a, [b] + [c, d]);
    GoRead(decode, w, tid, SendResolved(u, ch, r, e2ee), SendReady(m, r.hasFiles), b, [c, d]);
    GoWrite(decode, w, tid, SendReady(m, r.hasFiles), SendStored(c), s, Created(c), c, d);
  }

  lemma RetryWrites(decode: Decoder, s: Store, m: Message, hasFiles: bool, c: nat)
    requires c !in s.messages && c !in s.channels && KeyTaken(s, m.channel, m.author, m.clientId)
    ensures Advance(decode, s, SendReady(m, hasFiles), c) == Effect(s, Done, [])
  {
    hide E2eeBody;
  }

  /** A retry of a stored send stores nothing and announces nothing. */
  lemma RetryIsServedOnce(decode: Decoder, w: System, tid: TaskId, u: User, ch: ChannelId, r: SendRequest, a: nat, b: nat, c: nat)
    requires Fresh(w, [a, b, c]) && Sendable(decode, w.store, u, ch, r) && KeyTaken(w.store, ch, u, r.clientId)
    ensures Go(decode, Turned(w, tid, SendStart(u, ch, r)), tid, [a, b, c]) == Turned(w, tid, Done)
  {
    hide E2eeBody;
    hide Advance;
    hide KeyTaken;
    hide Turned;
    var ids := [a, b, c];
    assert ids[0] == a && ids[1] == b && ids[2] == c;
    var e2ee := w.store.channels[ch].e2ee;
    var m := Message(ch, u, r.clientId, r.content, E2eeBody(decode, e2ee, r.content, r.mls).value, false);
    assert ids == [a] + ([b] + ([c] + []));
    SendReads(decode, w.store, u, ch, r, a, b);
    RetryWrites(decode, w.store, m, r.hasFiles, c);
    GoRead(decode, w, tid, SendStart(u, ch, r), SendResolved(u, ch, r, e2ee), a, [b] + ([c] + []));
    GoRead(decode, w, tid, SendResolved(u, ch, r, e2ee), SendReady(m, r.hasFiles), b, [c] + []);
    GoRead(decode, w, tid, SendReady(m, r.hasFiles), Done, c, []);
  }

  // ----- edit

  predicate Present(s: Store, ch: ChannelId, id: MessageId) {
    id in s.messages && s.messages[id].channel == ch && !s.messages[id].deleted
  }

  lemma EditReads(decode: Decoder, s: Store, u: User, ch: ChannelId, id: MessageId, r: EditRequest, a: nat, b: nat, c: nat)
    requires Fresh(System(s, map[], []), [a, b, c]) && IsMember(s, ch, u)
    ensures a !in s.messages && a !in s.channels && b !in s.messages && b !in s.channels && c !in s.messages && c !in s.channels
    ensures var e2ee := s.channels[ch].e2ee;
            && Advance(decode, s, EditStart(u, ch, id, r), a) == Effect(s, EditResolved(u, ch, id, r, e2ee), [])
            && Advance(decode, s, EditResolved(u, ch, id, r, e2ee), b) == Effect(s, EditMember(u, ch, id, r, e2ee), [])
  {
    hide E2eeBody;
    assert a == [a, b, c][0] && b == [a, b, c][1] && c == [a, b, c][2];
  }

  lemma EditDecides(decode: Decoder, s: Store, u: User, ch: ChannelId, id: MessageId, r: EditRequest, c: nat)
    requires c !in s.messages && c !in s.channels && IsMember(s, ch, u) && Present(s, ch, id)
    ensures var e2ee := s.channels[ch].e2ee;
            var body := E2eeBody(decode, e2ee, r.content, r.mls);
            && (s.messages[id].author != u ==> Advance(decode, s, EditMember(u, ch, id, r, e2ee), c) == Effect(s, Done, []))
            && (s.messages[id].author == u && r.storable && body.Some? && (r.mls.None? ==> 1 <= |r.content| <= 4000) ==>
                  Advance(decode, s, EditMember(u, ch, id, r, e2ee), c) == Effect(s, EditReady(ch, id, r.content, body.value), []))
  {
    hide E2eeBody;
  }

  lemma EditWrites(decode: Decoder, s: Store, ch: ChannelId, id: MessageId, content: string, envelope: Option<Envelope>, d: nat, e: nat)
    requires d !in s.messages && d !in s.channels && e !in s.messages && e !in s.channels && Present(s, ch, id)
    ensures var t := s.(messages := s.messages[id := s.messages[id].(content := content, envelope := envelope)]);
            && e !in t.messages && e !in t.channels
            && Advance(decode, s, EditReady(ch, id, content, envelope), d) == Effect(t, EditStored(id), [])
            && Advance(decode, t, EditStored(id), e) == Effect(t, Done, [Updated(id)])
  {
    hide E2eeBody;
  }

  /** The author's edit within its bounds replaces exactly the body, and is announced. */
  lemma EditIsServed(
      decode: Decoder, w: System, tid: TaskId, u: User, ch: ChannelId, id: MessageId, r: EditRequest, a: nat, b: nat, c: nat, d: nat, e: nat)
      returns (m: Message)
    requires Fresh(w, [a, b, c, d, e]) && IsMember(w.store, ch, u) && Present(w.store, ch, id) && w.store.messages[id].author == u
    requires r.storable && E2eeBody(decode, w.store.channels[ch].e2ee, r.content, r.mls).Some?
    requires r.mls.None? ==> 1 <= |r.content| <= 4000
    ensures m == w.store.messages[id].(content := m.content, envelope := m.envelope)
    ensures A.Keeps(decode, r.content, r.mls, m.content, m.envelope)
    ensures Go(decode, Turned(w, tid, EditStart(u, ch, id, r)), tid, [a, b, c, d, e]) ==
              Closed(w, tid, w.store.(messages := w.store.messages[id := m]), Updated(id))
  {
    hide E2eeBody;
    hide Advance;
    hide Turned;
    hide Closed;
    var ids := [a, b, c, d, e];
    assert ids[0] == a && ids[1] == b && ids[2] == c && ids[3] == d && ids[4] == e;
    var e2ee := w.store.channels[ch].e2ee;
    var body := E2eeBody(decode, e2ee, r.content, r.mls).value;
    m := w.store.messages[id].(content := r.content, envelope := body);
    var s := w.store.(messages := w.store.messages[id := m]);
    assert ids == [a] + ([b] + ([c] + [d, e]));
    assert [a, b, c][0] == a && [a, b, c][1] == b && [a, b, c][2] == c;
    EditReads(decode, w.store, u, ch, id, r, a, b, c);
    EditDecides(decode, w.store, u, ch, id, r, c);
    EditWrites(decode, w.store, ch, id, r.content, body, d, e);
    GoRead(decode, w, tid, EditStart(u, ch, id, r), EditResolved(u, ch, id, r, e2ee), a, [b] + ([c] + [d, e]));
    GoRead(decode, w, tid, EditResolved(u, ch, id, r, e2ee), EditMember(u, ch, id, r, e2ee), b, [c] + [d, e]);
    GoRead(decode, w, tid, EditMember(u, ch, id, r, e2ee), EditReady(ch, id, r.content, body), c, [d, e]);
    GoWrite(decode, w, tid, EditReady(ch, id, r.content, body), EditStored(id), s, Updated(id), d, e);
  }

  /** Anybody else's edit, an administrator's too, comes to nothing. */
  lemma StrangersEditIsRefused(
      decode: Decoder, w: System, tid: TaskId, u: User, ch: ChannelId, id: MessageId, r: EditRequest, a: nat, b: nat, c: nat)
    requires Fresh(w, [a, b, c]) && IsMember(w.store, ch, u) && Present(w.store, ch, id) && w.store.messages[id].author != u
    ensures Go(decode, Turned(w, tid, EditStart(u, ch, id, r)), tid, [a, b, c]) == Turned(w, tid, Done)
  {
    hide E2eeBody;
    hide Advance;
    hide Turned;
    var ids := [a, b, c];
    assert ids[0] == a && ids[1] == b && ids[2] == c;
    var e2ee := w.store.channels[ch].e2ee;
    assert ids == [a] + ([b] + ([c] + []));
    EditReads(decode, w.store, u, ch, id, r, a, b, c);
    EditDecides(decode, w.store, u, ch, id, r, c);
    GoRead(decode, w, tid, EditStart(u, ch, id, r), EditResolved(u, ch, id, r, e2ee), a, [b] + ([c] + []));
    GoRead(decode, w, tid, EditResolved(u, ch, id, r, e2ee), EditMember(u, ch, id, r, e2ee), b, [c] + []);
    GoRead(decode, w, tid, EditMember(u, ch, id, r, e2ee), Done, c, []);
  }

  // ----- delete

  lemma DeleteReads(decode: Decoder, s: Store, u: User, admin: bool, ch: ChannelId, id: MessageId, a: nat, b: nat, c: nat)
    requires Fresh(System(s, map[], []), [a, b, c]) && IsMember(s, ch, u) && Present(s, ch, id) && (s.messages[id].author == u || admin)
    ensures a !in s.messages && a !in s.channels && b !in s.messages && b !in s.channels && c !in s.messages && c !in s.channels
    ensures Advance(decode, s, DeleteStart(u, admin, ch, id), a) == Effect(s, DeleteResolved(u, admin, ch, id), [])
    ensures Advance(decode, s, DeleteResolved(u, admin, ch, id), b) == Effect(s, DeleteMember(u, admin, ch, id), [])
    ensures Advance(decode, s, DeleteMember(u, admin, ch, id), c) == Effect(s, DeleteReady(ch, id), [])
  {
    assert a == [a, b, c][0] && b == [a, b, c][1] && c == [a, b, c][2];
  }

  lemma DeleteWrites(decode: Decoder, s: Store, ch: ChannelId, id: MessageId, d: nat, e: nat)
    requires d !in s.messages && d !in s.channels && e !in s.messages && e !in s.channels && Present(s, ch, id)
    ensures var m := s.messages[id];
            var t := s.(messages := s.messages[id := Message(ch, m.author, m.clientId, "", None, true)]);
            && e !in t.messages && e !in t.channels
            && Advance(decode, s, DeleteReady(ch, id), d) == Effect(t, DeleteStored(id), [])
            && Advance(decode, t, DeleteStored(id), e) == Effect(t, Done, [Deleted(id)])
  {
  }

  /** The author's delete, or an administrator's, empties exactly that row, and is announced. */
  lemma DeleteIsServed(
      decode: Decoder, w: System, tid: TaskId, u: User, admin: bool, ch: ChannelId, id: MessageId, a: nat, b: nat, c: nat, d: nat, e: nat)
    requires Fresh(w, [a, b, c, d, e]) && IsMember(w.store, ch, u) && Present(w.store, ch, id) && (w.store.messages[id].author == u || admin)
    ensures var m := w.store.messages[id];
            Go(decode, Turned(w, tid, DeleteStart(u, admin, ch, id)), tid, [a, b, c, d, e]) ==
              Closed(w, tid, w.store.(messages := w.store.messages[id := Message(ch, m.author, m.clientId, "", None, true)]), Deleted(id))
  {
    hide Advance;
    hide Turned;
    hide Closed;
    var ids := [a, b, c, d, e];
    assert ids[0] == a && ids[1] == b && ids[2] == c && ids[3] == d && ids[4] == e;
    var m := w.store.messages[id];
    var s := w.store.(messages := w.store.messages[id := Message(ch, m.author, m.clientId, "", None, true)]);
    assert ids == [a] + ([b] + ([c] + [d, e]));
    assert [a, b, c][0] == a && [a, b, c][1] == b && [a, b, c][2] == c;
    DeleteReads(decode, w.store, u, admin, ch, id, a, b, c);
    DeleteWrites(decode, w.store, ch, id, d, e);
    GoRead(decode, w, tid, DeleteStart(u, admin, ch, id), DeleteResolved(u, admin, ch, id), a, [b] + ([c] + [d, e]));
    GoRead(decode, w, tid, DeleteResolved(u, admin, ch, id), DeleteMember(u, admin, ch, id), b, [c] + [d, e]);
    GoRead(decode, w, tid, DeleteMember(u, admin, ch, id), DeleteReady(ch, id), c, [d, e]);
    GoWrite(decode, w, tid, DeleteReady(ch, id), DeleteStored(id), s, Deleted(id), d, e);
  }

  // ----- create and open

  lemma CreateAdvances(decode: Decoder, s: Store, u: User, asserted: Option<bool>, a: nat, b: nat)
    requires a !in s.messages && a !in s.channels && b !in s.messages && b !in s.channels
    requires asserted.Some? ==> asserted.value == (s.mode != "compliance")
    ensures var e2ee := s.mode != "compliance";
            && Advance(decode, s, CreateStart(u, asserted), a) == Effect(s, CreateReady(u, e2ee), [])
            && Advance(decode, s, CreateReady(u, e2ee), b) == Effect(s.(channels := s.channels[b := Channel(e2ee, {u})]), Done, [])
  {
  }

  lemma OpenAdvances(decode: Decoder, s: Store, u: User, peer: User, asserted: Option<bool>, a: nat, b: nat)
    requires a !in s.messages && a !in s.channels && b !in s.messages && b !in s.channels && u != peer
    requires asserted.Some? ==> asserted.value == (s.mode != "compliance")
    ensures var e2ee, pair := s.mode != "compliance", if u <= peer then (u, peer) else (peer, u);
            && Advance(decode, s, OpenStart(u, peer, asserted), a) == Effect(s, OpenReady(u, peer, e2ee), [])
            && Advance(decode, s, OpenReady(u, peer, e2ee), b) ==
                 Effect(if pair in s.direct then s
                        else s.(channels := s.channels[b := Channel(e2ee, {u, peer})], direct := s.direct[pair := b]), Done, [])
  {
  }

  /** A conversation is born with its creator alone and encrypted exactly when the mode is not compliance. */
  lemma CreateIsServed(decode: Decoder, w: System, tid: TaskId, u: User, asserted: Option<bool>, a: nat, b: nat)
    requires Fresh(w, [a, b]) && (asserted.Some? ==> asserted.value == (w.store.mode != "compliance"))
    ensures Go(decode, Turned(w, tid, CreateStart(u, asserted)), tid, [a, b]) ==
              System(w.store.(channels := w.store.channels[b := Channel(w.store.mode != "compliance", {u})]), w.tasks[tid := Done], w.events)
  {
    hide Advance;
    hide Turned;
    assert a == [a, b][0] && b == [a, b][1] && [a, b] == [a] + [b];
    var e2ee := w.store.mode != "compliance";
    CreateAdvances(decode, w.store, u, asserted, a, b);
    GoRead(decode, w, tid, CreateStart(u, asserted), CreateReady(u, e2ee), a, [b]);
    GoLast(decode, w, tid, CreateReady(u, e2ee), w.store.(channels := w.store.channels[b := Channel(e2ee, {u})]), b);
  }

  lemma GoLast(decode: Decoder, w: System, tid: TaskId, from: Task, s: Store, id: nat)
    requires id !in w.store.messages && id !in w.store.channels && Advance(decode, w.store, from, id) == Effect(s, Done, [])
    ensures Go(decode, Turned(w, tid, from), tid, [id]) == System(s, w.tasks[tid := Done], w.events)
  {
    hide Advance;
    assert w.tasks[tid := from][tid := Done] == w.tasks[tid := Done] && w.events + [] == w.events;
    assert [id][1..] == [];
  }

  /** A direct message is born once for a pair, between its two people. */
  lemma OpenIsServed(decode: Decoder, w: System, tid: TaskId, u: User, peer: User, asserted: Option<bool>, a: nat, b: nat)
    requires Fresh(w, [a, b]) && u != peer && (asserted.Some? ==> asserted.value == (w.store.mode != "compliance"))
    ensures var pair := if u <= peer then (u, peer) else (peer, u);
            Go(decode, Turned(w, tid, OpenStart(u, peer, asserted)), tid, [a, b]) ==
              System(if pair in w.store.direct then w.store
                     else w.store.(channels := w.store.channels[b := Channel(w.store.mode != "compliance", {u, peer})],
                                   direct := w.store.direct[pair := b]),
                     w.tasks[tid := Done], w.events)
  {
    hide Advance;
    hide Turned;
    assert a == [a, b][0] && b == [a, b][1] && [a, b] == [a] + [b];
    var e2ee := w.store.mode != "compliance";
    var pair := if u <= peer then (u, peer) else (peer, u);
    OpenAdvances(decode, w.store, u, peer, asserted, a, b);
    GoRead(decode, w, tid, OpenStart(u, peer, asserted), OpenReady(u, peer, e2ee), a, [b]);
    GoLast(decode, w, tid, OpenReady(u, peer, e2ee),
           if pair in w.store.direct then w.store
           else w.store.(channels := w.store.channels[b := Channel(e2ee, {u, peer})], direct := w.store.direct[pair := b]), b);
  }
}
