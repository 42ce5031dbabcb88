/**
 Conversations under concurrent requests (server/internal/httpserver:
 channel_handlers.go, message_handlers.go, e2ee.go; the store calls are those of
 server/internal/storage).

 Every handler is a task that makes one store call per step; steps of different
 tasks interleave freely, a task may stop for ever between two of them, and
 membership may change at any moment.
 */
module Conversation {
  import opened Bytes

  type User = nat
  type ChannelId = nat
  type MessageId = nat
  type ClientId = nat   // 0 is uuid.Nil
  type TaskId = nat

  const COMPLIANCE := "compliance"
  const STRICT := "strict"
  const MAX_CONTENT: nat := 4000
  const MAX_CIPHERTEXT: nat := 45000
  const MAX_MENTIONS: nat := 50

  datatype Envelope = Envelope(epoch: nat, ciphertext: seq<byte>, mentions: seq<User>)
  datatype EnvelopeRequest = EnvelopeRequest(epoch: int, ciphertext: string, mentions: Option<seq<User>>)

  datatype Message = Message(
    channel: ChannelId, author: User, clientId: ClientId,
    content: string, envelope: Option<Envelope>, deleted: bool)

  datatype Channel = Channel(e2ee: bool, members: set<User>)

  datatype Store = Store(
    mode: string,
    channels: map<ChannelId, Channel>,
    direct: map<(User, User), ChannelId>,
    messages: map<MessageId, Message>)

  // ----- e2ee.go

  /** declaredMentions: only the length is bounded. */
  function DeclaredMentions(declared: Option<seq<User>>): Option<seq<User>> {
    if declared.None? then Some([])
    else if |declared.value| > MAX_MENTIONS then None else declared
  }

  /**
   e2eeBody: what storage should keep of a write to a channel of the given mode,
   None when the write is refused. Both directions are enforced: ciphertext
   required and plaintext refused on an encrypted channel, the reverse elsewhere.
   */
  function E2eeBody(decode: string -> Option<seq<byte>>, e2ee: bool, content: string, mls: Option<EnvelopeRequest>)
    : (kept: Option<Option<Envelope>>)
    ensures kept.Some? ==> Fits(e2ee, content, kept.value)
    ensures kept.Some? <==>
              || (!e2ee && mls.None?)
              || (&& e2ee && mls.Some? && content == "" && mls.value.epoch >= 0
                  && 1 <= |mls.value.ciphertext| <= 45000 && decode(mls.value.ciphertext).Some?
                  && (mls.value.mentions.Some? ==> |mls.value.mentions.value| <= 50))
    ensures kept.Some? && !e2ee ==> kept.value == None
    ensures kept.Some? && e2ee ==>
              && kept.value.Some? && kept.value.value.epoch == mls.value.epoch
              && Some(kept.value.value.ciphertext) == decode(mls.value.ciphertext)
              && kept.value.value.mentions == if mls.value.mentions.None? then [] else mls.value.mentions.value
  {
    if !e2ee then (if mls.Some? then None else Some(None))
    else if mls.None? || content != "" || mls.value.epoch < 0 then None
    else if mls.value.ciphertext == "" || |mls.value.ciphertext| > MAX_CIPHERTEXT then None
    else
      var blob, mentions := decode(mls.value.ciphertext), DeclaredMentions(mls.value.mentions);
      if blob.None? || mentions.None? then None
      else Some(Some(Envelope(mls.value.epoch, blob.value, mentions.value)))
  }

  /** A body a channel of this mode may hold: an envelope and no readable words, or words and no envelope. */
  predicate Fits(e2ee: bool, content: string, envelope: Option<Envelope>) {
    envelope.Some? == e2ee && (e2ee ==> content == "")
  }

  /** e2eeAtBirth: anything that is not literally compliance encrypts; a disagreeing assertion is refused. */
  function E2eeAtBirth(mode: string, asserted: Option<bool>): (born: Option<bool>)
    ensures born.Some? ==> born.value == (mode != COMPLIANCE) && (asserted.Some? ==> asserted == born)
    ensures born.None? <==> asserted.Some? && asserted.value == (mode == COMPLIANCE)
  {
    var encrypted := mode != COMPLIANCE;
    if asserted.None? || asserted.value == encrypted then Some(encrypted) else None
  }

  // ----- store calls, each atomic

  predicate HasKey(m: Message, ch: ChannelId, author: User, clientId: ClientId) {
    m.channel == ch && m.author == author && m.clientId == clientId
  }

  /** CreateMessage: insert unless (channel, author, client id) is taken; the id is a new one. */
  ghost function CreateMessage(s: Store, id: MessageId, m: Message, hasFiles: bool): (r: (Store, bool))
    requires id !in s.messages
  {
    if m.content == "" && !hasFiles && m.envelope.None? then (s, false)
    else if m.channel !in s.channels then (s, false)
    else if exists k | k in s.messages :: HasKey(s.messages[k], m.channel, m.author, m.clientId) then (s, false)
    else (s.(messages := s.messages[id := m]), true)
  }

  /** UpdateMessageContent: only a message of this channel that is not deleted. */
  function UpdateContent(s: Store, ch: ChannelId, id: MessageId, content: string, envelope: Option<Envelope>): (Store, bool) {
    if id in s.messages && s.messages[id].channel == ch && !s.messages[id].deleted
    then (s.(messages := s.messages[id := s.messages[id].(content := content, envelope := envelope)]), true)
    else (s, false)
  }

  /** SoftDeleteMessage: erases words and ciphertext together, once. */
  function SoftDelete(s: Store, ch: ChannelId, id: MessageId): (Store, bool) {
    if id in s.messages && s.messages[id].channel == ch && !s.messages[id].deleted
    then (s.(messages := s.messages[id := s.messages[id].(content := "", envelope := None, deleted := true)]), true)
    else (s, false)
  }

  function CreateChannel(s: Store, id: ChannelId, creator: User, e2ee: bool): Store
    requires id !in s.channels
  {
    s.(channels := s.channels[id := Channel(e2ee, {creator})])
  }

  function Pair(a: User, b: User): (User, User) { if a <= b then (a, b) else (b, a) }

  /** OpenDirectMessage: get or create; the flag matters only to the call that creates. */
  function OpenDirect(s: Store, id: ChannelId, a: User, b: User, e2ee: bool): Store
    requires id !in s.channels
  {
    if a == b || Pair(a, b) in s.direct then s
    else s.(channels := s.channels[id := Channel(e2ee, {a, b})], direct := s.direct[Pair(a, b) := id])
  }

  // ----- tasks: one handler call each, named by where it stands

  datatype SendRequest = SendRequest(
    clientId: ClientId, content: string, storable: bool, filesOk: bool, hasFiles: bool, mls: Option<EnvelopeRequest>)
  datatype EditRequest = EditRequest(content: string, storable: bool, mls: Option<EnvelopeRequest>)

  datatype Task =
    | SendStart(user: User, channel: ChannelId, send: SendRequest)
    | SendResolved(user: User, channel: ChannelId, send: SendRequest, e2ee: bool)
    | SendReady(row: Message, hasFiles: bool)
    | SendStored(id: MessageId)
    | EditStart(user: User, channel: ChannelId, id: MessageId, edit: EditRequest)
    | EditResolved(user: User, channel: ChannelId, id: MessageId, edit: EditRequest, e2ee: bool)
    | EditMember(user: User, channel: ChannelId, id: MessageId, edit: EditRequest, e2ee: bool)
    | EditReady(channel: ChannelId, id: MessageId, content: string, envelope: Option<Envelope>)
    | EditStored(id: MessageId)
    | DeleteStart(user: User, isAdmin: bool, channel: ChannelId, id: MessageId)
    | DeleteResolved(user: User, isAdmin: bool, channel: ChannelId, id: MessageId)
    | DeleteMember(user: User, isAdmin: bool, channel: ChannelId, id: MessageId)
    | DeleteReady(channel: ChannelId, id: MessageId)
    | DeleteStored(id: MessageId)
    | CreateStart(user: User, asserted: Option<bool>)
    | CreateReady(user: User, e2ee: bool)
    | OpenStart(user: User, peer: User, asserted: Option<bool>)
    | OpenReady(user: User, peer: User, e2ee: bool)
    | ModeStart(requested: string)
    | Done

  predicate IsStart(t: Task) {
    t.SendStart? || t.EditStart? || t.DeleteStart? || t.CreateStart? || t.OpenStart? || t.ModeStart?
  }

  datatype Announcement = Created(id: MessageId) | Updated(id: MessageId) | Deleted(id: MessageId)

  datatype System = System(store: Store, tasks: map<TaskId, Task>, events: seq<Announcement>)

  /** What an advancing task leaves behind: the store, itself, and at most one announcement. */
  datatype Effect = Effect(store: Store, task: Task, events: seq<Announcement>)

  function IsMember(s: Store, ch: ChannelId, u: User): bool { ch in s.channels && u in s.channels[ch].members }

  /** SendMessage's request checks, in order. */
  predicate SendAccepts(r: SendRequest) {
    r.clientId != 0 && r.storable && |r.content| <= MAX_CONTENT && r.filesOk
  }

  ghost function AdvanceSend(decode: string -> Option<seq<byte>>, s: Store, t: Task, newId: nat): Effect
    requires t.SendStart? || t.SendResolved? || t.SendReady? || t.SendStored?
    requires newId !in s.messages
  {
    match t
    case SendStart(u, ch, r) =>
      if ch in s.channels then Effect(s, SendResolved(u, ch, r, s.channels[ch].e2ee), []) else Effect(s, Done, [])
    case SendResolved(u, ch, r, e2ee) =>
      var body := E2eeBody(decode, e2ee, r.content, r.mls);
      if IsMember(s, ch, u) && SendAccepts(r) && body.Some?
      then Effect(s, SendReady(Message(ch, u, r.clientId, r.content, body.value, false), r.hasFiles), [])
      else Effect(s, Done, [])
    case SendReady(row, hasFiles) =>
      var (s', created) := CreateMessage(s, newId, row, hasFiles);
      Effect(s', if created then SendStored(newId) else Done, [])
    case SendStored(id) => Effect(s, Done, [Created(id)])
  }

  function AdvanceEdit(decode: string -> Option<seq<byte>>, s: Store, t: Task): Effect
    requires t.EditStart? || t.EditResolved? || t.EditMember? || t.EditReady? || t.EditStored?
  {
    match t
    case EditStart(u, ch, id, r) =>
      if ch in s.channels then Effect(s, EditResolved(u, ch, id, r, s.channels[ch].e2ee), []) else Effect(s, Done, [])
    case EditResolved(u, ch, id, r, e2ee) =>
      if IsMember(s, ch, u) then Effect(s, EditMember(u, ch, id, r, e2ee), []) else Effect(s, Done, [])
    case EditMember(u, ch, id, r, e2ee) =>
      var body := E2eeBody(decode, e2ee, r.content, r.mls);
      if id in s.messages && s.messages[id].channel == ch && s.messages[id].author == u && !s.messages[id].deleted
         && r.storable && body.Some? && (body.value.None? ==> 1 <= |r.content| <= MAX_CONTENT)
      then Effect(s, EditReady(ch, id, r.content, body.value), [])
      else Effect(s, Done, [])
    case EditReady(ch, id, content, envelope) =>
      var (s', ok) := UpdateContent(s, ch, id, content, envelope);
      Effect(s', if ok then EditStored(id) else Done, [])
    case EditStored(id) => Effect(s, Done, [Updated(id)])
  }

  function AdvanceDelete(s: Store, t: Task): Effect
    requires t.DeleteStart? || t.DeleteResolved? || t.DeleteMember? || t.DeleteReady? || t.DeleteStored?
  {
    match t
    case DeleteStart(u, admin, ch, id) =>
      if ch in s.channels then Effect(s, DeleteResolved(u, admin, ch, id), []) else Effect(s, Done, [])
    case DeleteResolved(u, admin, ch, id) =>
      if IsMember(s, ch, u) then Effect(s, DeleteMember(u, admin, ch, id), []) else Effect(s, Done, [])
    case DeleteMember(u, admin, ch, id) =>
      if id in s.messages && s.messages[id].channel == ch && (s.messages[id].author == u || admin) && !s.messages[id].deleted
      then Effect(s, DeleteReady(ch, id), [])
      else Effect(s, Done, [])
    case DeleteReady(ch, id) =>
      var (s', ok) := SoftDelete(s, ch, id);
      Effect(s', if ok then DeleteStored(id) else Done, [])
    case DeleteStored(id) => Effect(s, Done, [Deleted(id)])
  }

  /** The two creation paths and the mode switch. Compliance mode is refused outright. */
  function AdvanceBirth(s: Store, t: Task, newId: nat): Effect
    requires t.CreateStart? || t.CreateReady? || t.OpenStart? || t.OpenReady? || t.ModeStart?
    requires newId !in s.channels
  {
    match t
    case CreateStart(u, asserted) =>
      var born := E2eeAtBirth(s.mode, asserted);
      Effect(s, if born.Some? then CreateReady(u, born.value) else Done, [])
    case CreateReady(u, e2ee) => Effect(CreateChannel(s, newId, u, e2ee), Done, [])
    case OpenStart(u, peer, asserted) =>
      var born := E2eeAtBirth(s.mode, asserted);
      Effect(s, if born.Some? then OpenReady(u, peer, born.value) else Done, [])
    case OpenReady(u, peer, e2ee) => Effect(OpenDirect(s, newId, u, peer, e2ee), Done, [])
    case ModeStart(requested) => Effect(if requested == STRICT then s.(mode := STRICT) else s, Done, [])
  }

  ghost function Advance(decode: string -> Option<seq<byte>>, s: Store, t: Task, newId: nat): Effect
    requires newId !in s.messages && newId !in s.channels
  {
    if t.SendStart? || t.SendResolved? || t.SendReady? || t.SendStored? then AdvanceSend(decode, s, t, newId)
    else if t.EditStart? || t.EditResolved? || t.EditMember? || t.EditReady? || t.EditStored? then AdvanceEdit(decode, s, t)
    else if t.DeleteStart? || t.DeleteResolved? || t.DeleteMember? || t.DeleteReady? || t.DeleteStored? then AdvanceDelete(s, t)
    else if t.Done? then Effect(s, t, [])
    else AdvanceBirth(s, t, newId)
  }

  datatype Step =
    | Begin(tid: TaskId, task: Task)
    | Run(tid: TaskId, newId: nat)
    | SetMembers(channel: ChannelId, members: set<User>)

  ghost function Next(decode: string -> Option<seq<byte>>, w: System, step: Step): System {
    match step
    case Begin(tid, t) => if tid in w.tasks || !IsStart(t) then w else w.(tasks := w.tasks[tid := t])
    case Run(tid, newId) =>
      if tid !in w.tasks || newId in w.store.messages || newId in w.store.channels then w
      else
        var e := Advance(decode, w.store, w.tasks[tid], newId);
        System(e.store, w.tasks[tid := e.task], w.events + e.events)
    case SetMembers(ch, us) =>
      if ch !in w.store.channels then w
      else w.(store := w.store.(channels := w.store.channels[ch := w.store.channels[ch].(members := us)]))
  }

  ghost function Exec(decode: string -> Option<seq<byte>>, w: System, steps: seq<Step>): System
    decreases |steps|
  {
    if steps == [] then w else Next(decode, Exec(decode, w, steps[..|steps| - 1]), steps[|steps| - 1])
  }

  // ----- what every step keeps

  /** A deleted row is empty; any other row fits its channel's mode. */
  ghost predicate Sound(s: Store, m: Message) {
    && m.channel in s.channels
    && if m.deleted then m.content == "" && m.envelope.None?
       else Fits(s.channels[m.channel].e2ee, m.content, m.envelope)
  }

  ghost predicate KeysUnique(s: Store) {
    forall i, j | i in s.messages && j in s.messages
                  && HasKey(s.messages[i], s.messages[j].channel, s.messages[j].author, s.messages[j].clientId) :: i == j
  }

  ghost predicate StoreInv(s: Store) {
    (forall id | id in s.messages :: Sound(s, s.messages[id])) && KeysUnique(s)
  }

  predicate Flag(s: Store, ch: ChannelId, e2ee: bool) { ch in s.channels && s.channels[ch].e2ee == e2ee }

  /** What a task has learned stays true whatever the others do. */
  ghost predicate TaskInv(s: Store, t: Task) {
    match t
    case SendResolved(_, ch, _, e2ee) => Flag(s, ch, e2ee)
    case EditResolved(_, ch, _, _, e2ee) => Flag(s, ch, e2ee)
    case EditMember(_, ch, _, _, e2ee) => Flag(s, ch, e2ee)
    case SendReady(row, _) => Sound(s, row) && !row.deleted
    case EditReady(ch, _, content, envelope) => ch in s.channels && Fits(s.channels[ch].e2ee, content, envelope)
    case _ => true
  }

  /** The announcement this task alone may make. */
  function Owned(t: Task): Option<Announcement> {
    match t
    case SendStored(id) => Some(Created(id))
    case DeleteStored(id) => Some(Deleted(id))
    case _ => None
  }

  /** The row an announcement speaks of is in the state it announces. */
  predicate Backed(s: Store, a: Announcement) {
    match a
    case Created(id) => id in s.messages
    case Deleted(id) => id in s.messages && s.messages[id].deleted
    case Updated(_) => true
  }

  ghost predicate EventInv(w: System) {
    && (forall i | 0 <= i < |w.events| :: Backed(w.store, w.events[i]))
    && (forall i, j | 0 <= i < j < |w.events| && w.events[i] == w.events[j] :: w.events[i].Updated?)
    && (forall t | t in w.tasks && Owned(w.tasks[t]).Some? ::
          Backed(w.store, Owned(w.tasks[t]).value) && Owned(w.tasks[t]).value !in w.events)
    && forall t, u | t in w.tasks && u in w.tasks && t != u && Owned(w.tasks[t]).Some? ::
          Owned(w.tasks[t]) != Owned(w.tasks[u])
  }

  ghost predicate Inv(w: System) {
    && StoreInv(w.store) && EventInv(w)
    && forall t | t in w.tasks :: TaskInv(w.store, w.tasks[t])
  }

  /** How a store may change: flags are fixed, rows keep their key, and a deleted row never changes again. */
  ghost predicate Grows(s: Store, t: Store) {
    && (forall ch | ch in s.channels :: Flag(t, ch, s.channels[ch].e2ee))
    && forall id | id in s.messages ::
         && id in t.messages
         && HasKey(t.messages[id], s.messages[id].channel, s.messages[id].author, s.messages[id].clientId)
         && (s.messages[id].deleted ==> t.messages[id] == s.messages[id])
  }

  lemma GrowsTransitive(s: Store, t: Store, u: Store)
    requires Grows(s, t) && Grows(t, u)
    ensures Grows(s, u)
  {
  }

  lemma AdvanceGrows(decode: string -> Option<seq<byte>>, s: Store, t: Task, newId: nat)
    requires newId !in s.messages && newId !in s.channels
    ensures Grows(s, Advance(decode, s, t, newId).store)
  {
  }

  lemma StepGrows(decode: string -> Option<seq<byte>>, w: System, step: Step)
    ensures Grows(w.store, Next(decode, w, step).store)
  {
    hide Advance;
    match step
    case Run(tid, newId) =>
      if tid in w.tasks && newId !in w.store.messages && newId !in w.store.channels {
        AdvanceGrows(decode, w.store, w.tasks[tid], newId);
      }
    case _ =>
  }

  lemma TaskKept(s: Store, u: Store, t: Task)
    requires Grows(s, u) && TaskInv(s, t)
    ensures TaskInv(u, t)
  {
  }

  lemma BackedKept(s: Store, u: Store, a: Announcement)
    requires Grows(s, u) && Backed(s, a)
    ensures Backed(u, a)
  {
  }

  lemma AdvanceStore(decode: string -> Option<seq<byte>>, s: Store, t: Task, newId: nat)
    requires newId !in s.messages && newId !in s.channels && StoreInv(s) && TaskInv(s, t)
    ensures StoreInv(Advance(decode, s, t, newId).store)
    ensures TaskInv(Advance(decode, s, t, newId).store, Advance(decode, s, t, newId).task)
  {
  }

  /** Only the call that changed a row comes to own its announcement, and it makes it at most once. */
  lemma AdvanceOwned(decode: string -> Option<seq<byte>>, s: Store, t: Task, newId: nat)
    requires newId !in s.messages && newId !in s.channels
    ensures var e := Advance(decode, s, t, newId);
            && (Owned(e.task).Some? ==> e.events == [] && Backed(e.store, Owned(e.task).value)
                                        && (e.task == t || !Backed(s, Owned(e.task).value)))
            && (e.events != [] ==> |e.events| == 1 && (e.events[0].Updated? || Owned(t) == Some(e.events[0])))
  {
  }

  lemma EventsKept(w: System, tid: TaskId, e: Effect)
    requires EventInv(w) && tid in w.tasks && Grows(w.store, e.store)
    requires Owned(e.task).Some? ==> e.events == [] && Backed(e.store, Owned(e.task).value)
                                     && (e.task == w.tasks[tid] || !Backed(w.store, Owned(e.task).value))
    requires e.events != [] ==> |e.events| == 1 && (e.events[0].Updated? || Owned(w.tasks[tid]) == Some(e.events[0]))
    ensures EventInv(System(e.store, w.tasks[tid := e.task], w.events + e.events))
  {
    hide Grows;
    hide Owned;
    var v := System(e.store, w.tasks[tid := e.task], w.events + e.events);
    forall i | 0 <= i < |v.events| ensures Backed(v.store, v.events[i]) {
      if i < |w.events| {
        assert v.events[i] == w.events[i];
        BackedKept(w.store, e.store, w.events[i]);
      } else {
        assert v.events[i] == e.events[0];
        if !e.events[0].Updated? { BackedKept(w.store, e.store, e.events[0]); }
      }
    }
    forall t | t in v.tasks && Owned(v.tasks[t]).Some?
      ensures Backed(v.store, Owned(v.tasks[t]).value) && Owned(v.tasks[t]).value !in v.events
    {
      OwnedKept(w, tid, e, t);
    }
    forall t, u | t in v.tasks && u in v.tasks && t != u && Owned(v.tasks[t]).Some?
      ensures Owned(v.tasks[t]) != Owned(v.tasks[u])
    {
      if t != tid && u != tid {
        assert Owned(w.tasks[t]) != Owned(w.tasks[u]);
      } else {
        var other := if t == tid then u else t;
        if Owned(w.tasks[other]).Some? { assert Backed(w.store, Owned(w.tasks[other]).value); }
      }
    }
  }

  lemma OwnedKept(w: System, tid: TaskId, e: Effect, t: TaskId)
    requires EventInv(w) && tid in w.tasks && Grows(w.store, e.store)
    requires Owned(e.task).Some? ==> e.events == [] && Backed(e.store, Owned(e.task).value)
                                     && (e.task == w.tasks[tid] || !Backed(w.store, Owned(e.task).value))
    requires e.events != [] ==> |e.events| == 1 && (e.events[0].Updated? || Owned(w.tasks[tid]) == Some(e.events[0]))
    requires t in w.tasks && Owned(w.tasks[tid := e.task][t]).Some?
    ensures var a := Owned(w.tasks[tid := e.task][t]).value; Backed(e.store, a) && a !in w.events + e.events
  {
    hide Grows;
    var a := Owned(w.tasks[tid := e.task][t]).value;
    assert forall i | 0 <= i < |w.events| :: Backed(w.store, w.events[i]);
    if t != tid {
      assert Owned(w.tasks[t]) == Some(a) && Backed(w.store, a) && a !in w.events;
      BackedKept(w.store, e.store, a);
    }
  }

  /** Every step of every task keeps the invariant. */
  lemma StepKeepsInv(decode: string -> Option<seq<byte>>, w: System, step: Step)
    requires Inv(w)
    ensures Inv(Next(decode, w, step))
  {
    hide Advance;
    hide Sound;
    StepGrows(decode, w, step);
    match step
    case Begin(_, _) =>
    case Run(tid, newId) =>
      if tid in w.tasks && newId !in w.store.messages && newId !in w.store.channels { RunKeepsInv(decode, w, tid, newId); }
    case SetMembers(ch, us) =>
      if ch in w.store.channels { MembersKeepInv(w, ch, us); }
  }

  lemma RunKeepsInv(decode: string -> Option<seq<byte>>, w: System, tid: TaskId, newId: nat)
    requires Inv(w) && tid in w.tasks && newId !in w.store.messages && newId !in w.store.channels
    ensures Inv(Next(decode, w, Run(tid, newId)))
  {
    hide Advance;
    hide StoreInv;
    hide EventInv;
    hide TaskInv;
    var e := Advance(decode, w.store, w.tasks[tid], newId);
    AdvanceGrows(decode, w.store, w.tasks[tid], newId);
    AdvanceStore(decode, w.store, w.tasks[tid], newId);
    AdvanceOwned(decode, w.store, w.tasks[tid], newId);
    EventsKept(w, tid, e);
    forall t | t in w.tasks ensures TaskInv(e.store, w.tasks[t]) { TaskKept(w.store, e.store, w.tasks[t]); }
  }

  lemma MembersKeepInv(w: System, ch: ChannelId, us: set<User>)
    requires Inv(w) && ch in w.store.channels
    ensures Inv(w.(store := w.store.(channels := w.store.channels[ch := w.store.channels[ch].(members := us)])))
  {
    var u := w.store.(channels := w.store.channels[ch := w.store.channels[ch].(members := us)]);
    assert forall id | id in u.messages :: Sound(w.store, u.messages[id]);
    assert forall t | t in w.tasks :: TaskInv(w.store, w.tasks[t]);
    assert forall a | Backed(w.store, a) :: Backed(u, a);
  }

  /** A server just started over any sound store. */
  ghost predicate Initial(w: System) { StoreInv(w.store) && w.tasks == map[] && w.events == [] }

  lemma {:induction false} RunsKeepInv(decode: string -> Option<seq<byte>>, w: System, steps: seq<Step>)
    requires Initial(w)
    ensures Inv(Exec(decode, w, steps))
    decreases |steps|
  {
    hide Next;
    if steps != [] {
      RunsKeepInv(decode, w, steps[..|steps| - 1]);
      StepKeepsInv(decode, Exec(decode, w, steps[..|steps| - 1]), steps[|steps| - 1]);
    }
  }

  lemma {:induction false} RunGrows(decode: string -> Option<seq<byte>>, w: System, steps: seq<Step>, n: nat)
    requires n <= |steps|
    ensures Grows(Exec(decode, w, steps[..n]).store, Exec(decode, w, steps).store)
    decreases |steps|
  {
    hide Next;
    hide Grows;
    if n == |steps| {
      assert steps[..n] == steps;
      GrowsReflexive(Exec(decode, w, steps).store);
    } else {
      var front := steps[..|steps| - 1];
      assert front[..n] == steps[..n];
      RunGrows(decode, w, front, n);
      StepGrows(decode, Exec(decode, w, front), steps[|steps| - 1]);
      GrowsTransitive(Exec(decode, w, steps[..n]).store, Exec(decode, w, front).store, Exec(decode, w, steps).store);
    }
  }

  lemma GrowsReflexive(s: Store)
    ensures Grows(s, s)
  {
  }

  // ----- the promises, over every run of every interleaving

  /** No run ever leaves words on an encrypted channel, or an envelope on a plaintext one. */
  lemma ModeIsKept(decode: string -> Option<seq<byte>>, w: System, steps: seq<Step>, id: MessageId)
    requires Initial(w) && id in Exec(decode, w, steps).store.messages
    ensures var s := Exec(decode, w, steps).store;
            var m := s.messages[id];
            && m.channel in s.channels
            && (s.channels[m.channel].e2ee ==> m.content == "" && (m.envelope.Some? <==> !m.deleted))
            && (!s.channels[m.channel].e2ee ==> m.envelope.None?)
  {
    hide Exec;
    RunsKeepInv(decode, w, steps);
    assert Sound(Exec(decode, w, steps).store, Exec(decode, w, steps).store.messages[id]);
  }

  /** A conversation's encryption is fixed at birth. */
  lemma FlagIsFixed(decode: string -> Option<seq<byte>>, w: System, steps: seq<Step>, n: nat, ch: ChannelId)
    requires n <= |steps| && ch in Exec(decode, w, steps[..n]).store.channels
    ensures ch in Exec(decode, w, steps).store.channels
    ensures Exec(decode, w, steps).store.channels[ch].e2ee == Exec(decode, w, steps[..n]).store.channels[ch].e2ee
  {
    hide Exec;
    RunGrows(decode, w, steps, n);
  }

  /** Once a delete commits the row never changes again: no edit, however early it started, restores words. */
  lemma DeletionIsFinal(decode: string -> Option<seq<byte>>, w: System, steps: seq<Step>, n: nat, id: MessageId)
    requires Initial(w) && n <= |steps|
    requires var s := Exec(decode, w, steps[..n]).store; id in s.messages && s.messages[id].deleted
    ensures var s := Exec(decode, w, steps).store;
            id in s.messages && s.messages[id] == Exec(decode, w, steps[..n]).store.messages[id]
            && s.messages[id].content == "" && s.messages[id].envelope.None?
  {
    hide Exec;
    RunGrows(decode, w, steps, n);
    RunsKeepInv(decode, w, steps);
    assert Sound(Exec(decode, w, steps).store, Exec(decode, w, steps).store.messages[id]);
  }

  /**
   Each (channel, author, client id) is stored once; each message is announced
   created at most once and deleted at most once, and only after it happened.
   */
  lemma AnnouncedOnce(decode: string -> Option<seq<byte>>, w: System, steps: seq<Step>)
    requires Initial(w)
    ensures var v := Exec(decode, w, steps);
            && KeysUnique(v.store)
            && (forall i, j | 0 <= i < j < |v.events| && v.events[i] == v.events[j] :: v.events[i].Updated?)
            && (forall i | 0 <= i < |v.events| :: Backed(v.store, v.events[i]))
  {
    hide Exec;
    RunsKeepInv(decode, w, steps);
  }

  /** Strict mode with no undecided plaintext birth, and only encrypted conversations beyond `known`. */
  ghost predicate Strict(w: System, known: set<ChannelId>) {
    && w.store.mode != COMPLIANCE
    && (forall t | t in w.tasks :: (w.tasks[t].CreateReady? || w.tasks[t].OpenReady?) ==> w.tasks[t].e2ee)
    && forall ch | ch in w.store.channels && ch !in known :: w.store.channels[ch].e2ee
  }

  /** A task that is about to create a conversation creates an encrypted one. */
  predicate BirthIsStrict(t: Task) { t.CreateReady? || t.OpenReady? ==> t.e2ee }

  lemma AdvanceStaysStrict(decode: string -> Option<seq<byte>>, s: Store, t: Task, newId: nat)
    requires newId !in s.messages && newId !in s.channels && s.mode != COMPLIANCE && BirthIsStrict(t)
    ensures var e := Advance(decode, s, t, newId);
            && e.store.mode != COMPLIANCE && BirthIsStrict(e.task)
            && forall ch | ch in e.store.channels && ch !in s.channels :: e.store.channels[ch].e2ee
  {
    hide E2eeBody;
  }

  lemma StepStaysStrict(decode: string -> Option<seq<byte>>, w: System, step: Step, known: set<ChannelId>)
    requires Strict(w, known)
    ensures Strict(Next(decode, w, step), known)
  {
    hide Advance;
    StepGrows(decode, w, step);
    if step.Run? && step.tid in w.tasks && step.newId !in w.store.messages && step.newId !in w.store.channels {
      AdvanceStaysStrict(decode, w.store, w.tasks[step.tid], step.newId);
    }
  }

  /** Starting from strict mode, no run adds a plaintext conversation, whatever mode switches are tried. */
  lemma {:induction false} StrictStaysStrict(decode: string -> Option<seq<byte>>, w: System, steps: seq<Step>)
    requires Initial(w) && w.store.mode != COMPLIANCE
    ensures Strict(Exec(decode, w, steps), w.store.channels.Keys)
    decreases |steps|
  {
    hide Next;
    if steps != [] {
      StrictStaysStrict(decode, w, steps[..|steps| - 1]);
      StepStaysStrict(decode, Exec(decode, w, steps[..|steps| - 1]), steps[|steps| - 1], w.store.channels.Keys);
    }
  }
}
