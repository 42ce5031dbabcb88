/**
 Whose words a message holds (server/internal/httpserver/message_handlers.go):
 over every interleaving, a message carries what its own author asked for, and is
 gone only because its author or an administrator asked.
 */
module Authorship {
  import opened Bytes
  import opened Conversation

  type Decoder = string -> Option<seq<byte>>

  /** Every request made so far. */
  ghost function Asked(steps: seq<Step>): set<Task> {
    set k | 0 <= k < |steps| && steps[k].Begin? :: steps[k].task
  }

  /**
   The stored body is the requested one: the same words and no envelope on either
   side, or no words and an envelope with the requested epoch, the bytes the
   requested ciphertext decodes to, and the declared mentions.
   */
  ghost predicate Keeps(decode: Decoder, content: string, mls: Option<EnvelopeRequest>, kept: string, envelope: Option<Envelope>) {
    && kept == content && envelope.Some? == mls.Some?
    && (mls.Some? ==>
          && content == "" && envelope.value.epoch == mls.value.epoch
          && Some(envelope.value.ciphertext) == decode(mls.value.ciphertext)
          && envelope.value.mentions == if mls.value.mentions.None? then [] else mls.value.mentions.value)
  }

  /** The pairs of a user and a channel they were a member of in some state so far. */
  type Memberships = iset<(User, ChannelId)>

  /** The requests made so far, and the memberships there were. */
  datatype Past = Past(asked: set<Task>, were: Memberships)

  ghost predicate Within(past: Past, more: Past) { past.asked <= more.asked && past.were <= more.were }

  /** The store's memberships are part of the past. */
  ghost predicate Seen(past: Past, s: Store) { forall u: User, ch: ChannelId | IsMember(s, ch, u) :: (u, ch) in past.were }

  ghost function Were(decode: Decoder, w: System, steps: seq<Step>): Memberships {
    iset u: User, ch: ChannelId | exists n | 0 <= n <= |steps| :: IsMember(Exec(decode, w, steps[..n]).store, ch, u) :: (u, ch)
  }

  /**
   A send request of the message's author, who was a member, to its channel, with
   its client id, and within the bounds of a send.
   */
  ghost predicate Sent(past: Past, m: Message, r: SendRequest) {
    && SendStart(m.author, m.channel, r) in past.asked && (m.author, m.channel) in past.were
    && r.clientId == m.clientId && r.clientId != 0 && r.storable && |r.content| <= 4000 && r.filesOk
  }

  ghost predicate IsSent(past: Past, m: Message) { exists r :: Sent(past, m, r) }

  ghost predicate FromSend(decode: Decoder, past: Past, m: Message) {
    exists r :: Sent(past, m, r) && Keeps(decode, r.content, r.mls, m.content, m.envelope)
  }

  /** Some edit request of this author, who was a member, for this message, within the bounds of an edit, keeps this body. */
  ghost predicate FromEdit(
    decode: Decoder, past: Past, author: User, ch: ChannelId, id: MessageId, content: string, envelope: Option<Envelope>)
  {
    exists r ::
      && EditStart(author, ch, id, r) in past.asked && (author, ch) in past.were
      && r.storable && (r.mls.None? ==> 1 <= |r.content| <= 4000)
      && Keeps(decode, r.content, r.mls, content, envelope)
  }

  /** Its author or an administrator, as a member, asked for its deletion. */
  ghost predicate Removable(past: Past, author: User, ch: ChannelId, id: MessageId) {
    exists u, admin :: DeleteStart(u, admin, ch, id) in past.asked && (u, ch) in past.were && (u == author || admin)
  }

  /** A row is accounted for by the requests made since the rows were `earlier`. */
  ghost predicate Accounted(decode: Decoder, past: Past, earlier: map<MessageId, Message>, id: MessageId, m: Message) {
    || (id in earlier && m == earlier[id])
    || ((id in earlier || IsSent(past, m))
        && if m.deleted then Removable(past, m.author, m.channel, id)
           else FromSend(decode, past, m) || FromEdit(decode, past, m.author, m.channel, id, m.content, m.envelope))
  }

  ghost predicate StoreAccounted(decode: Decoder, past: Past, earlier: map<MessageId, Message>, s: Store) {
    forall id | id in s.messages :: Accounted(decode, past, earlier, id, s.messages[id])
  }

  /** A task still carries the request it began with, and the authority it found. */
  ghost predicate TaskAccounted(decode: Decoder, past: Past, s: Store, t: Task) {
    if t.SendStart? || t.EditStart? || t.DeleteStart? then t in past.asked
    else if t.SendResolved? then SendStart(t.user, t.channel, t.send) in past.asked
    else if t.SendReady? then FromSend(decode, past, t.row) && !t.row.deleted
    else if t.EditResolved? then EditStart(t.user, t.channel, t.id, t.edit) in past.asked
    else if t.EditMember? then EditStart(t.user, t.channel, t.id, t.edit) in past.asked && (t.user, t.channel) in past.were
    else if t.EditReady? then
      && t.id in s.messages && s.messages[t.id].channel == t.channel
      && FromEdit(decode, past, s.messages[t.id].author, t.channel, t.id, t.content, t.envelope)
    else if t.DeleteResolved? then DeleteStart(t.user, t.isAdmin, t.channel, t.id) in past.asked
    else if t.DeleteMember? then DeleteStart(t.user, t.isAdmin, t.channel, t.id) in past.asked && (t.user, t.channel) in past.were
    else if t.DeleteReady? then
      && t.id in s.messages && s.messages[t.id].channel == t.channel
      && Removable(past, s.messages[t.id].author, t.channel, t.id)
    else true
  }

  ghost predicate AllAccounted(decode: Decoder, past: Past, earlier: map<MessageId, Message>, w: System) {
    && StoreAccounted(decode, past, earlier, w.store)
    && forall tid | tid in w.tasks :: TaskAccounted(decode, past, w.store, w.tasks[tid])
  }

  // ----- one step

  lemma SendAccounted(decode: Decoder, past: Past, earlier: map<MessageId, Message>, s: Store, t: Task, newId: nat)
    requires t.SendStart? || t.SendResolved? || t.SendReady? || t.SendStored?
    requires newId !in s.messages && StoreAccounted(decode, past, earlier, s) && TaskAccounted(decode, past, s, t) && Seen(past, s)
    ensures var e := AdvanceSend(decode, s, t, newId);
            StoreAccounted(decode, past, earlier, e.store) && TaskAccounted(decode, past, e.store, e.task)
  {
    hide FromEdit;
    hide Removable;
    if t.SendResolved? {
      hide E2eeBody;
      var body := E2eeBody(decode, t.e2ee, t.send.content, t.send.mls);
      if IsMember(s, t.channel, t.user) && SendAccepts(t.send) && body.Some? {
        var row := Message(t.channel, t.user, t.send.clientId, t.send.content, body.value, false);
        assert Sent(past, row, t.send) && Keeps(decode, t.send.content, t.send.mls, row.content, row.envelope);
      }
    } else if t.SendReady? {
      var r :| Sent(past, t.row, r) && Keeps(decode, r.content, r.mls, t.row.content, t.row.envelope);
      hide Keeps;
      assert Accounted(decode, past, earlier, newId, t.row);
    }
  }

  lemma EditAccounted(decode: Decoder, past: Past, earlier: map<MessageId, Message>, s: Store, t: Task)
    requires t.EditStart? || t.EditResolved? || t.EditMember? || t.EditReady? || t.EditStored?
    requires StoreAccounted(decode, past, earlier, s) && TaskAccounted(decode, past, s, t) && Seen(past, s)
    ensures var e := AdvanceEdit(decode, s, t);
            StoreAccounted(decode, past, earlier, e.store) && TaskAccounted(decode, past, e.store, e.task)
  {
    hide E2eeBody;
    hide Removable;
    if t.EditMember? {
      var body := E2eeBody(decode, t.e2ee, t.edit.content, t.edit.mls);
      if body.Some? { assert Keeps(decode, t.edit.content, t.edit.mls, t.edit.content, body.value); }
    } else if t.EditReady? {
      var m := s.messages[t.id];
      assert Accounted(decode, past, earlier, t.id, m);
      if !m.deleted { RewriteAccounted(decode, past, earlier, t.id, m, t.content, t.envelope); }
    }
  }

  /** Replacing a row's body by one its author asked for leaves it accounted for. */
  lemma RewriteAccounted(
    decode: Decoder, past: Past, earlier: map<MessageId, Message>, id: MessageId, m: Message, content: string, envelope: Option<Envelope>)
    requires Accounted(decode, past, earlier, id, m) && !m.deleted
    requires FromEdit(decode, past, m.author, m.channel, id, content, envelope)
    ensures Accounted(decode, past, earlier, id, m.(content := content, envelope := envelope))
  {
    hide Keeps;
    hide FromEdit;
    SentKept(past, m, m.(content := content, envelope := envelope));
  }

  lemma SentKept(past: Past, m: Message, n: Message)
    requires HasKey(n, m.channel, m.author, m.clientId)
    ensures IsSent(past, m) ==> IsSent(past, n)
  {
    if IsSent(past, m) {
      var r :| Sent(past, m, r);
      assert Sent(past, n, r);
    }
  }

  lemma DeleteAccounted(decode: Decoder, past: Past, earlier: map<MessageId, Message>, s: Store, t: Task)
    requires t.DeleteStart? || t.DeleteResolved? || t.DeleteMember? || t.DeleteReady? || t.DeleteStored?
    requires StoreAccounted(decode, past, earlier, s) && TaskAccounted(decode, past, s, t) && Seen(past, s)
    ensures var e := AdvanceDelete(s, t);
            StoreAccounted(decode, past, earlier, e.store) && TaskAccounted(decode, past, e.store, e.task)
  {
    hide Keeps;
    hide FromSend;
    hide FromEdit;
    if t.DeleteReady? {
      var m := s.messages[t.id];
      assert Accounted(decode, past, earlier, t.id, m);
      var gone := m.(content := "", envelope := None, deleted := true);
      SentKept(past, m, gone);
    }
  }

  lemma TaskStays(decode: Decoder, past: Past, more: Past, s: Store, u: Store, t: Task)
    requires Within(past, more) && Grows(s, u) && TaskAccounted(decode, past, s, t)
    ensures TaskAccounted(decode, more, u, t)
  {
    hide Keeps;
  }

  lemma RowStays(decode: Decoder, past: Past, more: Past, earlier: map<MessageId, Message>, id: MessageId, m: Message)
    requires Within(past, more) && Accounted(decode, past, earlier, id, m)
    ensures Accounted(decode, more, earlier, id, m)
  {
    hide Keeps;
    assert forall r | Sent(past, m, r) :: Sent(more, m, r);
  }

  lemma AdvanceAccounted(decode: Decoder, past: Past, earlier: map<MessageId, Message>, s: Store, t: Task, newId: nat)
    requires newId !in s.messages && newId !in s.channels
    requires StoreAccounted(decode, past, earlier, s) && TaskAccounted(decode, past, s, t) && Seen(past, s)
    ensures var e := Advance(decode, s, t, newId);
            StoreAccounted(decode, past, earlier, e.store) && TaskAccounted(decode, past, e.store, e.task)
  {
    hide AdvanceSend;
    hide AdvanceEdit;
    hide AdvanceDelete;
    hide Accounted;
    if t.SendStart? || t.SendResolved? || t.SendReady? || t.SendStored? {
      SendAccounted(decode, past, earlier, s, t, newId);
    } else if t.EditStart? || t.EditResolved? || t.EditMember? || t.EditReady? || t.EditStored? {
      EditAccounted(decode, past, earlier, s, t);
    } else if t.DeleteStart? || t.DeleteResolved? || t.DeleteMember? || t.DeleteReady? || t.DeleteStored? {
      DeleteAccounted(decode, past, earlier, s, t);
    }
  }

  lemma StepAccounted(decode: Decoder, past: Past, more: Past, earlier: map<MessageId, Message>, w: System, step: Step)
    requires AllAccounted(decode, past, earlier, w) && Seen(past, w.store)
    requires Within(past, more) && (step.Begin? ==> step.task in more.asked)
    ensures AllAccounted(decode, more, earlier, Next(decode, w, step))
  {
    hide Advance;
    hide Accounted;
    hide Grows;
    hide Seen;
    var v := Next(decode, w, step);
    StepGrows(decode, w, step);
    forall id | id in w.store.messages ensures Accounted(decode, more, earlier, id, w.store.messages[id]) {
      RowStays(decode, past, more, earlier, id, w.store.messages[id]);
    }
    forall tid | tid in w.tasks ensures TaskAccounted(decode, more, v.store, w.tasks[tid]) {
      TaskStays(decode, past, more, w.store, v.store, w.tasks[tid]);
    }
    if step.Run? && step.tid in w.tasks && step.newId !in w.store.messages && step.newId !in w.store.channels {
      var e := Advance(decode, w.store, w.tasks[step.tid], step.newId);
      AdvanceAccounted(decode, past, earlier, w.store, w.tasks[step.tid], step.newId);
      StoreStays(decode, past, more, earlier, e.store);
      SameStore(e.store);
      TaskStays(decode, past, more, e.store, e.store, e.task);
    }
  }

  lemma SameStore(s: Store)
    ensures Grows(s, s)
  {
  }

  lemma StoreStays(decode: Decoder, past: Past, more: Past, earlier: map<MessageId, Message>, s: Store)
    requires Within(past, more) && StoreAccounted(decode, past, earlier, s)
    ensures StoreAccounted(decode, more, earlier, s)
  {
    hide Accounted;
    forall id | id in s.messages ensures Accounted(decode, more, earlier, id, s.messages[id]) {
      RowStays(decode, past, more, earlier, id, s.messages[id]);
    }
  }

  ghost function PastOf(decode: Decoder, w: System, steps: seq<Step>): Past { Past(Asked(steps), Were(decode, w, steps)) }

  lemma PastGrows(decode: Decoder, w: System, steps: seq<Step>)
    requires steps != []
    ensures var front, step := steps[..|steps| - 1], steps[|steps| - 1];
            && Within(PastOf(decode, w, front), PastOf(decode, w, steps))
            && (step.Begin? ==> step.task in PastOf(decode, w, steps).asked)
            && Seen(PastOf(decode, w, front), Exec(decode, w, front).store)
  {
    hide Exec;
    var front := steps[..|steps| - 1];
    assert front[..|front|] == front;
    forall t | t in Asked(front) ensures t in Asked(steps) {
      var k :| 0 <= k < |front| && front[k].Begin? && front[k].task == t;
      assert steps[k].task == t;
    }
    forall u, ch | (u, ch) in Were(decode, w, front) ensures (u, ch) in Were(decode, w, steps) {
      var n :| 0 <= n <= |front| && IsMember(Exec(decode, w, front[..n]).store, ch, u);
      assert front[..n] == steps[..n];
    }
    forall p | p in Were(decode, w, front) ensures p in Were(decode, w, steps) { assert p == (p.0, p.1); }
  }

  lemma {:induction false} RunAccounted(decode: Decoder, w: System, steps: seq<Step>)
    requires Initial(w)
    ensures AllAccounted(decode, PastOf(decode, w, steps), w.store.messages, Exec(decode, w, steps))
    decreases |steps|
  {
    hide Next;
    hide TaskAccounted;
    hide PastOf;
    if steps != [] {
      var front, step := steps[..|steps| - 1], steps[|steps| - 1];
      RunAccounted(decode, w, front);
      PastGrows(decode, w, steps);
      StepAccounted(decode, PastOf(decode, w, front), PastOf(decode, w, steps), w.store.messages, Exec(decode, w, front), step);
    }
  }

  ghost predicate Requested(steps: seq<Step>, t: Task) {
    exists k | 0 <= k < |steps| :: steps[k].Begin? && steps[k].task == t
  }

  /** u was a member of the channel in some state of the run. */
  ghost predicate WasMember(decode: Decoder, w: System, steps: seq<Step>, u: User, ch: ChannelId) {
    exists n | 0 <= n <= |steps| :: IsMember(Exec(decode, w, steps[..n]).store, ch, u)
  }

  lemma PastIsRequested(decode: Decoder, w: System, steps: seq<Step>)
    ensures forall t | t in PastOf(decode, w, steps).asked :: Requested(steps, t)
    ensures forall u, ch | (u, ch) in PastOf(decode, w, steps).were :: WasMember(decode, w, steps, u, ch)
  {
    hide Exec;
  }

  /**
   In every run, a message that has words or an envelope holds the very body of a
   send or an edit that its own author requested, as a member of the channel and
   within the bounds of the request, or the one it had before the run.
   */
  lemma WordsAreTheAuthors(decode: Decoder, w: System, steps: seq<Step>, id: MessageId)
    requires Initial(w)
    requires var s := Exec(decode, w, steps).store; id in s.messages && !s.messages[id].deleted
    ensures var m := Exec(decode, w, steps).store.messages[id];
            || (id in w.store.messages && m == w.store.messages[id])
            || (&& WasMember(decode, w, steps, m.author, m.channel)
                && exists r :: Requested(steps, SendStart(m.author, m.channel, r)) && r.clientId == m.clientId != 0
                               && r.storable && |r.content| <= 4000 && r.filesOk
                               && Keeps(decode, r.content, r.mls, m.content, m.envelope))
            || (&& WasMember(decode, w, steps, m.author, m.channel)
                && exists r :: Requested(steps, EditStart(m.author, m.channel, id, r))
                               && r.storable && (r.mls.None? ==> 1 <= |r.content| <= 4000)
                               && Keeps(decode, r.content, r.mls, m.content, m.envelope))
  {
    hide Exec;
    hide Keeps;
    hide TaskAccounted;
    hide PastOf;
    hide Requested;
    hide WasMember;
    RunAccounted(decode, w, steps);
    var m := Exec(decode, w, steps).store.messages[id];
    assert Accounted(decode, PastOf(decode, w, steps), w.store.messages, id, m);
    PastIsRequested(decode, w, steps);
  }

  /** In every run, a message is deleted only if its author, or an administrator, requested it as a member of the channel. */
  lemma DeletionsAreAuthorised(decode: Decoder, w: System, steps: seq<Step>, id: MessageId)
    requires Initial(w)
    requires var s := Exec(decode, w, steps).store; id in s.messages && s.messages[id].deleted
    requires id in w.store.messages ==> !w.store.messages[id].deleted
    ensures var m := Exec(decode, w, steps).store.messages[id];
            exists u, admin :: Requested(steps, DeleteStart(u, admin, m.channel, id)) && (u == m.author || admin)
                               && WasMember(decode, w, steps, u, m.channel)
  {
    hide Exec;
    hide Keeps;
    hide TaskAccounted;
    hide PastOf;
    hide Requested;
    hide WasMember;
    RunAccounted(decode, w, steps);
    var m := Exec(decode, w, steps).store.messages[id];
    assert Accounted(decode, PastOf(decode, w, steps), w.store.messages, id, m);
    PastIsRequested(decode, w, steps);
  }
}
