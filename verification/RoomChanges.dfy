/**
 What a channel-scoped request may change, over the operations of Visibility
 (server/internal/httpserver: message_handlers.go, channel_handlers.go;
 server/internal/authz/channels.go): whose rows an edit or a delete touches and
 what they become, field by field, and that nothing else moves.
 */
module RoomChanges {
  import opened Bytes
  import opened Visibility
  import C = Conversation
  import A = Authorship

  /** The envelope a request asks for, field by field. */
  ghost predicate Keeps(decode: Decoder, content: string, mls: Option<C.EnvelopeRequest>, row: Row) {
    A.Keeps(decode, content, mls, row.content, row.envelope)
  }

  /** Why a row may differ after a request of `caller`: a send of theirs, their own edit, or their delete. */
  ghost predicate RowMay(decode: Decoder, room: Room, caller: User, isAdmin: bool, op: Op, id: MessageId, after: Row) {
    if id !in room.messages then
      && op.Send? && op.newMessage == id && op.body.Some?
      && after.author == caller && after.clientId == op.body.value.clientId && !after.deleted
      && Keeps(decode, op.body.value.content, op.body.value.mls, after)
    else
      var row := room.messages[id];
      && after.author == row.author && after.clientId == row.clientId && !row.deleted
      && (|| (&& op.Edit? && op.message == id && op.edit.Some? && row.author == caller
              && !after.deleted && Keeps(decode, op.edit.value.content, op.edit.value.mls, after))
          || (&& op.Delete? && op.message == id && (row.author == caller || isAdmin)
              && after.deleted && after.content == "" && after.envelope == None))
  }

  /** A room keeps its kind, mode, creator and call, and everybody's read position but the caller's. */
  ghost predicate KeepsRest(room: Room, caller: User, op: Op, after: Room) {
    && after.kind == room.kind && after.e2ee == room.e2ee && after.creator == room.creator && after.call == room.call
    && (after.topic != room.topic ==> op.UpdateChannel? && op.topic == Some(after.topic) && |after.topic| <= 250 && room.kind != Direct)
    && (after.positions != room.positions ==>
          && op.SetRead? && op.read.Some? && op.read.value in room.messages && after.positions == room.positions[caller := op.read.value]
          && (caller in room.positions ==> room.positions[caller] < op.read.value))
    && (after.files != room.files ==>
          op.Upload? && op.data.Some? && after.files == room.files[op.newFile := File(caller, op.data.value)])
  }

  /** The rows of the room afterwards: those it had, unless the request may touch them, and at most the one it sends. */
  ghost predicate RowsMay(decode: Decoder, sc: Scope, op: Op, after: Room) {
    && (forall id | id in sc.room.messages :: id in after.messages)
    && forall id | id in after.messages ::
         || (id in sc.room.messages && after.messages[id] == sc.room.messages[id])
         || (op.Send? && op.newMessage == id)
         || RowMay(decode, sc.room, sc.caller, sc.isAdmin, op, id, after.messages[id])
  }

  /** All a request may do to its room. */
  ghost predicate Allowed(decode: Decoder, sc: Scope, op: Op, after: Room) {
    && KeepsRest(sc.room, sc.caller, op, after) && RowsMay(decode, sc, op, after)
    && (op.Send? && op.newMessage !in sc.room.messages && op.newMessage in after.messages ==>
          RowMay(decode, sc.room, sc.caller, sc.isAdmin, op, op.newMessage, after.messages[op.newMessage]))
    && (after.members != sc.room.members ==> op.AddMember? || op.RemoveMember?)
    && (after.group != sc.room.group ==> op.CreateGroup? || op.SubmitCommit?)
  }

  lemma UnchangedIsAllowed(decode: Decoder, sc: Scope, op: Op)
    ensures Allowed(decode, sc, op, sc.room)
  {
    hide RowMay;
  }

  lemma ChannelRest(decode: Decoder, shared: Shared, sc: Scope, op: Op)
    requires OnChannel(op)
    ensures Allowed(decode, sc, op, ActOnChannel(shared, sc, op).room)
  {
    hide RowMay;
  }

  lemma TransportRest(decode: Decoder, shared: Shared, sc: Scope, op: Op)
    requires !OnChannel(op) && !OnMessages(op)
    ensures Allowed(decode, sc, op, ActOnTransport(shared, sc, op).room)
  {
    hide RowMay;
    hide Claimed;
    hide Handed;
    hide KeysOf;
    hide Committed;
    hide Owners;
    UnchangedIsAllowed(decode, sc, op);
    if !op.CreateGroup? && !op.SubmitCommit? { TransportLeaves(shared, sc, op); }
  }

  lemma TransportLeaves(shared: Shared, sc: Scope, op: Op)
    requires !OnChannel(op) && !OnMessages(op) && !op.CreateGroup? && !op.SubmitCommit?
    ensures ActOnTransport(shared, sc, op).room == sc.room
  {
    hide Claimed;
    hide Handed;
    hide KeysOf;
  }

  lemma SendRest(decode: Decoder, shared: Shared, sc: Scope, op: Op)
    requires op.Send?
    ensures Allowed(decode, sc, op, ActOnMessages(decode, shared, sc, op).room)
  {
    hide C.E2eeBody;
    hide C.SendAccepts;
    hide SameKey;
  }

  lemma EditRest(decode: Decoder, shared: Shared, sc: Scope, op: Op)
    requires op.Edit?
    ensures Allowed(decode, sc, op, ActOnMessages(decode, shared, sc, op).room)
  {
    hide C.E2eeBody;
  }

  lemma OtherRest(decode: Decoder, shared: Shared, sc: Scope, op: Op)
    requires OnMessages(op) && !op.Send? && !op.Edit?
    ensures Allowed(decode, sc, op, ActOnMessages(decode, shared, sc, op).room)
  {
    hide ActOnMessages;
    hide Allowed;
    if op.Delete? { DeleteRest(decode, shared, sc, op); } else { ReadRest(decode, shared, sc, op); }
  }

  lemma DeleteRest(decode: Decoder, shared: Shared, sc: Scope, op: Op)
    requires op.Delete?
    ensures Allowed(decode, sc, op, ActOnMessages(decode, shared, sc, op).room)
  {
  }

  lemma ReadRest(decode: Decoder, shared: Shared, sc: Scope, op: Op)
    requires op.ListMessages? || op.SetRead? || op.Upload?
    ensures Allowed(decode, sc, op, ActOnMessages(decode, shared, sc, op).room)
  {
    hide RowMay;
  }

  lemma ActChanges(decode: Decoder, shared: Shared, sc: Scope, op: Op)
    ensures Allowed(decode, sc, op, Act(decode, shared, sc, op).room)
  {
    hide Allowed;
    hide ActOnChannel;
    hide ActOnMessages;
    hide ActOnTransport;
    UnchangedIsAllowed(decode, sc, op);
    if OnChannel(op) { ChannelRest(decode, shared, sc, op); }
    else if op.Send? { SendRest(decode, shared, sc, op); }
    else if op.Edit? { EditRest(decode, shared, sc, op); }
    else if OnMessages(op) { OtherRest(decode, shared, sc, op); }
    else { TransportRest(decode, shared, sc, op); }
  }

  lemma MessageKeyHeld(room: Room, id: MessageId)
    requires id in room.messages
    ensures MessageKey(id) in Holds(room)
  {
  }

  /** A send under an id the room already holds stores nothing: no row is overwritten. */
  lemma SentIsNew(decode: Decoder, s: State, v: User, ch: ChannelId, op: Op)
    requires ch in s.rooms && op.Send? && op.newMessage in s.rooms[ch].messages
    ensures Handle(decode, s, v, ch, op).state == s
  {
    hide Keys;
    hide C.E2eeBody;
    hide C.SendAccepts;
    hide SameKey;
    MessageKeyHeld(s.rooms[ch], op.newMessage);
    assert Taken(s, MessageKey(op.newMessage));
    assert s.rooms[ch := s.rooms[ch]] == s.rooms;
  }

  /**
   Over the whole server: a request leaves every other room as it is, and every
   row of its own room, unless it is the row its caller sends, edits as its author,
   or deletes as its author or as an administrator.
   */
  lemma RequestChangesOnly(decode: Decoder, s: State, v: User, ch: ChannelId, op: Op, c: ChannelId, id: MessageId)
    requires c in s.rooms
    ensures var t := Handle(decode, s, v, ch, op).state;
            && c in t.rooms
            && (c != ch ==> t.rooms[c] == s.rooms[c])
            && (c == ch ==>
                  && KeepsRest(s.rooms[c], v, op, t.rooms[c])
                  && (t.rooms[c].members != s.rooms[c].members ==> op.AddMember? || op.RemoveMember?)
                  && (t.rooms[c].group != s.rooms[c].group ==> op.CreateGroup? || op.SubmitCommit?)
                  && (id in s.rooms[c].messages ==> id in t.rooms[c].messages)
                  && (id in t.rooms[c].messages ==>
                        || (id in s.rooms[c].messages && t.rooms[c].messages[id] == s.rooms[c].messages[id])
                        || RowMay(decode, s.rooms[c], v, v in s.shared.users && s.shared.users[v], op, id, t.rooms[c].messages[id])))
  {
    hide Act;
    hide RowMay;
    hide Taken;
    hide KeepsRest;
    if ch in s.rooms {
      var sc := ScopeOf(s, v, ch);
      ActChanges(decode, s.shared, sc, op);
      UnchangedIsAllowed(decode, sc, op);
      if op.Send? && op.newMessage in s.rooms[ch].messages { SentIsNew(decode, s, v, ch, op); }
    }
  }

  // ----- what an edit and a delete come to

  /** A body that may replace a message's: text on a plaintext channel, an envelope alone on an encrypted one. */
  ghost predicate Replaces(decode: Decoder, e2ee: bool, r: C.EditRequest) {
    && r.storable
    && (!e2ee ==> r.mls.None? && 1 <= |r.content| <= 4000)
    && (e2ee ==>
          && r.mls.Some? && r.content == "" && r.mls.value.epoch >= 0
          && 1 <= |r.mls.value.ciphertext| <= 45000 && decode(r.mls.value.ciphertext).Some?
          && (r.mls.value.mentions.Some? ==> |r.mls.value.mentions.value| <= 50))
  }

  /** Only this row of this room differs. */
  ghost predicate OnlyRow(s: State, ch: ChannelId, id: MessageId, t: State) {
    && ch in s.rooms && t.shared == s.shared && t.rooms.Keys == s.rooms.Keys
    && (forall c | c in s.rooms && c != ch :: t.rooms[c] == s.rooms[c])
    && id in s.rooms[ch].messages && id in t.rooms[ch].messages
    && t.rooms[ch] == s.rooms[ch].(messages := s.rooms[ch].messages[id := t.rooms[ch].messages[id]])
  }

  /** The message as the caller may know it: in a room of theirs. */
  ghost predicate InReach(s: State, v: User, ch: ChannelId, id: MessageId) { Sees(s, v, ch) && id in s.rooms[ch].messages }

  lemma EditOfRow(decode: Decoder, shared: Shared, sc: Scope, op: Op)
    requires op.Edit? && sc.member && op.message in sc.room.messages
    ensures var m, e := sc.room.messages[op.message], Act(decode, shared, sc, op);
            && e.shared == shared && e.inserts.None?
            && (if m.author == sc.caller && !m.deleted && op.edit.Some? && Replaces(decode, sc.room.e2ee, op.edit.value) then
                  && e.response == Stored(MessageKey(op.message)) && e.events == [Message(sc.channel, op.message)]
                  && op.message in e.room.messages
                  && e.room == sc.room.(messages := sc.room.messages[op.message := e.room.messages[op.message]])
                  && e.room.messages[op.message].author == m.author && e.room.messages[op.message].clientId == m.clientId
                  && !e.room.messages[op.message].deleted
                  && Keeps(decode, op.edit.value.content, op.edit.value.mls, e.room.messages[op.message])
                else
                  && e.room == sc.room && e.events == []
                  && (m.author != sc.caller <==> e.response == Forbidden)
                  && (m.author == sc.caller && m.deleted <==> e.response == Conflict("message_deleted"))
                  && (m.author == sc.caller && !m.deleted <==> e.response.BadRequest?))
  {
    hide C.E2eeBody;
    hide ActOnChannel;
    hide ActOnTransport;
  }

  /**
   An edit, for every caller, message and body: a message out of reach is the
   channel's own 404, somebody else's message is refused to everyone, a deleted
   one stays deleted, and otherwise exactly that row takes exactly that body.
   */
  lemma EditHandled(decode: Decoder, s: State, v: User, ch: ChannelId, id: MessageId, edit: Option<C.EditRequest>)
    ensures var o := Handle(decode, s, v, ch, Edit(id, edit));
            if !InReach(s, v, ch, id) then o == Outcome(s, ChannelNotFound, [])
            else
              var room, m := s.rooms[ch], s.rooms[ch].messages[id];
              if m.author == v && !m.deleted && edit.Some? && Replaces(decode, room.e2ee, edit.value) then
                && o.response == Stored(MessageKey(id)) && o.events == [Message(ch, id)] && OnlyRow(s, ch, id, o.state)
                && var n := o.state.rooms[ch].messages[id];
                   && n.author == m.author && n.clientId == m.clientId && !n.deleted
                   && Keeps(decode, edit.value.content, edit.value.mls, n)
              else
                && o.state == s && o.events == []
                && (m.author != v <==> o.response == Forbidden)
                && (m.author == v && m.deleted <==> o.response == Conflict("message_deleted"))
                && (m.author == v && !m.deleted <==> o.response.BadRequest?)
  {
    hide Act;
    hide Replaces;
    hide Keeps;
    hide Taken;
    var op := Edit(id, edit);
    if !Sees(s, v, ch) {
      StrangerLearnsNothing(decode, s, v, ch, op);
    } else {
      assert s.rooms[ch := s.rooms[ch]] == s.rooms;
      var sc := ScopeOf(s, v, ch);
      if id in s.rooms[ch].messages { EditOfRow(decode, s.shared, sc, op); } else { MissingRow(decode, s.shared, sc, op, id); }
    }
  }

  lemma MissingRow(decode: Decoder, shared: Shared, sc: Scope, op: Op, id: MessageId)
    requires sc.member && id !in sc.room.messages && ((op.Edit? && op.message == id) || op == Delete(id))
    ensures Act(decode, shared, sc, op) == Answer(shared, sc, ChannelNotFound)
  {
  }

  lemma DeleteOfRow(decode: Decoder, shared: Shared, sc: Scope, op: Op)
    requires op.Delete? && sc.member && op.message in sc.room.messages
    ensures var m, e := sc.room.messages[op.message], Act(decode, shared, sc, op);
            && e.shared == shared && e.inserts.None?
            && (if (m.author == sc.caller || sc.isAdmin) && !m.deleted then
                  && e.response == NoContent && e.events == [Message(sc.channel, op.message)]
                  && e.room == sc.room.(messages := sc.room.messages[op.message := Row(m.author, m.clientId, "", None, true)])
                else
                  && e.room == sc.room && e.events == []
                  && e.response == if m.author == sc.caller || sc.isAdmin then NoContent else Forbidden)
  {
    hide ActOnChannel;
    hide ActOnTransport;
  }

  /**
   A delete, for every caller and message: the author or an administrator in the
   room erases exactly that row, once; asked again it answers the same and changes
   nothing.
   */
  lemma DeleteHandled(decode: Decoder, s: State, v: User, ch: ChannelId, id: MessageId)
    ensures var o := Handle(decode, s, v, ch, Delete(id));
            if !InReach(s, v, ch, id) then o == Outcome(s, ChannelNotFound, [])
            else
              var m := s.rooms[ch].messages[id];
              var may := m.author == v || (v in s.shared.users && s.shared.users[v]);
              if may && !m.deleted then
                && o.response == NoContent && o.events == [Message(ch, id)] && OnlyRow(s, ch, id, o.state)
                && o.state.rooms[ch].messages[id] == Row(m.author, m.clientId, "", None, true)
              else o == Outcome(s, if may then NoContent else Forbidden, [])
  {
    hide Act;
    hide Taken;
    var op := Delete(id);
    if !Sees(s, v, ch) {
      StrangerLearnsNothing(decode, s, v, ch, op);
    } else {
      assert s.rooms[ch := s.rooms[ch]] == s.rooms;
      var sc := ScopeOf(s, v, ch);
      if id in s.rooms[ch].messages { DeleteOfRow(decode, s.shared, sc, op); } else { MissingRow(decode, s.shared, sc, op, id); }
    }
  }

  /** Deleting twice answers twice and changes once. */
  lemma DeleteAgain(decode: Decoder, s: State, v: User, ch: ChannelId, id: MessageId)
    ensures var once := Handle(decode, s, v, ch, Delete(id));
            Handle(decode, once.state, v, ch, Delete(id)) == Outcome(once.state, once.response, [])
  {
    hide Handle;
    hide Sees;
    var t := Handle(decode, s, v, ch, Delete(id)).state;
    DeleteHandled(decode, s, v, ch, id);
    DeleteHandled(decode, t, v, ch, id);
    if OnlyRow(s, ch, id, t) { SeenStill(s, t, v, ch, id); }
  }

  lemma SeenStill(s: State, t: State, v: User, ch: ChannelId, id: MessageId)
    requires OnlyRow(s, ch, id, t)
    ensures InReach(s, v, ch, id) == InReach(t, v, ch, id)
  {
  }

  // ----- what a send comes to

  /** A body that may be sent to a room of this mode. */
  ghost predicate Sendable(decode: Decoder, e2ee: bool, r: C.SendRequest) {
    && r.clientId != 0 && r.storable && |r.content| <= 4000 && r.filesOk
    && (!e2ee ==> r.mls.None? && (r.content != "" || r.hasFiles))
    && (e2ee ==>
          && r.mls.Some? && r.content == "" && r.mls.value.epoch >= 0
          && 1 <= |r.mls.value.ciphertext| <= 45000 && decode(r.mls.value.ciphertext).Some?
          && (r.mls.value.mentions.Some? ==> |r.mls.value.mentions.value| <= 50))
  }

  /** The room already holds a message of this author under this client id. */
  ghost predicate AlreadySent(room: Room, v: User, clientId: nat) {
    exists k | k in room.messages :: room.messages[k].author == v && room.messages[k].clientId == clientId
  }

  lemma SendOfRow(decode: Decoder, shared: Shared, sc: Scope, op: Op)
    requires op.Send? && sc.member
    ensures var e, r := Act(decode, shared, sc, op), op.body;
            && e.shared == shared
            && (if r.None? || !Sendable(decode, sc.room.e2ee, r.value) then
                  e.room == sc.room && e.events == [] && e.inserts.None? && e.response.BadRequest?
                else if AlreadySent(sc.room, sc.caller, r.value.clientId) then
                  && e.room == sc.room && e.events == [] && e.inserts.None? && e.response.Rows?
                  && (forall k :: k in e.response.rows <==>
                        k in sc.room.messages && sc.room.messages[k].author == sc.caller && sc.room.messages[k].clientId == r.value.clientId)
                  && forall k | k in e.response.rows :: e.response.rows[k] == sc.room.messages[k]
                else
                  && e.inserts == Some(MessageKey(op.newMessage)) && e.clash == ServerError
                  && e.response == Stored(MessageKey(op.newMessage)) && e.events == [Message(sc.channel, op.newMessage)]
                  && op.newMessage in e.room.messages
                  && e.room == sc.room.(messages := sc.room.messages[op.newMessage := e.room.messages[op.newMessage]])
                  && var n := e.room.messages[op.newMessage];
                     n.author == sc.caller && n.clientId == r.value.clientId && !n.deleted && Keeps(decode, r.value.content, r.value.mls, n))
  {
    hide C.E2eeBody;
    hide ActOnChannel;
    hide ActOnTransport;
    if op.body.Some? {
      assert AlreadySent(sc.room, sc.caller, op.body.value.clientId) <==>
             exists k | k in sc.room.messages :: SameKey(sc, sc.room.messages[k], op.body.value);
    }
  }

  /**
   A send by somebody in the room, under an id no row has yet: refused exactly when
   its body may not be sent, answered with the stored message exactly when the same
   author used the client id before, and otherwise stored as one new row.
   */
  lemma SendHandled(decode: Decoder, s: State, v: User, ch: ChannelId, body: Option<C.SendRequest>, id: MessageId)
    requires Sees(s, v, ch) && !Taken(s, MessageKey(id))
    ensures var o := Handle(decode, s, v, ch, Send(body, id));
            var room := s.rooms[ch];
            if body.None? || !Sendable(decode, room.e2ee, body.value) then o.state == s && o.events == [] && o.response.BadRequest?
            else if AlreadySent(room, v, body.value.clientId) then
              && o.state == s && o.events == [] && o.response.Rows?
              && (forall k :: k in o.response.rows <==>
                    k in room.messages && room.messages[k].author == v && room.messages[k].clientId == body.value.clientId)
              && forall k | k in o.response.rows :: o.response.rows[k] == room.messages[k]
            else
              && o.response == Stored(MessageKey(id)) && o.events == [Message(ch, id)]
              && ch in o.state.rooms && id in o.state.rooms[ch].messages && id !in room.messages
              && var n := o.state.rooms[ch].messages[id];
                 && o.state == s.(rooms := s.rooms[ch := room.(messages := room.messages[id := n])])
                 && n.author == v && n.clientId == body.value.clientId && !n.deleted
                 && Keeps(decode, body.value.content, body.value.mls, n)
  {
    hide Act;
    hide Taken;
    hide Keeps;
    hide Sendable;
    hide AlreadySent;
    assert s.rooms[ch := s.rooms[ch]] == s.rooms;
    SendOfRow(decode, s.shared, ScopeOf(s, v, ch), Send(body, id));
    if id in s.rooms[ch].messages { IsTaken(s, ch, id); }
  }

  lemma IsTaken(s: State, ch: ChannelId, id: MessageId)
    requires ch in s.rooms && id in s.rooms[ch].messages
    ensures Taken(s, MessageKey(id))
  {
    hide Keys;
    MessageKeyHeld(s.rooms[ch], id);
  }

  // ----- who is in a room

  lemma ChannelMembers(shared: Shared, sc: Scope, op: Op, u: User)
    requires OnChannel(op) && sc.member
    ensures u in ActOnChannel(shared, sc, op).room.members <==>
              (u in sc.room.members && !Removes(sc, op, u)) || Invites(shared, sc, op, u)
  {
    hide Invites;
    hide Removes;
    hide Can;
    if op.AddMember? { InvitedJoins(shared, sc, op, u); }
    else if op.RemoveMember? { RemovedLeaves(shared, sc, op, u); }
    else { NeitherMoves(shared, sc, op, u); }
  }

  lemma InvitedJoins(shared: Shared, sc: Scope, op: Op, u: User)
    requires op.AddMember? && sc.member
    ensures !Removes(sc, op, u)
    ensures u in ActOnChannel(shared, sc, op).room.members <==> u in sc.room.members || Invites(shared, sc, op, u)
  {
  }

  lemma RemovedLeaves(shared: Shared, sc: Scope, op: Op, u: User)
    requires op.RemoveMember? && sc.member
    ensures !Invites(shared, sc, op, u)
    ensures u in ActOnChannel(shared, sc, op).room.members <==> u in sc.room.members && !Removes(sc, op, u)
  {
  }

  lemma NeitherMoves(shared: Shared, sc: Scope, op: Op, u: User)
    requires OnChannel(op) && !op.AddMember? && !op.RemoveMember?
    ensures !Removes(sc, op, u) && !Invites(shared, sc, op, u)
    ensures ActOnChannel(shared, sc, op).room.members == sc.room.members
  {
  }

  /**
   Over every request: somebody is in the room afterwards exactly when they were
   and are not removed, or are invited by it, where inviting takes a member of a
   room that is no direct message and removing takes oneself, the creator or an
   administrator in it, and never the last member.
   */
  lemma MembershipIff(decode: Decoder, s: State, v: User, ch: ChannelId, op: Op, u: User)
    requires ch in s.rooms
    ensures var t := Handle(decode, s, v, ch, op).state;
            ch in t.rooms &&
            (u in t.rooms[ch].members <==>
               || (u in s.rooms[ch].members &&
                   !(&& v in s.rooms[ch].members && op == RemoveMember(u) && s.rooms[ch].kind != Direct && s.rooms[ch].members != {u}
                     && (u == v || s.rooms[ch].creator == Some(v) || (v in s.shared.users && s.shared.users[v]))))
               || (v in s.rooms[ch].members && op == AddMember(Some(u)) && u != 0 && s.rooms[ch].kind != Direct && u in s.shared.users))
  {
    hide ActOnMessages;
    hide ActOnTransport;
    hide ActOnChannel;
    hide Taken;
    hide Allowed;
    var sc := ScopeOf(s, v, ch);
    if v !in s.rooms[ch].members {
      StrangerLearnsNothing(decode, s, v, ch, op);
    } else if OnChannel(op) {
      NoInsert(decode, s.shared, sc, op);
      ChannelMembers(s.shared, sc, op, u);
    } else {
      ActChanges(decode, s.shared, sc, op);
      OthersKeepMembers(decode, sc, op, Act(decode, s.shared, sc, op).room);
    }
  }

  lemma OthersKeepMembers(decode: Decoder, sc: Scope, op: Op, after: Room)
    requires Allowed(decode, sc, op, after) && !OnChannel(op)
    ensures after.members == sc.room.members
  {
    hide KeepsRest;
    hide RowsMay;
    hide RowMay;
  }

  lemma NoInsert(decode: Decoder, shared: Shared, sc: Scope, op: Op)
    requires OnChannel(op) && sc.member
    ensures Act(decode, shared, sc, op).inserts.None?
    ensures Act(decode, shared, sc, op).room == ActOnChannel(shared, sc, op).room
  {
    hide ActOnMessages;
    hide ActOnTransport;
  }
}
