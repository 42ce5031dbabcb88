/**
 Who can tell that a channel exists (server/internal/httpserver:
 channel_handlers.go, message_handlers.go, upload_handler.go, mls_handlers.go,
 call_handlers.go; server/internal/authz/channels.go).

 Each channel-scoped operation is modelled whole: the channel lookup, the
 authorization question it asks, what it refuses and what it changes. A body of
 None is one that does not decode. What an operation does to its own room
 depends on that room and on what no room owns; the rows it inserts under a key
 that is unique across all rooms are where rooms can meet.
 */
module Visibility {
  import opened Bytes
  import C = Conversation

  type User = nat       // 0 is uuid.Nil
  type ChannelId = nat
  type MessageId = nat
  type FileId = nat
  type DeviceId = nat
  type Blob = seq<byte>
  type Decoder = string -> Option<Blob>

  // ----- authz

  datatype Action =
    | ChannelRead | ChannelUpdate | ChannelMemberAdd | ChannelMemberRemove | MessageSend | MessageEdit | MessageDelete
    | ReadPositionSet | FileUpload | CallJoin | MlsRead | MlsWrite

  /** canChannel: membership gates everything, admins included. */
  predicate CanChannel(isAdmin: bool, action: Action, member: bool, creator: bool) {
    member && match action
              case ChannelMemberRemove => creator || isAdmin
              case MessageEdit => false
              case MessageDelete => false
              case _ => true
  }

  /** canMessage: editing is the author's alone, deleting also an admin member's. */
  predicate CanMessage(isAdmin: bool, action: Action, member: bool, author: bool) {
    member && match action
              case MessageEdit => author
              case MessageDelete => author || isAdmin
              case _ => false
  }

  // ----- state

  datatype Kind = Public | Private | Direct

  datatype Row = Row(author: User, clientId: nat, content: string, envelope: Option<C.Envelope>, deleted: bool)

  datatype File = File(uploader: User, data: Blob)

  /** A group's id, its epoch, its commits, and the Welcomes that came with them. */
  datatype Group = Group(id: Blob, epoch: nat, commits: map<nat, Blob>, welcomed: set<(nat, DeviceId)>)

  datatype Room = Room(
    kind: Kind, e2ee: bool, creator: Option<User>, topic: string, members: set<User>,
    messages: map<MessageId, Row>, positions: map<User, MessageId>, files: map<FileId, File>,
    group: Option<Group>, call: set<User>)

  /** A device of the directory: its owner, its signature key and its unclaimed key packages, oldest first. */
  datatype Device = Device(owner: User, key: Blob, pool: seq<Blob>)

  /** What no channel owns: accounts (with their admin flag), the device directory, configuration. */
  datatype Shared = Shared(users: map<User, bool>, devices: map<DeviceId, Device>, callsEnabled: bool, blobsEnabled: bool)

  datatype State = State(shared: Shared, rooms: map<ChannelId, Room>)

  /** The keys that are unique across all rooms: the row ids, and an MLS group's id. */
  datatype Unique = MessageKey(message: MessageId) | FileKey(file: FileId) | GroupKey(group: Blob)

  ghost function Keys(messages: set<MessageId>, files: set<FileId>, group: Option<Blob>): set<Unique> {
    (set id | id in messages :: MessageKey(id)) + (set id | id in files :: FileKey(id))
    + (if group.Some? then {GroupKey(group.value)} else {})
  }

  function GroupId(room: Room): Option<Blob> { if room.group.Some? then Some(room.group.value.id) else None }

  ghost function Holds(room: Room): set<Unique> { Keys(room.messages.Keys, room.files.Keys, GroupId(room)) }

  ghost predicate Taken(s: State, key: Unique) { exists ch | ch in s.rooms :: key in Holds(s.rooms[ch]) }

  datatype Op =
    | GetChannel
    | UpdateChannel(topic: Option<string>)
    | ListMembers(limit: Option<int>)
    | AddMember(user: Option<User>)
    | RemoveMember(target: User)
    | ListMessages(limit: Option<int>)
    | Send(body: Option<C.SendRequest>, newMessage: MessageId)
    | Edit(message: MessageId, edit: Option<C.EditRequest>)
    | Delete(message: MessageId)
    | SetRead(read: Option<MessageId>)
    | Upload(data: Option<Blob>, newFile: FileId)
    | GetGroup
    | CreateGroup(groupId: Option<Blob>)
    | ClaimPackages(whom: Option<User>)
    | ListDevices(limit: Option<int>)
    | ListCommits(after: int)
    | SubmitCommit(epoch: Option<int>, commit: Blob, recipients: set<DeviceId>)
    | GetCall
    | CallToken

  datatype Response =
    | ChannelNotFound | Forbidden | BadRequest(why: string) | NotFound(what: string) | Conflict(what: string) | Unavailable | ServerError
    | NoContent | Shown(room: Room) | Rows(rows: map<MessageId, Row>) | People(users: set<User>)
    | Packages(claimed: map<DeviceId, Blob>, missing: set<DeviceId>) | Roster(keys: map<User, set<Blob>>)
    | Epoch(id: Blob, epoch: nat) | Log(log: map<nat, Blob>) | Stored(key: Unique) | Ticket

  datatype Event =
    | RoomChanged(channel: ChannelId) | MemberAdded(channel: ChannelId, user: User) | MemberRemoved(channel: ChannelId, user: User)
    | Message(channel: ChannelId, id: MessageId) | ReadMoved(channel: ChannelId, user: User)
    | Commit(channel: ChannelId, epoch: nat)
    // to the named people's own sockets, whatever room they are in
    | ChannelCreated(user: User, channel: ChannelId) | ChannelRemoved(user: User, channel: ChannelId) | Welcomed(users: set<User>)

  /** The announcement is sent to u by name rather than to a room's members. */
  predicate Reaches(e: Event, u: User) {
    (e.ChannelCreated? && e.user == u) || (e.ChannelRemoved? && e.user == u) || (e.Welcomed? && u in e.users)
  }

  // ----- one request in its own room

  /** channelScope: the caller, the channel and the membership read for this request. */
  datatype Scope = Scope(caller: User, isAdmin: bool, channel: ChannelId, room: Room, member: bool)

  /** What a handler does: its room and the shared state afterwards, and the unique key of a row it inserts. */
  datatype Effect = Effect(
    shared: Shared, room: Room, response: Response, events: seq<Event>, inserts: Option<Unique>, clash: Response)

  function Answer(shared: Shared, sc: Scope, r: Response): Effect { Effect(shared, sc.room, r, [], None, r) }

  function Change(shared: Shared, room: Room, r: Response, events: seq<Event>): Effect { Effect(shared, room, r, events, None, r) }

  predicate Can(sc: Scope, action: Action) {
    CanChannel(sc.isAdmin, action, sc.member, sc.room.creator == Some(sc.caller))
  }

  /** deny: a stranger gets the channel's 404, a member lacking this one power a 403. */
  function Deny(sc: Scope): Response { if sc.member then Forbidden else ChannelNotFound }

  /** The action each operation asks authz about before anything else. */
  function Gate(op: Op): Option<Action> {
    match op
    case GetChannel => Some(ChannelRead)
    case UpdateChannel(_) => Some(ChannelUpdate)
    case ListMembers(_) => Some(ChannelRead)
    case AddMember(_) => Some(ChannelMemberAdd)
    case ListMessages(_) => Some(ChannelRead)
    case Send(_, _) => Some(MessageSend)
    case SetRead(_) => Some(ReadPositionSet)
    case Upload(_, _) => Some(FileUpload)
    case GetGroup => Some(MlsRead)
    case CreateGroup(_) => Some(MlsWrite)
    case ClaimPackages(_) => Some(MlsWrite)
    case ListDevices(_) => Some(MlsRead)
    case ListCommits(_) => Some(MlsRead)
    case SubmitCommit(_, _, _) => Some(MlsWrite)
    case GetCall => Some(ChannelRead)
    case CallToken => Some(CallJoin)
    case RemoveMember(_) => None  // asks after its own membership and shape checks
    case Edit(_, _) => None       // resolveMessage refuses non-members first
    case Delete(_) => None
  }

  predicate PageLimitOk(limit: Option<int>, max: int) { limit.None? || 1 <= limit.value <= max }

  predicate OnMessages(op: Op) { op.ListMessages? || op.Send? || op.Edit? || op.Delete? || op.SetRead? || op.Upload? }

  predicate OnChannel(op: Op) { op.GetChannel? || op.UpdateChannel? || op.ListMembers? || op.AddMember? || op.RemoveMember? }

  /** A request whose channel exists. */
  function Act(decode: Decoder, shared: Shared, sc: Scope, op: Op): Effect {
    var gate := Gate(op);
    if (gate.Some? && !Can(sc, gate.value)) || (gate.None? && !sc.member) then Answer(shared, sc, Deny(sc))
    else if OnChannel(op) then ActOnChannel(shared, sc, op)
    else if OnMessages(op) then ActOnMessages(decode, shared, sc, op)
    else ActOnTransport(shared, sc, op)
  }

  function ActOnChannel(shared: Shared, sc: Scope, op: Op): Effect
    requires OnChannel(op)
  {
    var ch, room := sc.channel, sc.room;
    match op
    case GetChannel => Answer(shared, sc, Shown(room))
    case UpdateChannel(topic) =>
      if topic.None? || |topic.value| > 250 then Answer(shared, sc, BadRequest("invalid_request"))
      else if room.kind == Direct then Answer(shared, sc, BadRequest("a direct message has no topic"))
      else Change(shared, room.(topic := topic.value), Shown(room.(topic := topic.value)), [RoomChanged(ch)])
    case ListMembers(limit) => Answer(shared, sc, if PageLimitOk(limit, 100) then People(room.members) else BadRequest("limit"))
    case AddMember(user) =>
      if user.None? || user.value == 0 then Answer(shared, sc, BadRequest("user_id is required"))
      else if room.kind == Direct then Answer(shared, sc, BadRequest("dm_membership_fixed"))
      else if user.value !in shared.users then Answer(shared, sc, NotFound("user_not_found"))
      else Change(shared, room.(members := room.members + {user.value}), NoContent,
                  [ChannelCreated(user.value, ch), MemberAdded(ch, user.value)])
    case RemoveMember(target) =>
      // the shape of a direct message before the permission
      if room.kind == Direct then Answer(shared, sc, BadRequest("dm_membership_fixed"))
      else if !Can(sc, if target == sc.caller then ChannelRead else ChannelMemberRemove) then Answer(shared, sc, Deny(sc))
      else if room.members == {target} then Answer(shared, sc, BadRequest("last_member"))
      else Change(shared, room.(members := room.members - {target}), NoContent,
                  [MemberRemoved(ch, target), ChannelRemoved(target, ch)])
  }

  predicate SameKey(sc: Scope, row: Row, r: C.SendRequest) { row.author == sc.caller && row.clientId == r.clientId }

  function ActOnMessages(decode: Decoder, shared: Shared, sc: Scope, op: Op): Effect
    requires OnMessages(op)
  {
    var ch, room := sc.channel, sc.room;
    match op
    case ListMessages(limit) => Answer(shared, sc, if PageLimitOk(limit, 100) then Rows(room.messages) else BadRequest("limit"))
    case Send(body, id) =>
      if body.None? || !C.SendAccepts(body.value) then Answer(shared, sc, BadRequest("invalid_request"))
      else
        var r := body.value;
        var kept := C.E2eeBody(decode, room.e2ee, r.content, r.mls);
        if kept.None? then Answer(shared, sc, BadRequest("e2ee"))
        else if r.content == "" && !r.hasFiles && kept.value.None? then Answer(shared, sc, BadRequest("empty"))
        else if exists k | k in room.messages :: SameKey(sc, room.messages[k], r)
        then Answer(shared, sc, Rows(map k | k in room.messages && SameKey(sc, room.messages[k], r) :: room.messages[k]))
        else
          Effect(shared, room.(messages := room.messages[id := Row(sc.caller, r.clientId, r.content, kept.value, false)]),
                 Stored(MessageKey(id)), [Message(ch, id)], Some(MessageKey(id)), ServerError)
    case Edit(id, edit) =>
      if id !in room.messages then Answer(shared, sc, ChannelNotFound)
      else
        var m := room.messages[id];
        if !CanMessage(sc.isAdmin, MessageEdit, sc.member, m.author == sc.caller) then Answer(shared, sc, Forbidden)
        else if m.deleted then Answer(shared, sc, Conflict("message_deleted"))
        else if edit.None? || !edit.value.storable then Answer(shared, sc, BadRequest("invalid_request"))
        else
          var kept := C.E2eeBody(decode, room.e2ee, edit.value.content, edit.value.mls);
          if kept.None? then Answer(shared, sc, BadRequest("e2ee"))
          else if kept.value.None? && !(1 <= |edit.value.content| <= C.MAX_CONTENT) then Answer(shared, sc, BadRequest("invalid_request"))
          else
            Change(shared, room.(messages := room.messages[id := m.(content := edit.value.content, envelope := kept.value)]),
                   Stored(MessageKey(id)), [Message(ch, id)])
    case Delete(id) =>
      if id !in room.messages then Answer(shared, sc, ChannelNotFound)
      else
        var m := room.messages[id];
        if !CanMessage(sc.isAdmin, MessageDelete, sc.member, m.author == sc.caller) then Answer(shared, sc, Forbidden)
        else if m.deleted then Answer(shared, sc, NoContent)
        else
          Change(shared, room.(messages := room.messages[id := m.(content := "", envelope := None, deleted := true)]),
                 NoContent, [Message(ch, id)])
    case SetRead(id) =>
      if id.None? || id.value !in room.messages then Answer(shared, sc, BadRequest("invalid_request"))
      else
        // a position at or behind the stored one is accepted and changes nothing
        var moved := sc.caller !in room.positions || room.positions[sc.caller] < id.value;
        Change(shared, if moved then room.(positions := room.positions[sc.caller := id.value]) else room, NoContent, [ReadMoved(ch, sc.caller)])
    case Upload(data, id) =>
      if !shared.blobsEnabled then Answer(shared, sc, ServerError)
      else if data.None? then Answer(shared, sc, BadRequest("invalid_request"))
      else
        Effect(shared, room.(files := room.files[id := File(sc.caller, data.value)]),
               Stored(FileKey(id)), [], Some(FileKey(id)), ServerError)
  }

  predicate Claimable(d: Device, whom: User) { d.owner == whom && d.pool != [] }

  /** The directory after one package of each of a user's devices was claimed. */
  function Claimed(devices: map<DeviceId, Device>, whom: User): map<DeviceId, Device> {
    map d | d in devices :: if Claimable(devices[d], whom) then devices[d].(pool := devices[d].pool[1..]) else devices[d]
  }

  /** The packages a claim hands out, and the devices that have none. */
  function Handed(devices: map<DeviceId, Device>, whom: User): Response {
    Packages(map d | d in devices && Claimable(devices[d], whom) :: devices[d].pool[0],
             set d | d in devices && devices[d].owner == whom && devices[d].pool == [])
  }

  function KeysOf(devices: map<DeviceId, Device>, u: User): set<Blob> { set d | d in devices && devices[d].owner == u :: devices[d].key }

  function Committed(g: Group, message: Blob, recipients: set<DeviceId>): Group {
    Group(g.id, g.epoch + 1, g.commits[g.epoch + 1 := message], g.welcomed + set d | d in recipients :: (g.epoch + 1, d))
  }

  function Owners(devices: map<DeviceId, Device>, ds: set<DeviceId>): set<User> { set d | d in ds && d in devices :: devices[d].owner }

  /** The encrypted transport and the call endpoints. */
  function ActOnTransport(shared: Shared, sc: Scope, op: Op): Effect
    requires !OnChannel(op) && !OnMessages(op)
  {
    var ch, room, devices := sc.channel, sc.room, shared.devices;
    match op
    case GetGroup =>
      Answer(shared, sc, if room.group.Some? then Epoch(room.group.value.id, room.group.value.epoch) else NotFound("mls_group_not_found"))
    case CreateGroup(id) =>
      if !room.e2ee then Answer(shared, sc, BadRequest("e2ee_not_enabled"))
      else if id.None? then Answer(shared, sc, BadRequest("invalid_request"))
      else if room.group.Some? then Answer(shared, sc, Conflict("mls_group_exists"))
      else
        Effect(shared, room.(group := Some(Group(id.value, 0, map[], {}))), Epoch(id.value, 0), [],
               Some(GroupKey(id.value)), Conflict("mls_group_exists"))
    case ClaimPackages(whom) =>
      if !room.e2ee then Answer(shared, sc, BadRequest("e2ee_not_enabled"))
      else if whom.None? || whom.value == 0 then Answer(shared, sc, BadRequest("user_id is required"))
      else if whom.value !in room.members then Answer(shared, sc, NotFound("member_not_found"))
      else
        Change(shared.(devices := Claimed(devices, whom.value)), room, Handed(devices, whom.value), [])
    case ListDevices(limit) =>
      if !room.e2ee then Answer(shared, sc, BadRequest("e2ee_not_enabled"))
      else Answer(shared, sc, if PageLimitOk(limit, 200) then Roster(map u | u in room.members :: KeysOf(devices, u)) else BadRequest("limit"))
    case ListCommits(after) =>
      Answer(shared, sc,
             if after < 0 then BadRequest("after_epoch")
             else if room.group.None? then Log(map[])
             else Log(map e | e in room.group.value.commits && e > after :: room.group.value.commits[e]))
    case SubmitCommit(epoch, message, recipients) =>
      if epoch.None? || epoch.value < 0 then Answer(shared, sc, BadRequest("invalid_request"))
      else if room.group.None? then Answer(shared, sc, NotFound("mls_group_not_found"))
      else if room.group.value.epoch != epoch.value then Answer(shared, sc, Conflict("mls_epoch_conflict"))
      else if exists d | d in recipients :: d in devices && devices[d].owner !in room.members then Answer(shared, sc, BadRequest("outsider"))
      else if exists d | d in recipients :: d !in devices then Answer(shared, sc, BadRequest("device"))
      else
        Change(shared, room.(group := Some(Committed(room.group.value, message, recipients))),
               Epoch(room.group.value.id, room.group.value.epoch + 1),
               [Commit(ch, room.group.value.epoch + 1), Welcomed(Owners(devices, recipients))])
    case GetCall => Answer(shared, sc, People(room.call))
    case CallToken => Answer(shared, sc, if shared.callsEnabled then Ticket else Unavailable)
  }

  // ----- a request against the whole server

  datatype Outcome = Outcome(state: State, response: Response, events: seq<Event>)

  function ScopeOf(s: State, caller: User, ch: ChannelId): Scope
    requires ch in s.rooms
  {
    Scope(caller, caller in s.shared.users && s.shared.users[caller], ch, s.rooms[ch], caller in s.rooms[ch].members)
  }

  /** resolveChannel, then the handler; a key already taken anywhere undoes the insert. */
  ghost function Handle(decode: Decoder, s: State, caller: User, ch: ChannelId, op: Op): Outcome {
    if ch !in s.rooms then Outcome(s, ChannelNotFound, [])
    else
      var e := Act(decode, s.shared, ScopeOf(s, caller, ch), op);
      if e.inserts.Some? && Taken(s, e.inserts.value) then Outcome(s, e.clash, [])
      else Outcome(State(e.shared, s.rooms[ch := e.room]), e.response, e.events)
  }

  /** The unique key a request gets as far as inserting. */
  ghost function Attempt(decode: Decoder, s: State, caller: User, ch: ChannelId, op: Op): Option<Unique> {
    if ch in s.rooms then Act(decode, s.shared, ScopeOf(s, caller, ch), op).inserts else None
  }

  /** The unique key an operation names: a generated row id, or the group id the caller chose. */
  function Named(op: Op): Option<Unique> {
    match op
    case Send(_, id) => Some(MessageKey(id))
    case Upload(_, id) => Some(FileKey(id))
    case CreateGroup(id) => if id.Some? then Some(GroupKey(id.value)) else None
    case _ => None
  }

  // ----- what an effect touches

  /** The request is a claim that takes somebody's key package. */
  ghost predicate TakesPackage(shared: Shared, sc: Scope, op: Op) {
    && sc.member && sc.room.e2ee && op.ClaimPackages? && op.whom.Some? && op.whom.value != 0 && op.whom.value in sc.room.members
    && exists d | d in shared.devices :: Claimable(shared.devices[d], op.whom.value)
  }

  /** The request puts u into the room. */
  predicate Invites(shared: Shared, sc: Scope, op: Op, u: User) {
    sc.member && op == AddMember(Some(u)) && u != 0 && sc.room.kind != Direct && u in shared.users
  }

  /** The request removes u from the room, where u need not be in it. */
  predicate Removes(sc: Scope, op: Op, u: User) {
    && sc.member && op == RemoveMember(u) && sc.room.kind != Direct && sc.room.members != {u}
    && (u == sc.caller || sc.room.creator == Some(sc.caller) || sc.isAdmin)
  }

  /** Who is told by name: whoever is invited or removed, and of others only members of the room. */
  ghost predicate Tells(shared: Shared, sc: Scope, op: Op, events: seq<Event>) {
    forall u | u !in sc.room.members ::
      (exists e | e in events :: Reaches(e, u)) <==> Invites(shared, sc, op, u) || Removes(sc, op, u)
  }

  lemma ChannelTells(shared: Shared, sc: Scope, op: Op)
    requires OnChannel(op) && sc.member
    ensures Tells(shared, sc, op, ActOnChannel(shared, sc, op).events)
  {
    var events := ActOnChannel(shared, sc, op).events;
    if op.AddMember? && events != [] { assert Reaches(events[0], op.user.value); }
    if op.RemoveMember? && events != [] { assert Reaches(events[1], op.target); }
  }

  lemma OthersTell(decode: Decoder, shared: Shared, sc: Scope, op: Op)
    requires !OnChannel(op) && sc.member
    ensures OnMessages(op) ==> Tells(shared, sc, op, ActOnMessages(decode, shared, sc, op).events)
    ensures !OnMessages(op) ==> Tells(shared, sc, op, ActOnTransport(shared, sc, op).events)
  {
    hide C.E2eeBody;
    hide C.SendAccepts;
    hide SameKey;
    hide Claimed;
    hide Handed;
    hide KeysOf;
    hide Committed;
  }

  lemma ActTells(decode: Decoder, shared: Shared, sc: Scope, op: Op)
    ensures Tells(shared, sc, op, Act(decode, shared, sc, op).events)
  {
    hide ActOnChannel;
    hide ActOnMessages;
    hide ActOnTransport;
    hide Reaches;
    if sc.member {
      if OnChannel(op) { ChannelTells(shared, sc, op); } else { OthersTell(decode, shared, sc, op); }
    }
  }

  ghost predicate Touches(shared: Shared, sc: Scope, op: Op, e: Effect) {
    && (e.shared != shared <==> TakesPackage(shared, sc, op))
    && Holds(e.room) == Holds(sc.room) + (if e.inserts.Some? then {e.inserts.value} else {})
    && (e.inserts.Some? ==> e.inserts == Named(op) && e.response != e.clash)
    && forall u | u !in sc.room.members :: u in e.room.members <==> Invites(shared, sc, op, u)
  }

  lemma MoreKeys(messages: set<MessageId>, files: set<FileId>, group: Option<Blob>, id: nat, g: Blob)
    ensures Keys(messages + {id}, files, group) == Keys(messages, files, group) + {MessageKey(id)}
    ensures Keys(messages, files + {id}, group) == Keys(messages, files, group) + {FileKey(id)}
    ensures group.None? ==> Keys(messages, files, Some(g)) == Keys(messages, files, group) + {GroupKey(g)}
  {
  }

  lemma NoClaim(shared: Shared, sc: Scope, op: Op)
    ensures !op.ClaimPackages? ==> !TakesPackage(shared, sc, op)
  {
  }

  lemma ChannelTouches(shared: Shared, sc: Scope, op: Op)
    requires OnChannel(op) && sc.member
    ensures Touches(shared, sc, op, ActOnChannel(shared, sc, op))
  {
    hide Keys;
    hide TakesPackage;
    NoClaim(shared, sc, op);
  }

  lemma SendTouches(decode: Decoder, shared: Shared, sc: Scope, op: Op)
    requires op.Send? && sc.member
    ensures Touches(shared, sc, op, ActOnMessages(decode, shared, sc, op))
  {
    hide Keys;
    hide TakesPackage;
    NoClaim(shared, sc, op);
    hide SameKey;
    hide C.E2eeBody;
    hide C.SendAccepts;
    MoreKeys(sc.room.messages.Keys, sc.room.files.Keys, GroupId(sc.room), op.newMessage, []);
    var e := ActOnMessages(decode, shared, sc, op);
    if e.inserts.Some? {
      assert e.room.messages.Keys == sc.room.messages.Keys + {op.newMessage};
    } else {
      assert e.room == sc.room && e.shared == shared;
    }
  }

  lemma RowTouches(decode: Decoder, shared: Shared, sc: Scope, op: Op)
    requires (op.Edit? || op.Delete?) && sc.member
    ensures Touches(shared, sc, op, ActOnMessages(decode, shared, sc, op))
  {
    hide Keys;
    hide TakesPackage;
    NoClaim(shared, sc, op);
    hide C.E2eeBody;
    assert ActOnMessages(decode, shared, sc, op).room.messages.Keys == sc.room.messages.Keys;
  }

  lemma ReadTouches(decode: Decoder, shared: Shared, sc: Scope, op: Op)
    requires (op.ListMessages? || op.SetRead? || op.Upload?) && sc.member
    ensures Touches(shared, sc, op, ActOnMessages(decode, shared, sc, op))
  {
    hide Keys;
    hide TakesPackage;
    NoClaim(shared, sc, op);
    if op.Upload? {
      var e := ActOnMessages(decode, shared, sc, op);
      MoreKeys(sc.room.messages.Keys, sc.room.files.Keys, GroupId(sc.room), op.newFile, []);
      assert e.room.files.Keys == sc.room.files.Keys + if e.inserts.Some? then {op.newFile} else {};
    }
  }

  lemma TransportReads(shared: Shared, sc: Scope, op: Op)
    requires !OnChannel(op) && !OnMessages(op) && sc.member
    requires !op.CreateGroup? && !op.SubmitCommit? && !op.ClaimPackages?
    ensures Touches(shared, sc, op, ActOnTransport(shared, sc, op))
  {
    hide Keys;
    hide KeysOf;
    hide TakesPackage;
    NoClaim(shared, sc, op);
  }

  lemma ClaimWrites(shared: Shared, sc: Scope, op: Op)
    requires op.ClaimPackages? && sc.member
    ensures Touches(shared, sc, op, ActOnTransport(shared, sc, op))
  {
    hide Keys;
    hide Claimed;
    hide Claimable;
    hide Handed;
    if op.whom.Some? { ClaimTouches(shared.devices, op.whom.value); }
  }

  lemma GroupWrites(shared: Shared, sc: Scope, op: Op)
    requires (op.CreateGroup? || op.SubmitCommit?) && sc.member
    ensures Touches(shared, sc, op, ActOnTransport(shared, sc, op))
  {
    hide Keys;
    hide Owners;
    hide TakesPackage;
    NoClaim(shared, sc, op);
    if op.CreateGroup? && op.groupId.Some? {
      MoreKeys(sc.room.messages.Keys, sc.room.files.Keys, GroupId(sc.room), 0, op.groupId.value);
    }
  }

  lemma ClaimTouches(devices: map<DeviceId, Device>, whom: User)
    ensures Claimed(devices, whom) != devices <==> exists d | d in devices :: Claimable(devices[d], whom)
  {
    if d :| d in devices && Claimable(devices[d], whom) {
      assert |Claimed(devices, whom)[d].pool| < |devices[d].pool|;
    } else {
      assert Claimed(devices, whom) == devices;
    }
  }

  lemma RefusalTouches(shared: Shared, sc: Scope, op: Op)
    requires !sc.member
    ensures Touches(shared, sc, op, Answer(shared, sc, ChannelNotFound))
  {
    hide Keys;
  }

  /** What every request does: it takes from a pool, holds and invites exactly as named. */
  lemma ActTouches(decode: Decoder, shared: Shared, sc: Scope, op: Op)
    ensures Touches(shared, sc, op, Act(decode, shared, sc, op))
    ensures !sc.member ==> Act(decode, shared, sc, op) == Answer(shared, sc, ChannelNotFound)
  {
    hide Touches;
    hide ActOnChannel;
    hide ActOnMessages;
    hide ActOnTransport;
    if sc.member {
      if OnChannel(op) { ChannelTouches(shared, sc, op); }
      else if op.Send? { SendTouches(decode, shared, sc, op); }
      else if op.Edit? || op.Delete? { RowTouches(decode, shared, sc, op); }
      else if OnMessages(op) { ReadTouches(decode, shared, sc, op); }
      else if op.ClaimPackages? { ClaimWrites(shared, sc, op); }
      else if op.CreateGroup? || op.SubmitCommit? { GroupWrites(shared, sc, op); }
      else { TransportReads(shared, sc, op); }
    } else {
      RefusalTouches(shared, sc, op);
    }
  }

  // ----- what a caller can see

  predicate Sees(s: State, u: User, ch: ChannelId) { ch in s.rooms && u in s.rooms[ch].members }

  /** Two states that differ only in rooms u is not in: what they hold, who is in them, whether they exist. */
  ghost predicate SameFor(u: User, s: State, t: State) {
    && s.shared == t.shared
    && forall ch {:trigger Sees(s, u, ch)} {:trigger Sees(t, u, ch)} ::
         Sees(s, u, ch) == Sees(t, u, ch) && (Sees(s, u, ch) ==> s.rooms[ch] == t.rooms[ch])
  }

  ghost predicate HeldIn(s: State, ch: ChannelId, key: Unique) { ch in s.rooms && key in Holds(s.rooms[ch]) }

  /** Some room u is in holds the key. */
  ghost predicate SeenHolds(s: State, u: User, key: Unique) { exists ch :: Sees(s, u, ch) && HeldIn(s, ch, key) }

  /** Some room u is not in holds the key. */
  ghost predicate HiddenHolds(s: State, u: User, key: Unique) { exists ch :: !Sees(s, u, ch) && HeldIn(s, ch, key) }

  lemma TakenSomewhere(s: State, u: User, key: Unique)
    ensures Taken(s, key) <==> SeenHolds(s, u, key) || HiddenHolds(s, u, key)
  {
    hide Holds;
    if ch :| ch in s.rooms && key in Holds(s.rooms[ch]) { assert HeldIn(s, ch, key) && (Sees(s, u, ch) || !Sees(s, u, ch)); }
  }

  lemma SeenAlike(s: State, t: State, u: User, key: Unique)
    requires SameFor(u, s, t)
    ensures SeenHolds(s, u, key) == SeenHolds(t, u, key)
  {
    hide Holds;
    if ch :| Sees(s, u, ch) && HeldIn(s, ch, key) { assert Sees(t, u, ch) && HeldIn(t, ch, key); }
    if ch :| Sees(t, u, ch) && HeldIn(t, ch, key) { assert Sees(s, u, ch) && HeldIn(s, ch, key); }
  }

  /**
   A caller outside the channel, admin or not, gets exactly the answer of a
   channel that does not exist, for every operation and every body; nothing
   changes and nothing is announced.
   */
  lemma StrangerLearnsNothing(decode: Decoder, s: State, u: User, ch: ChannelId, op: Op)
    requires !Sees(s, u, ch)
    ensures Handle(decode, s, u, ch, op) == Outcome(s, ChannelNotFound, [])
    ensures var gone := s.(rooms := s.rooms - {ch});
            Handle(decode, gone, u, ch, op) == Outcome(gone, ChannelNotFound, [])
  {
    hide Act;
    hide Touches;
    if ch in s.rooms {
      ActTouches(decode, s.shared, ScopeOf(s, u, ch), op);
      assert s.rooms[ch := s.rooms[ch]] == s.rooms;
    }
  }

  // ----- one request, two states

  /** The same answer, the same announcements, and states the observer still cannot tell apart. */
  ghost predicate AlikeFor(u: User, a: Outcome, b: Outcome) {
    a.response == b.response && a.events == b.events && SameFor(u, a.state, b.state)
  }

  /** The key of an attempted insert is held where u can see, or alike in the rooms u cannot. */
  ghost predicate ClashesAlike(s: State, t: State, u: User, attempt: Option<Unique>) {
    attempt.Some? ==> SeenHolds(s, u, attempt.value) || HiddenHolds(s, u, attempt.value) == HiddenHolds(t, u, attempt.value)
  }

  lemma SetRoomAlike(s: State, t: State, u: User, ch: ChannelId, room: Room, shared: Shared)
    requires SameFor(u, s, t)
    ensures SameFor(u, State(shared, s.rooms[ch := room]), State(shared, t.rooms[ch := room]))
  {
    var a, b := State(shared, s.rooms[ch := room]), State(shared, t.rooms[ch := room]);
    forall c ensures Sees(a, u, c) == Sees(b, u, c) && (Sees(a, u, c) ==> a.rooms[c] == b.rooms[c]) {
      assert Sees(s, u, c) == Sees(t, u, c);
    }
  }

  /**
   A request of u, or of anybody in a room u is in, against two states that differ
   only in rooms u is not in: u cannot tell the two apart exactly when the row it
   gets as far as inserting, if any, clashes alike with the rooms u is not in.
   */
  lemma RequestIsBlind(decode: Decoder, s: State, t: State, u: User, v: User, ch: ChannelId, op: Op)
    requires SameFor(u, s, t) && (v == u || Sees(s, u, ch))
    ensures Attempt(decode, s, v, ch, op) == Attempt(decode, t, v, ch, op)
    ensures AlikeFor(u, Handle(decode, s, v, ch, op), Handle(decode, t, v, ch, op)) <==>
              ClashesAlike(s, t, u, Attempt(decode, s, v, ch, op))
  {
    hide Act;
    hide Holds;
    hide Taken;
    hide SeenHolds;
    hide HiddenHolds;
    assert Sees(s, u, ch) == Sees(t, u, ch);
    if !Sees(s, u, ch) {
      StrangerLearnsNothing(decode, s, u, ch, op);
      StrangerLearnsNothing(decode, t, u, ch, op);
      StrangerInserts(decode, s, u, ch, op);
      StrangerInserts(decode, t, u, ch, op);
    } else {
      var sc := ScopeOf(s, v, ch);
      assert ScopeOf(t, v, ch) == sc;
      var e := Act(decode, s.shared, sc, op);
      ActTouches(decode, s.shared, sc, op);
      SetRoomAlike(s, t, u, ch, e.room, e.shared);
      if e.inserts.Some? {
        TakenSomewhere(s, u, e.inserts.value);
        TakenSomewhere(t, u, e.inserts.value);
        SeenAlike(s, t, u, e.inserts.value);
      }
    }
  }

  lemma StrangerInserts(decode: Decoder, s: State, u: User, ch: ChannelId, op: Op)
    requires !Sees(s, u, ch)
    ensures Attempt(decode, s, u, ch, op) == None
  {
    hide Act;
    hide Touches;
    if ch in s.rooms { ActTouches(decode, s.shared, ScopeOf(s, u, ch), op); }
  }

  /** Every operation that names no unique key is blind: nothing u is not in shows through it. */
  lemma PlainRequestIsBlind(decode: Decoder, s: State, t: State, u: User, ch: ChannelId, op: Op)
    requires SameFor(u, s, t) && Named(op).None?
    ensures AlikeFor(u, Handle(decode, s, u, ch, op), Handle(decode, t, u, ch, op))
  {
    hide Act;
    hide Handle;
    RequestIsBlind(decode, s, t, u, u, ch, op);
    if ch in s.rooms { ActTouches(decode, s.shared, ScopeOf(s, u, ch), op); }
  }

  /**
   Registering a group shows whether some other room holds the chosen id, exactly
   when the caller's own room is an encrypted one without a group and no room the
   caller is in holds that id.
   */
  lemma CreateGroupIsBlindIff(decode: Decoder, s: State, t: State, u: User, ch: ChannelId, g: Blob)
    requires SameFor(u, s, t) && Sees(s, u, ch)
    ensures AlikeFor(u, Handle(decode, s, u, ch, CreateGroup(Some(g))), Handle(decode, t, u, ch, CreateGroup(Some(g)))) <==>
              || !s.rooms[ch].e2ee || s.rooms[ch].group.Some? || SeenHolds(s, u, GroupKey(g))
              || HiddenHolds(s, u, GroupKey(g)) == HiddenHolds(t, u, GroupKey(g))
  {
    hide Handle;
    hide Holds;
    hide SeenHolds;
    hide HiddenHolds;
    RequestIsBlind(decode, s, t, u, u, ch, CreateGroup(Some(g)));
  }

  ghost function EmptyRoom(members: set<User>): Room {
    Room(Private, true, None, "", members, map[], map[], map[], None, {})
  }

  /**
   So blindness fails of the code: a room of other people that holds a group id
   turns the caller's 201 for that id into a 409.
   */
  lemma GroupIdLeaks(decode: Decoder, u: User, other: User, g: Blob) returns (s: State, t: State)
    requires u != other
    ensures SameFor(u, s, t) && Sees(s, u, 0) && !Sees(s, u, 1) && 1 !in t.rooms
    ensures Handle(decode, s, u, 0, CreateGroup(Some(g))).response == Conflict("mls_group_exists")
    ensures Handle(decode, t, u, 0, CreateGroup(Some(g))).response == Epoch(g, 0)
  {
    hide Act;
    hide Handle;
    hide Keys;
    var shared := Shared(map[], map[], false, false);
    var mine, theirs := EmptyRoom({u}), EmptyRoom({other}).(group := Some(Group(g, 0, map[], {})));
    s, t := State(shared, map[0 := mine, 1 := theirs]), State(shared, map[0 := mine]);
    OnlyGroups(theirs, GroupKey(g));
    OnlyGroups(mine, GroupKey(g));
    assert s.rooms[1] == theirs && Taken(s, GroupKey(g)) && !Taken(t, GroupKey(g));
    CreateAnswer(decode, s, u, 0, g);
    CreateAnswer(decode, t, u, 0, g);
  }

  lemma OnlyGroups(room: Room, key: Unique)
    requires room.messages == map[] && room.files == map[]
    ensures key in Holds(room) <==> room.group.Some? && key == GroupKey(room.group.value.id)
  {
  }

  /** What registering a group in an encrypted room without one answers. */
  lemma CreateAnswer(decode: Decoder, s: State, u: User, ch: ChannelId, g: Blob)
    requires Sees(s, u, ch) && s.rooms[ch].e2ee && s.rooms[ch].group.None?
    ensures Handle(decode, s, u, ch, CreateGroup(Some(g))).response ==
              if Taken(s, GroupKey(g)) then Conflict("mls_group_exists") else Epoch(g, 0)
  {
    hide Taken;
    hide ActOnChannel;
    hide ActOnMessages;
  }
}
